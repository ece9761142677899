/**
 Shared vocabulary of the shop backend model: optional values, the error
 taxonomy of the HTTP handlers, and the two row-id rules of the relational
 store (which row `.first()` yields, which id a newly inserted row gets).
 */
module Common {

  /** A value that may be absent, as a JSON field that may be missing. */
  datatype Option<+T> = None | Some(value: T) {

    /** The value, or `default` when absent (Python's `dict.get(key, default)`). */
    function GetOr(default: T): T
    {
      match this
      case Some(v) => v
      case None => default
    }
  }

  /** The error taxonomy: 400 for missing input, 404 for an unresolved or
      foreign id, 400 for a duplicate email, 401 for bad credentials. */
  datatype Error = Validation | NotFound | Conflict | Auth

  /** A user's row id, which is also the identity a token carries. */
  type UserId = int

  /** The outcome of a request that returns a body on success. */
  datatype Result<+T> = Ok(value: T) | Err(error: Error)

  /** The outcome of a request that returns only a message on success. */
  datatype Status = Success | Failure(error: Error)

  /** Python truthiness of an optional JSON number: missing, null and 0 are falsy. */
  function FalsyInt(o: Option<int>): (r: bool)
    ensures r <==> o.GetOr(0) == 0
  {
    o.None? || o.value == 0
  }

  /** Python truthiness of an optional JSON string: missing, null and "" are falsy. */
  function FalsyString(o: Option<string>): (r: bool)
    ensures r <==> o.GetOr("") == ""
  {
    o.None? || o.value == ""
  }

  /** `m` is the least element of `s`. */
  predicate IsLeast(m: int, s: set<int>)
  {
    m in s && forall x :: x in s ==> m <= x
  }

  /** `m` is the greatest element of `s`. */
  predicate IsGreatest(m: int, s: set<int>)
  {
    m in s && forall x :: x in s ==> x <= m
  }

  /** A set with no member is the empty set. */
  lemma NoMemberMeansEmpty(s: set<int>)
    requires forall y :: y !in s
    ensures s == {}
  {
    assert forall y :: y in s <==> y in {};
  }

  /** A non-empty set has a member. */
  lemma HasMember(s: set<int>)
    requires s != {}
    ensures exists y :: y in s
  {
    if forall y :: y !in s {
      NoMemberMeansEmpty(s);
      assert false;
    }
  }

  lemma {:induction false} LeastExists(s: set<int>)
    requires s != {}
    ensures exists m :: IsLeast(m, s)
    decreases s
  {
    HasMember(s);
    var x :| x in s;
    if s == {x} {
      assert IsLeast(x, s);
    } else {
      LeastExists(s - {x});
      var m :| IsLeast(m, s - {x});
      assert forall y :: y in s ==> y == x || y in s - {x};
      if x < m {
        assert IsLeast(x, s);
      } else {
        assert IsLeast(m, s);
      }
    }
  }

  lemma {:induction false} GreatestExists(s: set<int>)
    requires s != {}
    ensures exists m :: IsGreatest(m, s)
    decreases s
  {
    HasMember(s);
    var x :| x in s;
    if s == {x} {
      assert IsGreatest(x, s);
    } else {
      GreatestExists(s - {x});
      var m :| IsGreatest(m, s - {x});
      assert forall y :: y in s ==> y == x || y in s - {x};
      if m < x {
        assert IsGreatest(x, s);
      } else {
        assert IsGreatest(m, s);
      }
    }
  }

  /** The smallest id of a non-empty set: the row a rowid-ordered scan meets first. */
  function Least(s: set<int>): (m: int)
    requires s != {}
    ensures IsLeast(m, s)
  {
    LeastExists(s);
    var m :| m in s && IsLeast(m, s);
    m
  }

  /** The largest id of a non-empty set. */
  function Greatest(s: set<int>): (m: int)
    requires s != {}
    ensures IsGreatest(m, s)
  {
    GreatestExists(s);
    var m :| m in s && IsGreatest(m, s);
    m
  }

  /** The id the store gives a newly inserted row: one more than the largest
      id in use, or 1 in an empty table: fresh, above every id in use, and
      directly after the largest one. */
  function NextId<V>(rows: map<int, V>): (r: int)
    ensures r !in rows
    ensures forall id :: id in rows ==> id < r
    ensures rows == map[] ==> r == 1
    ensures rows != map[] ==> r - 1 in rows
  {
    if rows == map[] then 1 else Greatest(rows.Keys) + 1
  }

  /** `s` lists its elements in strictly increasing order. */
  predicate Ascending(s: seq<int>)
  {
    forall i, j :: 0 <= i < j < |s| ==> s[i] < s[j]
  }

  /** The ids of `ids` in increasing order: the order of a rowid scan. */
  function SortedIds(ids: set<int>): (r: seq<int>)
    ensures Ascending(r)
    ensures |r| == |ids|
    ensures forall x :: x in r <==> x in ids
    decreases ids
  {
    if ids == {} then []
    else
      var m := Least(ids);
      var rest := SortedIds(ids - {m});
      assert forall k :: 0 <= k < |rest| ==> m < rest[k] by {
        forall k | 0 <= k < |rest| ensures m < rest[k] {
          assert rest[k] in ids - {m};
        }
      }
      [m] + rest
  }

  /** The rows of `rows` with their ids, in id order: the result of a
      full-table scan. */
  function Listing<V>(rows: map<int, V>): (r: seq<(int, V)>)
    ensures |r| == |rows.Keys|
    ensures forall i :: 0 <= i < |r| ==> r[i].0 in rows && r[i].1 == rows[r[i].0]
    ensures forall i, j :: 0 <= i < j < |r| ==> r[i].0 < r[j].0
    ensures forall id :: id in rows ==> exists i :: 0 <= i < |r| && r[i].0 == id
  {
    var r := ScanRows(rows);
    ScanCount(rows, r);
    ScanFaithful(rows, r);
    ScanAscending(rows, r);
    ScanComplete(rows, r);
    r
  }

  /** The rows of `rows` in id order, without its contract. */
  function ScanRows<V>(rows: map<int, V>): seq<(int, V)>
  {
    var ids := SortedIds(rows.Keys);
    assert forall i :: 0 <= i < |ids| ==> ids[i] in rows.Keys;
    RowsAt(rows, ids)
  }

  /** The rows with ids `ids`, in that order. */
  function RowsAt<V>(rows: map<int, V>, ids: seq<int>): (r: seq<(int, V)>)
    requires forall i :: 0 <= i < |ids| ==> ids[i] in rows
    ensures |r| == |ids|
    ensures forall i :: 0 <= i < |r| ==> r[i].0 == ids[i] && r[i].1 == rows[ids[i]]
  {
    if ids == [] then [] else [(ids[0], rows[ids[0]])] + RowsAt(rows, ids[1..])
  }

  lemma ScanIds<V>(rows: map<int, V>) returns (ids: seq<int>)
    ensures ids == SortedIds(rows.Keys)
    ensures forall i :: 0 <= i < |ids| ==> ids[i] in rows
    ensures ScanRows(rows) == RowsAt(rows, ids)
  {
    ids := SortedIds(rows.Keys);
    assert forall i :: 0 <= i < |ids| ==> ids[i] in rows.Keys;
  }

  lemma ScanCount<V>(rows: map<int, V>, r: seq<(int, V)>)
    requires r == ScanRows(rows)
    ensures |r| == |rows.Keys|
  {
    var ids := ScanIds(rows);
  }

  lemma ScanFaithful<V>(rows: map<int, V>, r: seq<(int, V)>)
    requires r == ScanRows(rows)
    ensures forall i :: 0 <= i < |r| ==> r[i].0 in rows && r[i].1 == rows[r[i].0]
  {
    var ids := ScanIds(rows);
    forall i | 0 <= i < |r|
      ensures r[i].0 in rows && r[i].1 == rows[r[i].0]
    {
      assert r[i].0 == ids[i];
    }
  }

  lemma ScanAscending<V>(rows: map<int, V>, r: seq<(int, V)>)
    requires r == ScanRows(rows)
    ensures forall i, j :: 0 <= i < j < |r| ==> r[i].0 < r[j].0
  {
    var ids := ScanIds(rows);
    forall i, j | 0 <= i < j < |r|
      ensures r[i].0 < r[j].0
    {
      assert ids[i] < ids[j];
      assert r[i].0 == ids[i] && r[j].0 == ids[j];
    }
  }

  lemma ScanComplete<V>(rows: map<int, V>, r: seq<(int, V)>)
    requires r == ScanRows(rows)
    ensures forall id :: id in rows ==> exists i :: 0 <= i < |r| && r[i].0 == id
  {
    var ids := ScanIds(rows);
    forall id | id in rows
      ensures exists i :: 0 <= i < |r| && r[i].0 == id
    {
      assert id in rows.Keys;
      assert id in ids;
      var i :| 0 <= i < |ids| && ids[i] == id;
      assert 0 <= i < |r| && r[i].0 == id;
    }
  }
}
