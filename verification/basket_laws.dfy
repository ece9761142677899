/**
 What the basket handlers promise, stated against the abstract view
 `Holding` (the quantity held under each (user, product, size) key), the
 uniqueness invariant of the merge key, and ownership isolation, for single
 requests and for whole sequences of requests by different users.
 */
module BasketLaws {
  import opened Common
  import Catalog
  import opened Basket

  // ---------------------------------------------------------------------
  // Helpers about the merge lookup
  // ---------------------------------------------------------------------

  /** Writing line `l` at `id` adds `id` to the ids matching `l`'s key and
      removes it from every other key's ids. */
  lemma MatchingAfterWrite(lines: Lines, id: LineId, l: Line, k: Key)
    ensures Matching(lines[id := l], k) ==
            if KeyOf(l) == k then Matching(lines, k) + {id} else Matching(lines, k) - {id}
  {
    var a := Matching(lines[id := l], k);
    var b := if KeyOf(l) == k then Matching(lines, k) + {id} else Matching(lines, k) - {id};
    assert forall x :: x in a <==> x in b;
  }

  /** Deleting line `id` removes it from every key's ids. */
  lemma MatchingAfterDelete(lines: Lines, id: LineId, k: Key)
    ensures Matching(lines - {id}, k) == Matching(lines, k) - {id}
  {
    var a := Matching(lines - {id}, k);
    var b := Matching(lines, k) - {id};
    assert forall x :: x in a <==> x in b;
  }

  /** Two tables with the same lines under key `k` hold the same quantity under `k`. */
  lemma SameHolding(a: Lines, b: Lines, k: Key)
    requires Matching(a, k) == Matching(b, k)
    requires forall j :: j in Matching(a, k) ==> j in a && j in b && a[j] == b[j]
    ensures Holding(a, k) == Holding(b, k)
  {
    if Matching(a, k) != {} {
      var m := Least(Matching(a, k));
      assert FindMerge(a, k) == Some(m);
      assert FindMerge(b, k) == Some(m);
    }
  }

  /** Under the uniqueness invariant, the merge lookup for a line's own key
      finds that line. */
  lemma UniqueFind(lines: Lines, id: LineId)
    requires UniqueKeys(lines)
    requires id in lines
    ensures Matching(lines, KeyOf(lines[id])) == {id}
    ensures Holding(lines, KeyOf(lines[id])) == Some(lines[id].quantity)
  {
    var k := KeyOf(lines[id]);
    assert forall x :: x in Matching(lines, k) <==> x == id;
    assert Matching(lines, k) == {id};
    assert FindMerge(lines, k) == Some(id);
  }

  /** Two tables that agree on the lines of user `v` have the same part owned by `v`. */
  lemma SameOwned(a: Lines, b: Lines, v: UserId)
    requires forall id :: (id in a && a[id].user == v) <==> (id in b && b[id].user == v)
    requires forall id :: id in a && a[id].user == v ==> a[id] == b[id]
    ensures OwnedBy(a, v) == OwnedBy(b, v)
  {
    var x := OwnedBy(a, v);
    var y := OwnedBy(b, v);
    assert forall id :: id in x <==> id in y;
    assert x.Keys == y.Keys;
    assert forall id :: id in x ==> x[id] == y[id];
  }

  // ---------------------------------------------------------------------
  // Add
  // ---------------------------------------------------------------------

  /** Writing a line at `id`, which is either fresh or already carries the
      same key, leaves the quantity held under every other key as it was. */
  lemma HoldingAfterWriteElsewhere(lines: Lines, id: LineId, l: Line, k: Key)
    requires k != KeyOf(l)
    requires id in lines ==> KeyOf(lines[id]) == KeyOf(l)
    ensures Holding(lines[id := l], k) == Holding(lines, k)
  {
    MatchingAfterWrite(lines, id, l, k);
    assert id !in Matching(lines, k);
    assert Matching(lines[id := l], k) == Matching(lines, k);
    SameHolding(lines[id := l], lines, k);
  }

  /** Overwriting the first line with key `KeyOf(l)` by `l` makes the basket
      hold `l`'s quantity under that key. */
  lemma HoldingAfterBump(lines: Lines, id: LineId, l: Line)
    requires FindMerge(lines, KeyOf(l)) == Some(id)
    ensures Holding(lines[id := l], KeyOf(l)) == Some(l.quantity)
  {
    var k := KeyOf(l);
    MatchingAfterWrite(lines, id, l, k);
    assert Matching(lines[id := l], k) == Matching(lines, k);
    assert FindMerge(lines[id := l], k) == Some(id);
  }

  /** Inserting `l` under a fresh id when no line has its key makes the
      basket hold `l`'s quantity under that key. */
  lemma HoldingAfterInsert(lines: Lines, n: LineId, l: Line)
    requires n !in lines
    requires FindMerge(lines, KeyOf(l)).None?
    ensures Holding(lines[n := l], KeyOf(l)) == Some(l.quantity)
  {
    var k := KeyOf(l);
    MatchingAfterWrite(lines, n, l, k);
    assert Matching(lines, k) == {} by {
      assert forall x :: x !in Matching(lines, k);
      NoMemberMeansEmpty(Matching(lines, k));
    }
    assert Matching(lines[n := l], k) == {n};
    assert FindMerge(lines[n := l], k) == Some(n);
  }

  /** A successful add raises the quantity held under the request's key by
      the added quantity (from nothing, when no line has that key), and
      leaves the quantity under every other key as it was. */
  lemma AddAccumulates(lines: Lines, catalog: Catalog.Catalog, u: UserId, req: AddRequest)
    requires Add(lines, catalog, u, req).status == Success
    ensures Holding(Add(lines, catalog, u, req).after, RequestKey(u, req))
            == Some(Holding(lines, RequestKey(u, req)).GetOr(0) + AddedQuantity(req))
    ensures forall k :: k != RequestKey(u, req) ==>
              Holding(Add(lines, catalog, u, req).after, k) == Holding(lines, k)
  {
    var k := RequestKey(u, req);
    var q := AddedQuantity(req);
    var after := Add(lines, catalog, u, req).after;
    match FindMerge(lines, k)
    case Some(id) =>
      var l := lines[id].(quantity := lines[id].quantity + q);
      assert after == lines[id := l];
      HoldingAfterBump(lines, id, l);
      forall k' | k' != k
        ensures Holding(after, k') == Holding(lines, k')
      {
        HoldingAfterWriteElsewhere(lines, id, l, k');
      }
    case None =>
      var n := NextId(lines);
      var l := Line(u, req.product.value, req.size.value, q);
      assert after == lines[n := l];
      HoldingAfterInsert(lines, n, l);
      forall k' | k' != k
        ensures Holding(after, k') == Holding(lines, k')
      {
        HoldingAfterWriteElsewhere(lines, n, l, k');
      }
  }

  /** When a line with the request's key exists, a successful add increases
      the first such line and creates no line: every other line is kept. */
  lemma AddMergesIntoFirstMatch(lines: Lines, catalog: Catalog.Catalog, u: UserId, req: AddRequest, id: LineId)
    requires Add(lines, catalog, u, req).status == Success
    requires id in lines && KeyOf(lines[id]) == RequestKey(u, req)
    requires forall j :: j in lines && KeyOf(lines[j]) == RequestKey(u, req) ==> id <= j
    ensures Add(lines, catalog, u, req).after.Keys == lines.Keys
    ensures Add(lines, catalog, u, req).after[id]
            == lines[id].(quantity := lines[id].quantity + AddedQuantity(req))
    ensures forall j :: j in lines && j != id ==> Add(lines, catalog, u, req).after[j] == lines[j]
  {
    assert FindMerge(lines, RequestKey(u, req)) == Some(id);
  }

  /** When no line has the request's key, a successful add inserts exactly
      one line, under a fresh id above every id in use, holding the added
      quantity; every other line is kept. */
  lemma AddInsertsFreshLine(lines: Lines, catalog: Catalog.Catalog, u: UserId, req: AddRequest)
    requires Add(lines, catalog, u, req).status == Success
    requires forall j :: j in lines ==> KeyOf(lines[j]) != RequestKey(u, req)
    ensures var after := Add(lines, catalog, u, req).after;
            exists n :: n !in lines && (forall j :: j in lines ==> j < n) &&
                        after == lines[n := Line(u, req.product.value, req.size.value, AddedQuantity(req))]
    ensures |Add(lines, catalog, u, req).after| == |lines| + 1
  {
    var n := NextId(lines);
    assert Add(lines, catalog, u, req).after
           == lines[n := Line(u, req.product.value, req.size.value, AddedQuantity(req))];
  }

  /** Add keeps at most one line per (user, product, size). */
  lemma AddPreservesUniqueKeys(lines: Lines, catalog: Catalog.Catalog, u: UserId, req: AddRequest)
    requires UniqueKeys(lines)
    ensures UniqueKeys(Add(lines, catalog, u, req).after)
  {
    var r := Add(lines, catalog, u, req);
    if r.status == Success {
      var k := RequestKey(u, req);
      match FindMerge(lines, k)
      case Some(id) =>
        assert r.after == lines[id := lines[id].(quantity := lines[id].quantity + AddedQuantity(req))];
        assert forall j :: j in r.after ==> KeyOf(r.after[j]) == KeyOf(lines[j]);
      case None =>
        var n := NextId(lines);
        assert r.after == lines[n := Line(u, req.product.value, req.size.value, AddedQuantity(req))];
        assert KeyOf(r.after[n]) == k;
    }
  }

  /** With a quantity of at least one (the default), add keeps every line's
      quantity positive. */
  lemma AddPreservesPositive(lines: Lines, catalog: Catalog.Catalog, u: UserId, req: AddRequest)
    requires PositiveQuantities(lines)
    requires AddedQuantity(req) >= 1
    ensures PositiveQuantities(Add(lines, catalog, u, req).after)
  {
    var r := Add(lines, catalog, u, req);
    if r.status == Success {
      match FindMerge(lines, RequestKey(u, req))
      case Some(id) =>
        assert r.after == lines[id := lines[id].(quantity := lines[id].quantity + AddedQuantity(req))];
      case None =>
        assert r.after == lines[NextId(lines) := Line(u, req.product.value, req.size.value, AddedQuantity(req))];
    }
  }

  /** The quantity of an add is not validated: an add with quantity -2 into
      an empty basket succeeds and stores a line with a non-positive
      quantity, although the column defaults to 1 and one would expect a
      stored quantity to stay at least 1. */
  lemma AddAcceptsNonPositiveQuantity(p: Catalog.Product)
    ensures Add(map[], map[1 := p], 7, AddRequest(Some(1), Some(42), Some(-2))).status == Success
    ensures !PositiveQuantities(Add(map[], map[1 := p], 7, AddRequest(Some(1), Some(42), Some(-2))).after)
  {
    var r := Add(map[], map[1 := p], 7, AddRequest(Some(1), Some(42), Some(-2)));
    assert FindMerge(map[], Key(7, 1, 42)).None?;
    assert r.after == map[1 := Line(7, 1, 42, -2)];
  }

  /** The add handler's not-found answer agrees with the catalog lookup. */
  lemma AddNotFoundAgreesWithCatalog(lines: Lines, catalog: Catalog.Catalog, u: UserId, req: AddRequest)
    requires !FalsyInt(req.product) && !FalsyInt(req.size)
    ensures Add(lines, catalog, u, req).status == Failure(NotFound)
            <==> Catalog.GetProduct(catalog, req.product.value) == Err(NotFound)
  {
  }

  // ---------------------------------------------------------------------
  // Update and remove
  // ---------------------------------------------------------------------

  /** Under the uniqueness invariant, a successful update with a positive
      quantity sets (not increments) the quantity held under the line's key;
      one with a non-positive quantity removes that key from the basket; one
      without a quantity changes nothing. Every other key is unaffected. */
  lemma UpdateSetsHolding(lines: Lines, u: UserId, id: LineId, quantity: Option<int>)
    requires UniqueKeys(lines)
    requires Owns(lines, u, id)
    ensures var after := Update(lines, u, id, quantity).after;
            Holding(after, KeyOf(lines[id])) ==
              if quantity.None? then Some(lines[id].quantity)
              else if quantity.value <= 0 then None
              else Some(quantity.value)
    ensures forall k :: k != KeyOf(lines[id]) ==>
              Holding(Update(lines, u, id, quantity).after, k) == Holding(lines, k)
  {
    var k := KeyOf(lines[id]);
    var after := Update(lines, u, id, quantity).after;
    UniqueFind(lines, id);
    match quantity
    case None =>
    case Some(q) =>
      if q <= 0 {
        assert after == lines - {id};
        MatchingAfterDelete(lines, id, k);
        assert Matching(after, k) == {};
        forall k' | k' != k
          ensures Holding(after, k') == Holding(lines, k')
        {
          MatchingAfterDelete(lines, id, k');
          assert id !in Matching(lines, k');
          SameHolding(after, lines, k');
        }
      } else {
        var l := lines[id].(quantity := q);
        assert after == lines[id := l];
        MatchingAfterWrite(lines, id, l, k);
        assert Matching(after, k) == {id};
        assert FindMerge(after, k) == Some(id);
        forall k' | k' != k
          ensures Holding(after, k') == Holding(lines, k')
        {
          MatchingAfterWrite(lines, id, l, k');
          assert id !in Matching(lines, k');
          SameHolding(after, lines, k');
        }
      }
  }

  /** Update replaces the quantity: repeating the same update leaves the
      table as one update did. */
  lemma UpdateIdempotent(lines: Lines, u: UserId, id: LineId, quantity: Option<int>)
    ensures var once := Update(lines, u, id, quantity).after;
            Update(once, u, id, quantity).after == once
  {
  }

  /** Update keeps at most one line per (user, product, size). */
  lemma UpdatePreservesUniqueKeys(lines: Lines, u: UserId, id: LineId, quantity: Option<int>)
    requires UniqueKeys(lines)
    ensures UniqueKeys(Update(lines, u, id, quantity).after)
  {
    var after := Update(lines, u, id, quantity).after;
    assert forall j :: j in after ==> j in lines && KeyOf(after[j]) == KeyOf(lines[j]);
  }

  /** Update never leaves a line with a non-positive quantity behind: such a
      quantity deletes the line instead. */
  lemma UpdatePreservesPositive(lines: Lines, u: UserId, id: LineId, quantity: Option<int>)
    requires PositiveQuantities(lines)
    ensures PositiveQuantities(Update(lines, u, id, quantity).after)
  {
  }

  /** Removing a line is updating it to quantity zero. */
  lemma RemoveIsUpdateToZero(lines: Lines, u: UserId, id: LineId)
    ensures Remove(lines, u, id) == Update(lines, u, id, Some(0))
  {
  }

  /** Under the uniqueness invariant, a successful remove empties the
      line's key and leaves every other key as it was. */
  lemma RemoveDropsHolding(lines: Lines, u: UserId, id: LineId)
    requires UniqueKeys(lines)
    requires Owns(lines, u, id)
    ensures Holding(Remove(lines, u, id).after, KeyOf(lines[id])) == None
    ensures forall k :: k != KeyOf(lines[id]) ==> Holding(Remove(lines, u, id).after, k) == Holding(lines, k)
  {
    RemoveIsUpdateToZero(lines, u, id);
    UpdateSetsHolding(lines, u, id, Some(0));
  }

  // ---------------------------------------------------------------------
  // Clear and list
  // ---------------------------------------------------------------------

  /** After clear the caller holds nothing under any key, and every other
      user holds exactly what they held before. */
  lemma ClearEmptiesOnlyCaller(lines: Lines, u: UserId)
    ensures forall k: Key :: k.user == u ==> Holding(Clear(lines, u).after, k) == None
    ensures forall k: Key :: k.user != u ==> Holding(Clear(lines, u).after, k) == Holding(lines, k)
  {
    var after := Clear(lines, u).after;
    forall k: Key | k.user == u
      ensures Holding(after, k) == None
    {
      assert forall j :: j in after ==> KeyOf(after[j]) != k;
    }
    forall k: Key | k.user != u
      ensures Holding(after, k) == Holding(lines, k)
    {
      assert forall x :: x in Matching(after, k) <==> x in Matching(lines, k);
      assert Matching(after, k) == Matching(lines, k);
      SameHolding(after, lines, k);
    }
  }

  /** Clearing twice is clearing once. */
  lemma ClearIdempotent(lines: Lines, u: UserId)
    ensures Clear(Clear(lines, u).after, u) == Clear(lines, u)
  {
    var once := Clear(lines, u).after;
    assert Clear(once, u).after.Keys == once.Keys;
  }

  /** After clear the caller's basket lists empty, even when it was empty before. */
  lemma ClearThenListEmpty(lines: Lines, catalog: Catalog.Catalog, u: UserId)
    ensures Clear(lines, u).status == Success
    ensures List(Clear(lines, u).after, catalog, u) == []
  {
    var after := Clear(lines, u).after;
    assert OwnedBy(after, u).Keys == {} by {
      assert forall x :: x !in OwnedBy(after, u).Keys;
      NoMemberMeansEmpty(OwnedBy(after, u).Keys);
    }
  }

  /** A line deleted by an update with a non-positive quantity no longer lists. */
  lemma UpdateToNonPositiveHidesLine(lines: Lines, catalog: Catalog.Catalog, u: UserId, id: LineId, q: int)
    requires Owns(lines, u, id)
    requires q <= 0
    ensures forall v :: v in List(Update(lines, u, id, Some(q)).after, catalog, u) ==> v.id != id
  {
  }

  // ---------------------------------------------------------------------
  // Sequences of requests by several users
  // ---------------------------------------------------------------------

  /** A basket request as routed to one of the four mutating handlers. */
  datatype Request =
    | AddItem(add: AddRequest)
    | UpdateItem(line: LineId, quantity: Option<int>)
    | RemoveItem(line: LineId)
    | ClearItems

  /** A request made by an authenticated user. */
  datatype Call = Call(caller: UserId, request: Request)

  /** The effect of one request by user `u`. */
  function Apply(lines: Lines, catalog: Catalog.Catalog, u: UserId, request: Request): (r: Step)
    ensures r.status.Failure? ==> r.after == lines
  {
    match request
    case AddItem(add) => Add(lines, catalog, u, add)
    case UpdateItem(id, quantity) => Update(lines, u, id, quantity)
    case RemoveItem(id) => Remove(lines, u, id)
    case ClearItems => Clear(lines, u)
  }

  /** The table after serving `calls` in order. */
  function Run(lines: Lines, catalog: Catalog.Catalog, calls: seq<Call>): Lines
    decreases |calls|
  {
    if calls == [] then lines
    else Run(Apply(lines, catalog, calls[0].caller, calls[0].request).after, catalog, calls[1..])
  }

  /** No basket request by `u` changes, adds or removes a line of another user. */
  lemma ApplyIsolates(lines: Lines, catalog: Catalog.Catalog, u: UserId, request: Request, v: UserId)
    requires v != u
    ensures OwnedBy(Apply(lines, catalog, u, request).after, v) == OwnedBy(lines, v)
  {
    var after := Apply(lines, catalog, u, request).after;
    match request
    case AddItem(add) =>
      if after != lines {
        var k := RequestKey(u, add);
        match FindMerge(lines, k)
        case Some(id) =>
          assert after == lines[id := lines[id].(quantity := lines[id].quantity + AddedQuantity(add))];
        case None =>
          assert after == lines[NextId(lines) := Line(u, add.product.value, add.size.value, AddedQuantity(add))];
      }
      SameOwned(after, lines, v);
    case UpdateItem(id, quantity) =>
      SameOwned(after, lines, v);
    case RemoveItem(id) =>
      SameOwned(after, lines, v);
    case ClearItems =>
      SameOwned(after, lines, v);
  }

  /** Every basket request keeps at most one line per (user, product, size). */
  lemma ApplyPreservesUniqueKeys(lines: Lines, catalog: Catalog.Catalog, u: UserId, request: Request)
    requires UniqueKeys(lines)
    ensures UniqueKeys(Apply(lines, catalog, u, request).after)
  {
    match request
    case AddItem(add) => AddPreservesUniqueKeys(lines, catalog, u, add);
    case UpdateItem(id, quantity) => UpdatePreservesUniqueKeys(lines, u, id, quantity);
    case RemoveItem(id) =>
      RemoveIsUpdateToZero(lines, u, id);
      UpdatePreservesUniqueKeys(lines, u, id, Some(0));
    case ClearItems =>
  }

  /** Serving any sequence of requests keeps the merge key unique. */
  lemma {:induction false} RunPreservesUniqueKeys(lines: Lines, catalog: Catalog.Catalog, calls: seq<Call>)
    requires UniqueKeys(lines)
    ensures UniqueKeys(Run(lines, catalog, calls))
    decreases |calls|
  {
    if calls != [] {
      ApplyPreservesUniqueKeys(lines, catalog, calls[0].caller, calls[0].request);
      RunPreservesUniqueKeys(Apply(lines, catalog, calls[0].caller, calls[0].request).after, catalog, calls[1..]);
    }
  }

  /** A user who makes none of the calls finds their lines exactly as they left them. */
  lemma {:induction false} RunIsolates(lines: Lines, catalog: Catalog.Catalog, calls: seq<Call>, v: UserId)
    requires forall i :: 0 <= i < |calls| ==> calls[i].caller != v
    ensures OwnedBy(Run(lines, catalog, calls), v) == OwnedBy(lines, v)
    decreases |calls|
  {
    if calls != [] {
      ApplyIsolates(lines, catalog, calls[0].caller, calls[0].request, v);
      RunIsolates(Apply(lines, catalog, calls[0].caller, calls[0].request).after, catalog, calls[1..], v);
    }
  }
}
