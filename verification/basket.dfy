/**
 The shopping basket (the `BasketItem` table) and the five basket handlers:
 list, add, update, remove and clear. The authenticated caller is given as
 a user id; the table is a map from line id to line.
 */
module Basket {
  import opened Common
  import Catalog

  type LineId = int

  /** A shoe size. The source stores a float but only ever compares sizes
      for equality and tests them for truthiness, so an integer code stands
      in for it, with 0 playing the part of the falsy 0.0. */
  type Size = int

  /** One basket row. The `added_at` timestamp is not modelled. */
  datatype Line = Line(user: UserId, product: Catalog.ProductId, size: Size, quantity: int)

  /** The triple on which repeated adds merge. */
  datatype Key = Key(user: UserId, product: Catalog.ProductId, size: Size)

  /** The basket table, keyed by line id. */
  type Lines = map<LineId, Line>

  function KeyOf(l: Line): Key
  {
    Key(l.user, l.product, l.size)
  }

  /** At most one line per (user, product, size). */
  predicate UniqueKeys(lines: Lines)
  {
    forall i, j :: i in lines && j in lines && i != j ==> KeyOf(lines[i]) != KeyOf(lines[j])
  }

  /** Every line holds at least one unit. */
  predicate PositiveQuantities(lines: Lines)
  {
    forall id :: id in lines ==> lines[id].quantity >= 1
  }

  /** The line `id` exists and belongs to user `u`: the lookup
      `filter_by(id=..., user_id=...)` finds it. */
  predicate Owns(lines: Lines, u: UserId, id: LineId)
  {
    id in lines && lines[id].user == u
  }

  /** The part of the table that belongs to user `u`. */
  function OwnedBy(lines: Lines, u: UserId): map<LineId, Line>
  {
    map id | id in lines && lines[id].user == u :: lines[id]
  }

  lemma OwnedByHas(lines: Lines, u: UserId, id: LineId)
    requires Owns(lines, u, id)
    ensures id in OwnedBy(lines, u) && OwnedBy(lines, u)[id] == lines[id]
  {
  }

  /** The ids of the lines whose merge key is `k`. */
  function Matching(lines: Lines, k: Key): set<LineId>
  {
    set id | id in lines && KeyOf(lines[id]) == k
  }

  /** The merge lookup `filter_by(user_id, sneaker_id, size).first()`:
      the first line, in id order, whose key is `k`, if any. */
  function FindMerge(lines: Lines, k: Key): (r: Option<LineId>)
    ensures r.None? <==> forall id :: id in lines ==> KeyOf(lines[id]) != k
    ensures r.Some? ==> r.value in lines && KeyOf(lines[r.value]) == k
    ensures r.Some? ==> forall id :: id in lines && KeyOf(lines[id]) == k ==> r.value <= id
  {
    var ids := Matching(lines, k);
    assert forall id :: id in lines && KeyOf(lines[id]) == k ==> id in ids;
    if ids == {} then
      None
    else
      var m := Least(ids);
      assert m in lines && KeyOf(lines[m]) == k;
      Some(m)
  }

  /** The quantity the basket holds under key `k`, as the merge lookup sees
      it: the abstract view the basket operations are specified against. */
  function Holding(lines: Lines, k: Key): Option<int>
  {
    match FindMerge(lines, k)
    case None => None
    case Some(id) => Some(lines[id].quantity)
  }

  /** The body of `POST /basket`. A product or size is absent when its JSON
      key is missing or null. A quantity is absent when its key is missing;
      a null quantity acts the same on the insert path, where the column
      default 1 applies, and fails on the merge path. */
  datatype AddRequest = AddRequest(product: Option<Catalog.ProductId>, size: Option<Size>, quantity: Option<int>)

  /** The quantity an add contributes: the given one, 1 when absent. It is
      not checked for positivity. */
  function AddedQuantity(req: AddRequest): int
  {
    req.quantity.GetOr(1)
  }

  /** The merge key of an add request by user `u`. */
  function RequestKey(u: UserId, req: AddRequest): Key
    requires req.product.Some? && req.size.Some?
  {
    Key(u, req.product.value, req.size.value)
  }

  /** The outcome of a basket mutation and the table after it. */
  datatype Step = Step(status: Status, after: Lines)

  /** `POST /basket` by user `u`. */
  function Add(lines: Lines, catalog: Catalog.Catalog, u: UserId, req: AddRequest): (r: Step)
    ensures r.status == Failure(Validation) <==> FalsyInt(req.product) || FalsyInt(req.size)
    ensures r.status == Failure(NotFound) <==>
              !FalsyInt(req.product) && !FalsyInt(req.size) && req.product.value !in catalog
    ensures r.status == Success <==>
              !FalsyInt(req.product) && !FalsyInt(req.size) && req.product.value in catalog
    ensures r.status.Failure? ==> r.after == lines
    ensures r.status == Success ==> forall id :: id in lines ==> id in r.after
  {
    if FalsyInt(req.product) || FalsyInt(req.size) then
      Step(Failure(Validation), lines)
    else if req.product.value !in catalog then
      Step(Failure(NotFound), lines)
    else
      var k := RequestKey(u, req);
      var q := AddedQuantity(req);
      match FindMerge(lines, k)
      case Some(id) =>
        Step(Success, lines[id := lines[id].(quantity := lines[id].quantity + q)])
      case None =>
        var n := NextId(lines);
        Step(Success, lines[n := Line(u, req.product.value, req.size.value, q)])
  }

  /** `PUT /basket/<id>` by user `u`, with the body's `quantity` field if present. */
  function Update(lines: Lines, u: UserId, id: LineId, quantity: Option<int>): (r: Step)
    ensures r.status == Success <==> Owns(lines, u, id)
    ensures r.status.Failure? ==> r.status.error == NotFound && r.after == lines
    ensures forall j :: j != id ==> (j in r.after <==> j in lines)
    ensures forall j :: j != id && j in lines ==> r.after[j] == lines[j]
    ensures Owns(lines, u, id) && quantity.Some? && quantity.value <= 0 ==> id !in r.after
    ensures Owns(lines, u, id) && quantity.Some? && quantity.value > 0 ==>
              id in r.after && KeyOf(r.after[id]) == KeyOf(lines[id]) && r.after[id].quantity == quantity.value
    ensures quantity.None? ==> r.after == lines
  {
    if !Owns(lines, u, id) then
      Step(Failure(NotFound), lines)
    else
      match quantity
      case None => Step(Success, lines)
      case Some(q) =>
        if q <= 0 then Step(Success, lines - {id})
        else Step(Success, lines[id := lines[id].(quantity := q)])
  }

  /** `DELETE /basket/<id>` by user `u`. */
  function Remove(lines: Lines, u: UserId, id: LineId): (r: Step)
    ensures r.status == Success <==> Owns(lines, u, id)
    ensures r.status.Failure? ==> r.status.error == NotFound && r.after == lines
    ensures r.status == Success ==> r.after.Keys == lines.Keys - {id}
    ensures forall j :: j in r.after ==> j in lines && r.after[j] == lines[j]
  {
    if !Owns(lines, u, id) then Step(Failure(NotFound), lines)
    else Step(Success, lines - {id})
  }

  /** `DELETE /basket` by user `u`: always succeeds. */
  function Clear(lines: Lines, u: UserId): (r: Step)
    ensures r.status == Success
    ensures forall id :: id in r.after <==> id in lines && lines[id].user != u
    ensures forall id :: id in r.after ==> r.after[id] == lines[id]
  {
    Step(Success, map id | id in lines && lines[id].user != u :: lines[id])
  }

  /** One entry of `GET /basket`: a line with the current catalog entry of
      its product, or no product when that id is no longer in the catalog. */
  datatype LineView = LineView(
    id: LineId,
    user: UserId,
    product: Catalog.ProductId,
    size: Size,
    quantity: int,
    item: Option<Catalog.Product>)

  /** `BasketItem.to_dict`. */
  function ViewOf(catalog: Catalog.Catalog, id: LineId, l: Line): (v: LineView)
    ensures v.id == id && v.user == l.user && v.product == l.product
    ensures v.size == l.size && v.quantity == l.quantity
    ensures v.item.Some? <==> l.product in catalog
    ensures v.item.Some? ==> v.item.value == catalog[l.product]
  {
    LineView(id, l.user, l.product, l.size, l.quantity,
             if l.product in catalog then Some(catalog[l.product]) else None)
  }

  /** `GET /basket` by user `u`: the caller's lines in id order, each once. */
  function List(lines: Lines, catalog: Catalog.Catalog, u: UserId): (r: seq<LineView>)
    ensures |r| == |OwnedBy(lines, u).Keys|
    ensures forall i :: 0 <= i < |r| ==>
              Owns(lines, u, r[i].id) && r[i] == ViewOf(catalog, r[i].id, lines[r[i].id])
    ensures forall i, j :: 0 <= i < j < |r| ==> r[i].id < r[j].id
    ensures forall id :: Owns(lines, u, id) ==> exists i :: 0 <= i < |r| && r[i].id == id
  {
    var rows := Listing(OwnedBy(lines, u));
    var r := Views(catalog, rows);
    ViewsOwned(lines, catalog, u, rows, r);
    ViewsComplete(lines, catalog, u, rows, r);
    r
  }

  /** The views of `rows`, in the same order. */
  function Views(catalog: Catalog.Catalog, rows: seq<(LineId, Line)>): (r: seq<LineView>)
    ensures |r| == |rows|
    ensures forall i :: 0 <= i < |r| ==> r[i] == ViewOf(catalog, rows[i].0, rows[i].1)
  {
    if rows == [] then [] else [ViewOf(catalog, rows[0].0, rows[0].1)] + Views(catalog, rows[1..])
  }

  lemma ViewsOwned(lines: Lines, catalog: Catalog.Catalog, u: UserId, rows: seq<(LineId, Line)>, r: seq<LineView>)
    requires rows == Listing(OwnedBy(lines, u))
    requires r == Views(catalog, rows)
    ensures forall i :: 0 <= i < |r| ==>
              Owns(lines, u, r[i].id) && r[i] == ViewOf(catalog, r[i].id, lines[r[i].id])
  {
    forall i | 0 <= i < |r|
      ensures Owns(lines, u, r[i].id) && r[i] == ViewOf(catalog, r[i].id, lines[r[i].id])
    {
      assert rows[i].0 in OwnedBy(lines, u) && rows[i].1 == OwnedBy(lines, u)[rows[i].0];
      assert r[i].id == rows[i].0;
    }
  }

  lemma ViewsComplete(lines: Lines, catalog: Catalog.Catalog, u: UserId, rows: seq<(LineId, Line)>, r: seq<LineView>)
    requires rows == Listing(OwnedBy(lines, u))
    requires r == Views(catalog, rows)
    ensures forall id :: Owns(lines, u, id) ==> exists i :: 0 <= i < |r| && r[i].id == id
  {
    forall id | Owns(lines, u, id)
      ensures exists i :: 0 <= i < |r| && r[i].id == id
    {
      OwnedByHas(lines, u, id);
      var i :| 0 <= i < |rows| && rows[i].0 == id;
      assert r[i] == ViewOf(catalog, rows[i].0, rows[i].1);
    }
  }
}
