// The abstract book: two price-time sequences, and what every operation of
// src/book.rs does to them.
module AbstractBook {
  import opened Types
  import opened PriceTime

  datatype Book = Book(bids: seq<Order>, asks: seq<Order>) {
    ghost function On(side: Side): seq<Order> {
      if side.Bid? then bids else asks
    }

    ghost function With(side: Side, s: seq<Order>): Book {
      if side.Bid? then Book(s, asks) else Book(bids, s)
    }

    ghost function Count(): nat {
      |bids| + |asks|
    }
  }

  const EMPTY := Book([], [])

  ghost predicate SideWellFormed(side: Side, s: seq<Order>) {
    && Sorted(side, s)
    && Unique(s)
    && (forall i :: 0 <= i < |s| ==> s[i].side == side && s[i].qty > 0)
  }

  ghost predicate Apart(bids: seq<Order>, asks: seq<Order>) {
    forall i, j :: 0 <= i < |bids| && 0 <= j < |asks| ==> bids[i].id != asks[j].id
  }

  ghost predicate WellFormed(b: Book) {
    && SideWellFormed(Bid, b.bids)
    && SideWellFormed(Ask, b.asks)
    && Apart(b.bids, b.asks)
  }

  // Every level's total quantity fits the machine integer that caches it.
  ghost predicate Fits(b: Book) {
    forall side, p :: Total(LevelAt(b.On(side), p)) <= MAX_U64
  }

  ghost predicate Live(b: Book, id: OrderId) {
    HasId(b.bids, id) || HasId(b.asks, id)
  }

  ghost function SideOf(b: Book, id: OrderId): Side
    requires Live(b, id)
  {
    if HasId(b.bids, id) then Bid else Ask
  }

  ghost function IndexOf(b: Book, id: OrderId): (k: nat)
    requires Live(b, id)
    ensures k < |b.On(SideOf(b, id))| && b.On(SideOf(b, id))[k].id == id
  {
    Pos(b.On(SideOf(b, id)), id)
  }

  ghost function Find(b: Book, id: OrderId): (o: Order)
    requires Live(b, id)
    ensures o.id == id
  {
    b.On(SideOf(b, id))[IndexOf(b, id)]
  }

  lemma FindIs(b: Book, side: Side, k: nat)
    requires WellFormed(b) && k < |b.On(side)|
    ensures var id := b.On(side)[k].id;
            Live(b, id) && SideOf(b, id) == side && IndexOf(b, id) == k && Find(b, id) == b.On(side)[k]
  {
    PosIs(b.On(side), k);
  }

  // The edits of a book

  ghost function Added(b: Book, o: Order): Book {
    b.With(o.side, Insert(o.side, b.On(o.side), o))
  }

  ghost function Removed(b: Book, id: OrderId): Book
    requires Live(b, id)
  {
    var side := SideOf(b, id);
    b.With(side, RemoveAt(b.On(side), IndexOf(b, id)))
  }

  ghost function Resized(b: Book, id: OrderId, q: Qty): Book
    requires Live(b, id)
  {
    var side := SideOf(b, id);
    b.With(side, ResizeAt(b.On(side), IndexOf(b, id), q))
  }

  ghost function Requeued(b: Book, id: OrderId, q: Qty): Book
    requires Live(b, id)
  {
    var side := SideOf(b, id);
    b.With(side, RequeueAt(side, b.On(side), IndexOf(b, id), q))
  }

  // Where an added order fits, its level has room for it and for its count.
  lemma LevelRoom(b: Book, o: Order)
    requires WellFormed(b) && Fits(Added(b, o)) && o.qty > 0
    ensures Total(LevelAt(b.On(o.side), o.price)) + o.qty <= MAX_U64
    ensures |LevelAt(b.On(o.side), o.price)| + 1 <= MAX_U64
  {
    var l := LevelAt(b.On(o.side), o.price);
    InsertAppends(o.side, b.On(o.side), o, o.price);
    assert LevelAt(Added(b, o).On(o.side), o.price) == l + [o];
    TotalAppend(l, o);
    LevelPositive(b.On(o.side), o.price);
    CountAtMostTotal(l + [o]);
  }

  ghost function Moved(b: Book, id: OrderId, q: Qty, moved: bool): Book
    requires Live(b, id)
  {
    if moved then Requeued(b, id, q) else Resized(b, id, q)
  }

  // Where a resized order fits, its level has room for the new total.
  lemma ResizeRoom(b: Book, id: OrderId, q: Qty, moved: bool)
    requires WellFormed(b) && Live(b, id) && Fits(Moved(b, id, q, moved))
    ensures var o := Find(b, id);
            Total(LevelAt(b.On(SideOf(b, id)), o.price)) - o.qty + q <= MAX_U64
  {
    hide LevelAt, Total;
    var side, k := SideOf(b, id), IndexOf(b, id);
    var s := b.On(side);
    var p := s[k].price;
    LevelPosIs(s, k);
    var l, j := LevelAt(s, p), LevelPos(s, k);
    assert Total(LevelAt(Moved(b, id, q, moved).On(side), p)) <= MAX_U64;
    if moved {
      RequeueMovesToEnd(side, s, k, q, p);
      TotalRemoveAt(l, j);
      TotalAppend(RemoveAt(l, j), s[k].(qty := q));
    } else {
      ResizeUpdates(s, k, q, p);
      TotalResizeAt(l, j, q);
    }
  }

  lemma ResizedToSame(b: Book, id: OrderId)
    requires Live(b, id)
    ensures Resized(b, id, Find(b, id).qty) == b
  {
  }

  // The operations, with their errors

  datatype Effect<T> = Effect(book: Book, result: Result<T>)

  ghost function AddEffect(b: Book, o: Order): Effect<()> {
    if o.qty == 0 then Effect(b, Err(ZeroQty))
    else if Live(b, o.id) then Effect(b, Err(DuplicateOrderId(o.id)))
    else Effect(Added(b, o), Ok(()))
  }

  ghost function RemoveEffect(b: Book, id: OrderId): Effect<Order> {
    if !Live(b, id) then Effect(b, Err(UnknownOrderId(id)))
    else Effect(Removed(b, id), Ok(Find(b, id)))
  }

  ghost function UpdateEffect(b: Book, id: OrderId, q: Qty): Effect<()> {
    if !Live(b, id) then Effect(b, Err(UnknownOrderId(id)))
    else if q >= Find(b, id).qty then Effect(b, Err(NonDecreasingSize(Find(b, id).qty, q)))
    else if q == 0 then Effect(Removed(b, id), Ok(()))
    else Effect(Resized(b, id, q), Ok(()))
  }

  ghost function AmendEffect(b: Book, id: OrderId, q: Qty, policy: AmendPriorityPolicy): Effect<()> {
    if !Live(b, id) then Effect(b, Err(UnknownOrderId(id)))
    else if q == 0 then Effect(Removed(b, id), Ok(()))
    else if policy.LosePriorityOnIncrease? && q > Find(b, id).qty then Effect(Requeued(b, id, q), Ok(()))
    else Effect(Resized(b, id, q), Ok(()))
  }

  ghost function ApplyEffect(b: Book, op: BookOp): Effect<()> {
    match op
    case Add(order) => AddEffect(b, order)
    case Remove(id) =>
      if Live(b, id) then Effect(Removed(b, id), Ok(())) else Effect(b, Err(UnknownOrderId(id)))
    case UpdateSize(id, q) => UpdateEffect(b, id, q)
    case AmendSize(id, q) => AmendEffect(b, id, q, Preserve)
  }

  lemma WellFormedSide(b: Book, side: Side)
    requires WellFormed(b)
    ensures Sorted(side, b.On(side)) && Positive(b.On(side)) && Unique(b.On(side))
  {
  }

  lemma InsertElements(side: Side, s: seq<Order>, o: Order)
    ensures var k, t := InsertPos(side, s, o.price), Insert(side, s, o);
            && |t| == |s| + 1
            && forall i :: 0 <= i < |t| ==> t[i] == if i < k then s[i] else if i == k then o else s[i - 1]
  {
  }

  // What adding does: the order joins the tail of its level, every other queue on
  // either side stays, and the only new id is its own.
  lemma AddAppends(b: Book, o: Order, side: Side, p: Price)
    requires WellFormed(b)
    ensures var l := LevelAt(b.On(side), p);
            LevelAt(Added(b, o).On(side), p) == if side == o.side && p == o.price then l + [o] else l
  {
    if side == o.side {
      WellFormedSide(b, side);
      InsertAppends(side, b.On(side), o, p);
    }
  }

  lemma LiveAfterInsert(side: Side, s: seq<Order>, o: Order, id: OrderId)
    ensures HasId(Insert(side, s, o), id) <==> HasId(s, id) || id == o.id
  {
    InsertElements(side, s, o);
    var k, t := InsertPos(side, s, o.price), Insert(side, s, o);
    assert t[k] == o;
    if HasId(s, id) {
      var i :| 0 <= i < |s| && s[i].id == id;
      assert t[if i < k then i else i + 1].id == id;
    }
    if HasId(t, id) {
      var i :| 0 <= i < |t| && t[i].id == id;
      if i != k {
        assert s[if i < k then i else i - 1].id == id;
      }
    }
  }

  lemma AddedLive(b: Book, o: Order)
    ensures forall id :: Live(Added(b, o), id) <==> Live(b, id) || id == o.id
  {
    InsertElements(o.side, b.On(o.side), o);
    forall id
      ensures Live(Added(b, o), id) <==> Live(b, id) || id == o.id
    {
      LiveAfterInsert(o.side, b.On(o.side), o, id);
    }
  }

  // Well-formedness is kept

  lemma InsertedSide(side: Side, s: seq<Order>, o: Order)
    requires SideWellFormed(side, s) && !HasId(s, o.id) && o.qty > 0 && o.side == side
    ensures SideWellFormed(side, Insert(side, s, o))
  {
    InsertSorted(side, s, o);
    InsertElements(side, s, o);
  }

  lemma AddedWellFormed(b: Book, o: Order)
    requires WellFormed(b) && !Live(b, o.id) && o.qty > 0
    ensures WellFormed(Added(b, o))
  {
    InsertedSide(o.side, b.On(o.side), o);
    InsertElements(o.side, b.On(o.side), o);
  }

  lemma RemoveElements(s: seq<Order>, k: nat)
    requires k < |s|
    ensures forall i :: 0 <= i < |RemoveAt(s, k)| ==> RemoveAt(s, k)[i] == s[if i < k then i else i + 1]
  {
  }

  lemma RemovedSide(side: Side, s: seq<Order>, k: nat)
    requires SideWellFormed(side, s) && k < |s|
    ensures SideWellFormed(side, RemoveAt(s, k))
  {
    RemoveSorted(side, s, k);
    RemoveElements(s, k);
  }

  lemma RemovedWellFormed(b: Book, id: OrderId)
    requires WellFormed(b) && Live(b, id)
    ensures WellFormed(Removed(b, id))
  {
    var side := SideOf(b, id);
    RemovedSide(side, b.On(side), IndexOf(b, id));
    RemoveElements(b.On(side), IndexOf(b, id));
  }

  lemma ResizedWellFormed(b: Book, id: OrderId, q: Qty)
    requires WellFormed(b) && Live(b, id) && q > 0
    ensures WellFormed(Resized(b, id, q))
  {
  }

  lemma RequeuedWellFormed(b: Book, id: OrderId, q: Qty)
    requires WellFormed(b) && Live(b, id) && q > 0
    ensures WellFormed(Requeued(b, id, q))
  {
    var b1 := Removed(b, id);
    RemovedWellFormed(b, id);
    assert !Live(b1, id);
    AddedWellFormed(b1, Find(b, id).(qty := q));
    assert Requeued(b, id, q) == Added(b1, Find(b, id).(qty := q));
  }

  lemma ApplyWellFormed(b: Book, op: BookOp)
    requires WellFormed(b)
    ensures WellFormed(ApplyEffect(b, op).book)
  {
    match op
    case Add(o) =>
      if o.qty > 0 && !Live(b, o.id) {
        AddedWellFormed(b, o);
      }
    case Remove(id) =>
      if Live(b, id) {
        RemovedWellFormed(b, id);
      }
    case UpdateSize(id, q) =>
      if Live(b, id) {
        RemovedWellFormed(b, id);
        if q > 0 {
          ResizedWellFormed(b, id, q);
        }
      }
    case AmendSize(id, q) =>
      if Live(b, id) {
        RemovedWellFormed(b, id);
        if q > 0 {
          ResizedWellFormed(b, id, q);
        }
      }
  }
}
