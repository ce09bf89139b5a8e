// What every operation reports and does to each level's FIFO queue, stated on the
// queues alone: an order is appended, deleted, resized in place or moved to the end
// of its own queue, and all other queues, on both sides, stay.
module Queues {
  import opened Types
  import opened PriceTime
  import opened AbstractBook
  import opened Matching
  import opened Standing
  import opened Submit

  // One queue without the order, with the order resized, and with it resized and
  // moved to the end; a queue that does not hold it stays.

  ghost function QueueWithout(l: seq<Order>, id: OrderId): seq<Order> {
    if HasId(l, id) then l[..Pos(l, id)] + l[Pos(l, id) + 1..] else l
  }

  ghost function QueueResized(l: seq<Order>, id: OrderId, q: Qty): seq<Order> {
    if HasId(l, id) then l[Pos(l, id) := l[Pos(l, id)].(qty := q)] else l
  }

  ghost function QueueRequeued(l: seq<Order>, id: OrderId, q: Qty): seq<Order> {
    if HasId(l, id) then QueueWithout(l, id) + [l[Pos(l, id)].(qty := q)] else l
  }

  // From b to b1, every queue of the book changes like this.

  ghost predicate Appends(b: Book, b1: Book, o: Order) {
    forall side, p :: LevelAt(b1.On(side), p) ==
                      LevelAt(b.On(side), p) + if side == o.side && p == o.price then [o] else []
  }

  ghost predicate Deletes(b: Book, b1: Book, id: OrderId) {
    forall side, p :: LevelAt(b1.On(side), p) == QueueWithout(LevelAt(b.On(side), p), id)
  }

  ghost predicate Resizes(b: Book, b1: Book, id: OrderId, q: Qty) {
    forall side, p :: LevelAt(b1.On(side), p) == QueueResized(LevelAt(b.On(side), p), id, q)
  }

  ghost predicate Requeues(b: Book, b1: Book, id: OrderId, q: Qty) {
    forall side, p :: LevelAt(b1.On(side), p) == QueueRequeued(LevelAt(b.On(side), p), id, q)
  }

  // An id is in the queue of its own side and price, and in no other.
  lemma OwnQueue(b: Book, id: OrderId, side: Side, p: Price)
    requires WellFormed(b) && Live(b, id)
    ensures var l := LevelAt(b.On(side), p);
            && (HasId(l, id) <==> side == SideOf(b, id) && p == Find(b, id).price)
            && (HasId(l, id) ==> l[Pos(l, id)] == Find(b, id))
  {
    hide WellFormed, LevelAt, Live;
    var l := LevelAt(b.On(side), p);
    InLevel(b, id);
    if HasId(l, id) {
      var j :| 0 <= j < |l| && l[j].id == id;
      var m := LevelMember(b.On(side), p, j);
      LevelPrices(b.On(side), p);
      FindIs(b, side, m);
    }
  }

  lemma AddedAppends(b: Book, o: Order)
    requires WellFormed(b)
    ensures Appends(b, Added(b, o), o)
  {
    hide WellFormed, LevelAt;
    forall side, p
      ensures LevelAt(Added(b, o).On(side), p) ==
              LevelAt(b.On(side), p) + if side == o.side && p == o.price then [o] else []
    {
      AddAppends(b, o, side, p);
    }
  }

  lemma WithoutIsRemoveAt(l: seq<Order>, id: OrderId)
    ensures QueueWithout(l, id) == if HasId(l, id) then RemoveAt(l, Pos(l, id)) else l
  {
  }

  lemma RemovedDeletes(b: Book, id: OrderId)
    requires WellFormed(b) && Live(b, id)
    ensures Deletes(b, Removed(b, id), id)
  {
    hide WellFormed, LevelAt, Live, Removed, HasId, Pos, QueueWithout;
    forall side, p
      ensures LevelAt(Removed(b, id).On(side), p) == QueueWithout(LevelAt(b.On(side), p), id)
    {
      OwnQueue(b, id, side, p);
      RemoveDeletesAt(b, id, side, p);
      WithoutIsRemoveAt(LevelAt(b.On(side), p), id);
    }
  }

  lemma ResizedResizes(b: Book, id: OrderId, q: Qty)
    requires WellFormed(b) && Live(b, id)
    ensures Resizes(b, Resized(b, id, q), id, q)
  {
    hide WellFormed, LevelAt, Live, Resized, HasId, Pos;
    forall side, p
      ensures LevelAt(Resized(b, id, q).On(side), p) == QueueResized(LevelAt(b.On(side), p), id, q)
    {
      OwnQueue(b, id, side, p);
      ResizeUpdatesInPlace(b, id, q, side, p);
    }
  }

  lemma RequeuedRequeues(b: Book, id: OrderId, q: Qty)
    requires WellFormed(b) && Live(b, id)
    ensures Requeues(b, Requeued(b, id, q), id, q)
  {
    hide WellFormed, LevelAt, Live, Requeued, HasId, Pos;
    forall side, p
      ensures LevelAt(Requeued(b, id, q).On(side), p) == QueueRequeued(LevelAt(b.On(side), p), id, q)
    {
      OwnQueue(b, id, side, p);
      RequeueMoves(b, id, q, side, p);
    }
  }

  // The operations, each with the exact condition and value of every error.

  ghost predicate IsAdd(b: Book, o: Order, b1: Book, r: Result<()>) {
    if o.qty == 0 then b1 == b && r == Err(ZeroQty)
    else if Live(b, o.id) then b1 == b && r == Err(DuplicateOrderId(o.id))
    else Appends(b, b1, o) && r == Ok(())
  }

  ghost predicate IsUpdate(b: Book, id: OrderId, q: Qty, b1: Book, r: Result<()>) {
    if !Live(b, id) then b1 == b && r == Err(UnknownOrderId(id))
    else if q >= Find(b, id).qty then
      b1 == b && r.Err? && r.error.NonDecreasingSize? && r.error.current == Find(b, id).qty && r.error.proposed == q
    else r == Ok(()) && if q == 0 then Deletes(b, b1, id) else Resizes(b, b1, id, q)
  }

  ghost predicate IsAmend(b: Book, id: OrderId, q: Qty, priority: AmendPriorityPolicy, b1: Book, r: Result<()>) {
    if !Live(b, id) then b1 == b && r == Err(UnknownOrderId(id))
    else
      && r == Ok(())
      && if q == 0 then Deletes(b, b1, id)
         else if priority == LosePriorityOnIncrease && q > Find(b, id).qty then Requeues(b, b1, id, q)
         else Resizes(b, b1, id, q)
  }

  lemma AddExact(b: Book, o: Order)
    requires WellFormed(b)
    ensures var e := AddEffect(b, o);
            IsAdd(b, o, e.book, e.result)
  {
    hide WellFormed, Appends, Live;
    AddedAppends(b, o);
  }

  lemma RemoveExact(b: Book, id: OrderId)
    requires WellFormed(b)
    ensures var e := RemoveEffect(b, id);
            && (!Live(b, id) ==> e == Effect(b, Err(UnknownOrderId(id))))
            && (Live(b, id) ==>
                  && e.result.Ok? && e.result.value.id == id
                  && e.result.value in b.On(e.result.value.side)
                  && Deletes(b, e.book, id))
  {
    hide Deletes, Removed;
    if Live(b, id) {
      RemovedDeletes(b, id);
    }
  }

  lemma UpdateExact(b: Book, id: OrderId, q: Qty)
    requires WellFormed(b)
    ensures var e := UpdateEffect(b, id, q);
            IsUpdate(b, id, q, e.book, e.result)
  {
    hide WellFormed, Deletes, Resizes, Live, Removed, Resized;
    if Live(b, id) {
      RemovedDeletes(b, id);
      ResizedResizes(b, id, q);
    }
  }

  // Zero removes; growth that loses priority goes to the end of its queue; every
  // other size, smaller or larger, is set in place.
  lemma AmendExact(b: Book, id: OrderId, q: Qty, priority: AmendPriorityPolicy)
    requires WellFormed(b)
    ensures var e := AmendEffect(b, id, q, priority);
            IsAmend(b, id, q, priority, e.book, e.result)
  {
    hide WellFormed, Deletes, Resizes, Requeues, Live, Removed, Resized, Requeued;
    if Live(b, id) {
      RemovedDeletes(b, id);
      ResizedResizes(b, id, q);
      RequeuedRequeues(b, id, q);
    }
  }

  ghost predicate IsApply(b: Book, op: BookOp, b1: Book, r: Result<()>) {
    match op
    case Add(o) => IsAdd(b, o, b1, r)
    case Remove(id) =>
      if Live(b, id) then Deletes(b, b1, id) && r == Ok(()) else b1 == b && r == Err(UnknownOrderId(id))
    case UpdateSize(id, q) => IsUpdate(b, id, q, b1, r)
    case AmendSize(id, q) => IsAmend(b, id, q, Preserve, b1, r)
  }

  lemma ApplyExact(b: Book, op: BookOp)
    requires WellFormed(b)
    ensures var e := ApplyEffect(b, op);
            IsApply(b, op, e.book, e.result)
  {
    hide WellFormed, Deletes, IsAdd, IsUpdate, IsAmend, Removed, Live;
    match op
    case Add(o) => AddExact(b, o);
    case Remove(id) => RemoveExact(b, id);
    case UpdateSize(id, q) => UpdateExact(b, id, q);
    case AmendSize(id, q) => AmendExact(b, id, q, Preserve);
  }

  // Taking q units from s leaves t: the first d orders leave, and every later one
  // keeps its place with what its share leaves of it.
  ghost predicate Leaves(s: seq<Order>, q: Qty, t: seq<Order>, d: nat) {
    && d <= |s| && |t| == |s| - d
    && (forall i :: 0 <= i < d ==> Share(s, i, q) == s[i].qty)
    && (forall i :: d <= i < |s| ==>
          Share(s, i, q) < s[i].qty && t[i - d] == s[i].(qty := s[i].qty - Share(s, i, q)))
  }

  lemma ShareBehindFirst(s: seq<Order>, q: Qty)
    requires s != []
    ensures Share(s, 0, q) == Min(q, s[0].qty)
    ensures forall i :: 0 < i < |s| ==> Share(s, i, q) == Share(s[1..], i - 1, q - Min(q, s[0].qty))
  {
    FirstShare(s, q);
    forall i | 0 < i < |s|
      ensures Share(s, i, q) == Share(s[1..], i - 1, q - Min(q, s[0].qty))
    {
      ShareStep(s, i, q);
    }
  }

  lemma LeavesFirst(s: seq<Order>, q: Qty, t: seq<Order>, d: nat)
    requires s != [] && s[0].qty <= q && Leaves(s[1..], q - s[0].qty, t, d)
    ensures Leaves(s, q, t, d + 1)
  {
    ShareBehindFirst(s, q);
    hide Share;
  }

  lemma LeavesRest(s: seq<Order>, q: Qty)
    requires s != [] && q < s[0].qty && Positive(s)
    ensures Leaves(s, q, [s[0].(qty := s[0].qty - q)] + s[1..], 0)
  {
    ShareBehindFirst(s, q);
    NothingShared(s[1..]);
    hide Share;
  }

  lemma {:induction false} ConsumeExact(s: seq<Order>, q: Qty) returns (d: nat)
    requires Positive(s)
    ensures Leaves(s, q, Consume(s, q), d)
  {
    if s == [] {
      d := 0;
    } else {
      hide Leaves;
      ConsumeStep(s, q);
      if s[0].qty <= q {
        d := ConsumeExact(s[1..], q - s[0].qty);
        LeavesFirst(s, q, Consume(s, q), d);
        d := d + 1;
      } else {
        d := 0;
        LeavesRest(s, q);
      }
    }
  }

  lemma NothingShared(s: seq<Order>)
    ensures forall i :: 0 <= i < |s| ==> Share(s, i, 0) == 0
    ensures Consume(s, 0) == s
  {
  }

  lemma TakeExact(b: Book, taker: Side, qty: Qty, limit: Price) returns (d: nat)
    requires WellFormed(b)
    ensures var e := TakeEffect(b, taker, qty, limit);
            var s, t := b.On(Opposite(taker)), e.book.On(Opposite(taker));
            && (qty == 0 ==> e == Effect(b, Err(ZeroQty)))
            && (qty > 0 ==> e.result == Ok(MatchOf(b, taker, qty, limit)))
            && e.book.On(taker) == b.On(taker)
            && Leaves(s, Min(qty, Liquidity(taker, s, limit)), t, d)
  {
    hide WellFormed, WalkOrders, Consume, Share, Liquidity, Leaves;
    var s := b.On(Opposite(taker));
    WellFormedSide(b, Opposite(taker));
    FilledIsLiquidity(taker, s, qty, limit);
    d := ConsumeExact(s, Filled(taker, s, qty, limit));
    NothingShared(s);
  }

  // Submitting, policy by policy: what is reported, what is taken, and what rests.
  lemma SubmitExact(b: Book, o: Order, policy: LimitOrderPolicy)
    requires WellFormed(b)
    ensures var e := SubmitEffect(b, o, policy);
            && (o.qty == 0 ==> e == Effect(b, Err(ZeroQty)))
            && (o.qty > 0 && Live(b, o.id) ==> e == Effect(b, Err(DuplicateOrderId(o.id))))
            && (o.qty > 0 && !Live(b, o.id) ==> e.result.Ok? && IsSubmit(b, o, policy, e.book, e.result.value))
  {
    hide WellFormed, Live, IsSubmit;
    if o.qty > 0 && !Live(b, o.id) {
      TakeWellFormed(b, o.side, o.qty, o.price);
      match policy
      case Gtc => GtcExact(b, o);
      case Ioc => IocExact(b, o);
      case Fok => FokExact(b, o);
      case PostOnly => PostOnlyExact(b, o);
    }
  }

  // b1 and r are what a fresh order leaves and reports.
  ghost predicate IsSubmit(b: Book, o: Order, policy: LimitOrderPolicy, b1: Book, r: SubmitLimitOrderOutcome) {
    var opposite := Opposite(o.side);
    var s := b.On(opposite);
    var liquidity := Liquidity(o.side, s, o.price);
    var filled := Min(o.qty, liquidity);
    && r.policy == policy
    && r.takerMatch == MatchOf(b, o.side, o.qty, o.price) && r.takerMatch.filledQty == filled
    && r.rejected == (if policy == Fok && liquidity < o.qty then Some(FillOrKillWouldNotFill)
                      else if policy == PostOnly && liquidity > 0 then Some(PostOnlyWouldCross)
                      else None)
    && r.restedOrder == (if policy == Gtc && filled < o.qty then Some(o.(qty := o.qty - filled))
                         else if policy == PostOnly && liquidity == 0 then Some(o)
                         else None)
    && b1.On(opposite) == (if policy != PostOnly && r.rejected.None? then Consume(s, filled) else s)
    && forall p :: LevelAt(b1.On(o.side), p) ==
                   LevelAt(b.On(o.side), p) +
                   if r.restedOrder.Some? && p == o.price then [r.restedOrder.value] else []
  }

  // The own side of a book that an order was added to.
  lemma RestsAtEnd(b: Book, o: Order)
    requires WellFormed(b)
    ensures Added(b, o).On(Opposite(o.side)) == b.On(Opposite(o.side))
    ensures forall p :: LevelAt(Added(b, o).On(o.side), p) ==
                        LevelAt(b.On(o.side), p) + if p == o.price then [o] else []
  {
    hide WellFormed, LevelAt, Insert;
    forall p
      ensures LevelAt(Added(b, o).On(o.side), p) == LevelAt(b.On(o.side), p) + if p == o.price then [o] else []
    {
      AddAppends(b, o, o.side, p);
    }
  }

  lemma FilledOfMatch(b: Book, taker: Side, qty: Qty, limit: Price)
    requires WellFormed(b)
    ensures var m, liquidity := MatchOf(b, taker, qty, limit), Liquidity(taker, b.On(Opposite(taker)), limit);
            m.filledQty == Min(qty, liquidity) && m.unfilledQty == qty - m.filledQty
  {
    hide WellFormed, WalkOrders;
    WellFormedSide(b, Opposite(taker));
    FilledIsLiquidity(taker, b.On(Opposite(taker)), qty, limit);
  }

  lemma GtcExact(b: Book, o: Order)
    requires WellFormed(b) && o.qty > 0 && !Live(b, o.id)
    requires WellFormed(TakeEffect(b, o.side, o.qty, o.price).book)
    ensures var e := SubmitEffect(b, o, Gtc);
            e.result.Ok? && IsSubmit(b, o, Gtc, e.book, e.result.value)
  {
    hide WellFormed, Live, LevelAt, Consume, MatchOf, Added, Liquidity;
    FilledOfMatch(b, o.side, o.qty, o.price);
    var m := MatchOf(b, o.side, o.qty, o.price);
    if m.unfilledQty > 0 {
      RestsAtEnd(TakeEffect(b, o.side, o.qty, o.price).book, o.(qty := m.unfilledQty));
    }
  }

  lemma IocExact(b: Book, o: Order)
    requires WellFormed(b) && o.qty > 0 && !Live(b, o.id)
    ensures var e := SubmitEffect(b, o, Ioc);
            e.result.Ok? && IsSubmit(b, o, Ioc, e.book, e.result.value)
  {
    hide WellFormed, Live, LevelAt, Consume, MatchOf, Added, Liquidity;
    FilledOfMatch(b, o.side, o.qty, o.price);
  }

  lemma FokExact(b: Book, o: Order)
    requires WellFormed(b) && o.qty > 0 && !Live(b, o.id)
    ensures var e := SubmitEffect(b, o, Fok);
            e.result.Ok? && IsSubmit(b, o, Fok, e.book, e.result.value)
  {
    hide WellFormed, Live, LevelAt, Consume, MatchOf, Added, Liquidity;
    FilledOfMatch(b, o.side, o.qty, o.price);
  }

  lemma PostOnlyExact(b: Book, o: Order)
    requires WellFormed(b) && o.qty > 0 && !Live(b, o.id)
    ensures var e := SubmitEffect(b, o, PostOnly);
            e.result.Ok? && IsSubmit(b, o, PostOnly, e.book, e.result.value)
  {
    hide WellFormed, Live, LevelAt, Consume, MatchOf, Added, Liquidity, WouldCross;
    FilledOfMatch(b, o.side, o.qty, o.price);
    PostOnlyRejects(b, o);
    RestsAtEnd(b, o);
  }
}
