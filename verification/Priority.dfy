// Time priority over whole runs: orders on one side keep their relative order
// while they stay live, whatever else happens to the book.
module Priority {
  import opened Types
  import opened PriceTime
  import opened AbstractBook
  import opened Matching
  import opened Replay
  import opened Submit
  import opened Snapshot
  import opened Runs

  // x stands before y on this side.
  ghost predicate Precedes(s: seq<Order>, x: OrderId, y: OrderId) {
    exists i, j :: 0 <= i < j < |s| && s[i].id == x && s[j].id == y
  }

  // Where an insertion leaves the i-th order.
  lemma ShiftedByInsert(side: Side, s: seq<Order>, o: Order, i: nat) returns (i1: nat)
    requires i < |s|
    ensures i1 == if i < InsertPos(side, s, o.price) then i else i + 1
    ensures i1 < |Insert(side, s, o)| && Insert(side, s, o)[i1] == s[i]
  {
    i1 := if i < InsertPos(side, s, o.price) then i else i + 1;
    InsertElements(side, s, o);
    hide Insert;
  }

  lemma InsertKeepsOrder(side: Side, s: seq<Order>, o: Order, x: OrderId, y: OrderId)
    requires Precedes(s, x, y)
    ensures Precedes(Insert(side, s, o), x, y)
  {
    hide Insert, InsertPos;
    var i, j :| 0 <= i < j < |s| && s[i].id == x && s[j].id == y;
    var i1 := ShiftedByInsert(side, s, o, i);
    var j1 := ShiftedByInsert(side, s, o, j);
    assert Insert(side, s, o)[i1].id == x && Insert(side, s, o)[j1].id == y;
  }

  lemma RemoveKeepsOrder(s: seq<Order>, k: nat, x: OrderId, y: OrderId)
    requires Precedes(s, x, y) && k < |s| && s[k].id != x && s[k].id != y
    ensures Precedes(RemoveAt(s, k), x, y)
  {
    var i, j :| 0 <= i < j < |s| && s[i].id == x && s[j].id == y;
    var t := RemoveAt(s, k);
    RemoveElements(s, k);
    var i1, j1 := if i < k then i else i - 1, if j < k then j else j - 1;
    assert t[i1].id == x && t[j1].id == y;
  }

  lemma ResizeKeepsOrder(s: seq<Order>, k: nat, q: Qty, x: OrderId, y: OrderId)
    requires Precedes(s, x, y) && k < |s|
    ensures Precedes(ResizeAt(s, k, q), x, y)
  {
    var i, j :| 0 <= i < j < |s| && s[i].id == x && s[j].id == y;
    var t := ResizeAt(s, k, q);
    assert t[i].id == x && t[j].id == y;
  }

  lemma ConsumeKeepsOrder(s: seq<Order>, q: nat, x: OrderId, y: OrderId)
    requires Positive(s) && Unique(s) && Precedes(s, x, y)
    requires HasId(Consume(s, q), x)
    ensures Precedes(Consume(s, q), x, y)
  {
    var i, j :| 0 <= i < j < |s| && s[i].id == x && s[j].id == y;
    var d := ConsumeIsSuffix(s, q);
    var t := Consume(s, q);
    var n :| 0 <= n < |t| && t[n].id == x;
    assert s[d + n].id == x && d + n == i;
    assert t[i - d].id == x && t[j - d].id == y;
  }

  // The one command that gives up an order's place: growing it under
  // LosePriorityOnIncrease.
  ghost predicate GivesUp(b: Book, c: Command, id: OrderId) {
    c.Amend? && c.id == id && c.priority == LosePriorityOnIncrease && Live(b, id) && c.newQty > Find(b, id).qty
  }

  // The edits of a book

  lemma AddedKeeps(b: Book, o: Order, side: Side, x: OrderId, y: OrderId)
    requires Precedes(b.On(side), x, y)
    ensures Precedes(Added(b, o).On(side), x, y)
  {
    if o.side == side {
      InsertKeepsOrder(side, b.On(side), o, x, y);
    }
  }

  lemma RemovedKeeps(b: Book, id: OrderId, side: Side, x: OrderId, y: OrderId)
    requires WellFormed(b) && Live(b, id) && Precedes(b.On(side), x, y)
    requires HasId(Removed(b, id).On(side), x) && HasId(Removed(b, id).On(side), y)
    ensures Precedes(Removed(b, id).On(side), x, y)
  {
    if SideOf(b, id) == side {
      var s, k := b.On(side), IndexOf(b, id);
      GoneAfterRemove(s, k);
      RemoveKeepsOrder(s, k, x, y);
    }
  }

  lemma GoneAfterRemove(s: seq<Order>, k: nat)
    requires Unique(s) && k < |s|
    ensures !HasId(RemoveAt(s, k), s[k].id)
  {
    RemoveElements(s, k);
  }

  lemma ResizedKeeps(b: Book, id: OrderId, q: Qty, side: Side, x: OrderId, y: OrderId)
    requires Live(b, id) && Precedes(b.On(side), x, y)
    ensures Precedes(Resized(b, id, q).On(side), x, y)
  {
    if SideOf(b, id) == side {
      ResizeKeepsOrder(b.On(side), IndexOf(b, id), q, x, y);
    }
  }

  lemma OnItsSide(b: Book, side: Side, id: OrderId)
    requires WellFormed(b) && HasId(b.On(side), id)
    ensures Live(b, id) && SideOf(b, id) == side
  {
    FindIs(b, side, Pos(b.On(side), id));
  }

  // Sending an order to the end of its level moves no other order, and nothing
  // that stood before it falls behind it.
  lemma RequeuedKeeps(b: Book, id: OrderId, q: Qty, side: Side, x: OrderId, y: OrderId)
    requires WellFormed(b) && Live(b, id) && Precedes(b.On(side), x, y) && x != id
    ensures Precedes(Requeued(b, id, q).On(side), x, y)
  {
    if y == id {
      OnItsSide(b, side, y);
    }
    if SideOf(b, id) == side {
      var s, k := b.On(side), IndexOf(b, id);
      if y == id {
        var i, j :| 0 <= i < j < |s| && s[i].id == x && s[j].id == y;
        EndsBefore(side, s, i, k, q);
      } else {
        RemoveKeepsOrder(s, k, x, y);
        InsertKeepsOrder(side, RemoveAt(s, k), s[k].(qty := q), x, y);
      }
    }
  }

  // Everything that is no worse priced than a requeued order ends up before it.
  lemma EndsBefore(side: Side, s: seq<Order>, i: nat, k: nat, q: Qty)
    requires Sorted(side, s) && i < |s| && k < |s| && i != k && !Better(side, s[k].price, s[i].price)
    ensures Precedes(RequeueAt(side, s, k, q), s[i].id, s[k].id)
  {
    var t, o := RemoveAt(s, k), s[k].(qty := q);
    RemoveElements(s, k);
    RemoveSorted(side, s, k);
    var i1 := if i < k then i else i - 1;
    assert t[i1] == s[i];
    var n := InsertPos(side, t, o.price);
    StandsBefore(side, t, o.price, i1);
    InsertElements(side, t, o);
    var u := Insert(side, t, o);
    assert u[i1].id == s[i].id && u[n].id == s[k].id;
  }

  lemma StandsBefore(side: Side, t: seq<Order>, p: Price, i: nat)
    requires Sorted(side, t) && i < |t| && !Better(side, p, t[i].price)
    ensures i < InsertPos(side, t, p)
  {
    var n := InsertPos(side, t, p);
    assert n < i ==> !Better(side, t[i].price, t[n].price);
  }

  lemma TakenKeeps(b: Book, taker: Side, q: Qty, limit: Price, side: Side, x: OrderId, y: OrderId)
    requires WellFormed(b) && Precedes(b.On(side), x, y)
    requires HasId(TakeEffect(b, taker, q, limit).book.On(side), x)
    ensures Precedes(TakeEffect(b, taker, q, limit).book.On(side), x, y)
  {
    hide WalkOrders, Precedes, HasId;
    if q > 0 && side == Opposite(taker) {
      ConsumeKeepsOrder(b.On(side), MatchOf(b, taker, q, limit).filledQty, x, y);
    }
  }

  lemma PrecedesHas(s: seq<Order>, x: OrderId, y: OrderId)
    requires Precedes(s, x, y)
    ensures HasId(s, x) && HasId(s, y)
  {
  }

  // One command keeps the order of two orders that live through it, unless it
  // makes the first of them give up its place.
  lemma OperateKeeps(b: Book, op: BookOp, side: Side, x: OrderId, y: OrderId)
    requires WellFormed(b) && Precedes(b.On(side), x, y)
    requires HasId(ApplyEffect(b, op).book.On(side), x) && HasId(ApplyEffect(b, op).book.On(side), y)
    ensures Precedes(ApplyEffect(b, op).book.On(side), x, y)
  {
    hide WellFormed, Precedes, HasId, Removed, Added, Resized, Live;
    match op
    case Add(o) => AddedKeeps(b, o, side, x, y);
    case Remove(id) =>
      if Live(b, id) {
        RemovedKeeps(b, id, side, x, y);
      }
    case UpdateSize(id, q) =>
      if Live(b, id) && q < Find(b, id).qty {
        if q == 0 {
          RemovedKeeps(b, id, side, x, y);
        } else {
          ResizedKeeps(b, id, q, side, x, y);
        }
      }
    case AmendSize(id, q) =>
      if Live(b, id) {
        if q == 0 {
          RemovedKeeps(b, id, side, x, y);
        } else {
          ResizedKeeps(b, id, q, side, x, y);
        }
      }
  }

  lemma AmendKeeps(b: Book, id: OrderId, q: Qty, priority: AmendPriorityPolicy, side: Side, x: OrderId, y: OrderId)
    requires WellFormed(b) && Precedes(b.On(side), x, y)
    requires var b1 := AmendEffect(b, id, q, priority).book;
             HasId(b1.On(side), x) && HasId(b1.On(side), y)
    requires !GivesUp(b, Amend(id, q, priority), x)
    ensures Precedes(AmendEffect(b, id, q, priority).book.On(side), x, y)
  {
    hide WellFormed, Precedes, HasId, Removed, Resized, Requeued, Live;
    if Live(b, id) {
      if q == 0 {
        RemovedKeeps(b, id, side, x, y);
      } else if priority == LosePriorityOnIncrease && q > Find(b, id).qty {
        RequeuedKeeps(b, id, q, side, x, y);
      } else {
        ResizedKeeps(b, id, q, side, x, y);
      }
    }
  }

  lemma ReplayedKeeps(b: Book, op: BookOp, policy: ReplayPolicy, side: Side, x: OrderId, y: OrderId)
    requires WellFormed(b) && Precedes(b.On(side), x, y)
    requires HasId(EffectOf(b, op, policy).book.On(side), x) && HasId(EffectOf(b, op, policy).book.On(side), y)
    ensures Precedes(EffectOf(b, op, policy).book.On(side), x, y)
  {
    hide WellFormed, Precedes, HasId, ApplyEffect;
    var r := EffectOf(b, op, policy);
    if r.outcome.Coerced? {
      OperateKeeps(b, AmendSize(op.id, op.newQty), side, x, y);
    } else if r.outcome.Applied? {
      OperateKeeps(b, op, side, x, y);
    } else {
      OnlyAppliedChanges(b, op, policy);
    }
  }

  lemma SubmittedKeeps(b: Book, o: Order, tif: LimitOrderPolicy, side: Side, x: OrderId, y: OrderId)
    requires WellFormed(b) && Precedes(b.On(side), x, y)
    requires HasId(SubmitEffect(b, o, tif).book.On(side), x)
    ensures Precedes(SubmitEffect(b, o, tif).book.On(side), x, y)
  {
    hide WellFormed, Precedes, WalkOrders, Consume, Insert, Live;
    PrecedesHas(b.On(side), x, y);
    OnItsSide(b, side, x);
    if o.qty > 0 && !Live(b, o.id) {
      var taken := TakeEffect(b, o.side, o.qty, o.price).book;
      var m := MatchOf(b, o.side, o.qty, o.price);
      if tif == PostOnly {
        AddedKeeps(b, o, side, x, y);
      } else if HasId(taken.On(side), x) {
        TakenKeeps(b, o.side, o.qty, o.price, side, x, y);
        if m.unfilledQty > 0 {
          AddedKeeps(taken, o.(qty := m.unfilledQty), side, x, y);
        }
      } else {
        AddedOnly(taken, o.(qty := m.unfilledQty), side, x);
      }
    }
  }

  // An added order brings no id but its own.
  lemma AddedOnly(b: Book, o: Order, side: Side, x: OrderId)
    requires o.id != x
    ensures HasId(Added(b, o).On(side), x) ==> HasId(b.On(side), x)
  {
    InsertElements(o.side, b.On(o.side), o);
  }

  // One command keeps the order of two orders that both live through it, unless
  // it makes the first of them give up its place or loads a snapshot, which brings
  // an order of its own.
  lemma ExecKeepsOrder(b: Book, c: Command, side: Side, x: OrderId, y: OrderId)
    requires WellFormed(b) && Precedes(b.On(side), x, y) && !GivesUp(b, c, x) && !Resets(b, c)
    requires HasId(Exec(b, c).On(side), x) && HasId(Exec(b, c).On(side), y)
    ensures Precedes(Exec(b, c).On(side), x, y)
  {
    hide WellFormed, Precedes, HasId, ApplyEffect, EffectOf, AmendEffect, TakeEffect, SubmitEffect, SnapshotEffect;
    match c
    case Operate(op) => OperateKeeps(b, op, side, x, y);
    case Replayed(op, policy) => ReplayedKeeps(b, op, policy, side, x, y);
    case Amend(id, q, priority) => AmendKeeps(b, id, q, priority, side, x, y);
    case Take(taker, q, limit) => TakenKeeps(b, taker, q, limit, side, x, y);
    case SubmitOrder(o, tif) => SubmittedKeeps(b, o, tif, side, x, y);
    case Load(orders, policy) => PreserveSyntheticExact(b, orders, side, 0);
    case Reset =>
  }

  // Giving up its place puts an order behind every later order of its level ...
  lemma GivingUpSwaps(b: Book, c: Command, side: Side, x: OrderId, y: OrderId)
    requires WellFormed(b) && Precedes(b.On(side), x, y) && GivesUp(b, c, x)
    requires Find(b, x).price == b.On(side)[Pos(b.On(side), y)].price
    ensures Precedes(Exec(b, c).On(side), y, x)
  {
    PrecedesHas(b.On(side), x, y);
    OnItsSide(b, side, x);
    var s := b.On(side);
    EndsBefore(side, s, Pos(s, y), IndexOf(b, x), c.newQty);
  }

  lemma OneOrder(s: seq<Order>, x: OrderId, y: OrderId)
    requires Unique(s) && Precedes(s, x, y)
    ensures !Precedes(s, y, x)
  {
  }

  // ... so one command swaps two orders of a level exactly when the first gives
  // up its place.
  lemma SwapsExactlyWhenGivenUp(b: Book, c: Command, side: Side, x: OrderId, y: OrderId)
    requires WellFormed(b) && Precedes(b.On(side), x, y)
    requires Live(b, x) && HasId(b.On(side), y) && Find(b, x).price == b.On(side)[Pos(b.On(side), y)].price
    requires HasId(Exec(b, c).On(side), x) && HasId(Exec(b, c).On(side), y) && !Resets(b, c)
    ensures Precedes(Exec(b, c).On(side), y, x) <==> GivesUp(b, c, x)
  {
    hide Precedes, Resets, HasId, GivesUp, Exec, SideWellFormed;
    if GivesUp(b, c, x) {
      GivingUpSwaps(b, c, side, x, y);
    } else {
      ExecKeepsOrder(b, c, side, x, y);
      ExecWellFormed(b, c);
      WellFormedSide(Exec(b, c), side);
      OneOrder(Exec(b, c).On(side), x, y);
    }
  }

  // Runs

  // The order is on this side at the start, after every command, and so at the end.
  ghost predicate StaysLive(b: Book, cs: seq<Command>, side: Side, id: OrderId)
    decreases |cs|
  {
    HasId(b.On(side), id) && (cs != [] ==> StaysLive(Exec(b, cs[0]), cs[1..], side, id))
  }

  ghost predicate NeverGivesUp(b: Book, cs: seq<Command>, id: OrderId)
    decreases |cs|
  {
    cs != [] ==> !GivesUp(b, cs[0], id) && NeverGivesUp(Exec(b, cs[0]), cs[1..], id)
  }

  ghost predicate NeverResets(b: Book, cs: seq<Command>)
    decreases |cs|
  {
    cs != [] ==> !Resets(b, cs[0]) && NeverResets(Exec(b, cs[0]), cs[1..])
  }

  // Over any run between two resets, two orders that both stay live never swap,
  // unless the one in front gives up its place.
  lemma {:induction false} TimePriority(b: Book, cs: seq<Command>, side: Side, x: OrderId, y: OrderId)
    requires WellFormed(b) && Precedes(b.On(side), x, y)
    requires StaysLive(b, cs, side, x) && StaysLive(b, cs, side, y) && NeverGivesUp(b, cs, x) && NeverResets(b, cs)
    ensures Precedes(Run(b, cs).On(side), x, y)
    decreases |cs|
  {
    hide WellFormed, Exec, Precedes, HasId, GivesUp, Resets;
    if cs != [] {
      var b1 := Exec(b, cs[0]);
      assert HasId(b1.On(side), x) && HasId(b1.On(side), y);
      ExecKeepsOrder(b, cs[0], side, x, y);
      ExecWellFormed(b, cs[0]);
      TimePriority(b1, cs[1..], side, x, y);
    }
  }
}
