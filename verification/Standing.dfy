// Queue positions, and what they predict about execution.
module Standing {
  import opened Types
  import opened PriceTime
  import opened AbstractBook
  import opened Matching

  lemma {:induction false} LevelMember(s: seq<Order>, p: Price, i: nat) returns (j: nat)
    requires i < |LevelAt(s, p)|
    ensures i <= j < |s| && s[j] == LevelAt(s, p)[i]
  {
    var n := if s[0].price == p then 1 else 0;
    if i < n {
      j := 0;
    } else {
      j := LevelMember(s[1..], p, i - n);
      j := j + 1;
    }
  }

  lemma {:induction false} LevelUnique(s: seq<Order>, p: Price)
    requires Unique(s)
    ensures Unique(LevelAt(s, p))
  {
    if s != [] {
      var t := LevelAt(s[1..], p);
      LevelUnique(s[1..], p);
      forall i | 0 <= i < |t|
        ensures t[i].id != s[0].id
      {
        var j := LevelMember(s[1..], p, i);
        assert s[1..][j] == s[j + 1];
      }
    }
  }

  // A live order's level, and its index there.
  ghost function LevelOf(b: Book, id: OrderId): seq<Order>
    requires Live(b, id)
  {
    LevelAt(b.On(SideOf(b, id)), Find(b, id).price)
  }

  lemma InLevel(b: Book, id: OrderId)
    requires WellFormed(b) && Live(b, id)
    ensures var l := LevelOf(b, id);
            && Unique(l) && HasId(l, id)
            && l[Pos(l, id)] == Find(b, id)
            && Pos(l, id) == LevelPos(b.On(SideOf(b, id)), IndexOf(b, id))
            && l[..Pos(l, id)] == LevelAt(b.On(SideOf(b, id))[..IndexOf(b, id)], Find(b, id).price)
  {
    hide LevelAt;
    var s, k := b.On(SideOf(b, id)), IndexOf(b, id);
    LevelPosIs(s, k);
    LevelUnique(s, s[k].price);
    PosIs(LevelAt(s, s[k].price), LevelPos(s, k));
  }

  lemma LevelFits(b: Book, side: Side, p: Price)
    requires WellFormed(b) && Fits(b)
    ensures var l := LevelAt(b.On(side), p);
            Positive(l) && |l| <= Total(l) <= MAX_U64
  {
    hide LevelAt;
    WellFormedSide(b, side);
    LevelPositive(b.On(side), p);
    CountAtMostTotal(LevelAt(b.On(side), p));
  }

  // The queue position of a live order: everything before and after it in its
  // level's FIFO queue.
  ghost function StandingOf(b: Book, id: OrderId): QueuePosition
    requires WellFormed(b) && Fits(b) && Live(b, id)
  {
    InLevel(b, id);
    var o, l := Find(b, id), LevelOf(b, id);
    var k := Pos(l, id);
    LevelFits(b, SideOf(b, id), o.price);
    TotalSplit(l, k);
    QueuePosition(Some(id), SideOf(b, id), o.price, k, Total(l[..k]), |l| - k - 1, Total(l[k + 1..]), |l|, Total(l))
  }

  // The position of the order at index k of its queue, field by field.
  ghost predicate StandsAt(pos: QueuePosition, o: Order, side: Side, l: seq<Order>, k: nat) {
    && k < |l| && l[k] == o
    && pos.id == Some(o.id) && pos.side == side && pos.price == o.price
    && pos.ordersAhead == k && pos.qtyAhead == Total(l[..k])
    && pos.ordersBehind == |l| - k - 1 && pos.qtyBehind == Total(l[k + 1..])
    && pos.levelOrderCount == |l| && pos.levelTotalQty == Total(l)
  }

  lemma StandingExact(b: Book, id: OrderId)
    requires WellFormed(b) && Fits(b) && Live(b, id)
    ensures var o, side := Find(b, id), SideOf(b, id);
            var l := LevelAt(b.On(side), o.price);
            HasId(l, id) && StandsAt(StandingOf(b, id), o, side, l, Pos(l, id))
  {
    hide LevelAt, Total;
    InLevel(b, id);
  }

  // Resting quantity at strictly better prices.
  ghost function BetterQty(side: Side, s: seq<Order>, p: Price): nat {
    if s == [] then 0
    else (if Better(side, s[0].price, p) then s[0].qty else 0) + BetterQty(side, s[1..], p)
  }

  lemma {:induction false} BetterConcat(side: Side, a: seq<Order>, b: seq<Order>, p: Price)
    ensures BetterQty(side, a + b, p) == BetterQty(side, a, p) + BetterQty(side, b, p)
  {
    if a == [] {
      assert a + b == b;
    } else {
      assert (a + b)[0] == a[0] && (a + b)[1..] == a[1..] + b;
      BetterConcat(side, a[1..], b, p);
    }
  }

  lemma {:induction false} NoneBetter(side: Side, s: seq<Order>, p: Price)
    requires forall i :: 0 <= i < |s| ==> !Better(side, s[i].price, p)
    ensures BetterQty(side, s, p) == 0
  {
    if s != [] {
      NoneBetter(side, s[1..], p);
    }
  }

  lemma {:induction false} BetterOrLevel(side: Side, s: seq<Order>, p: Price)
    requires forall i :: 0 <= i < |s| ==> !Better(side, p, s[i].price)
    ensures Total(s) == BetterQty(side, s, p) + Total(LevelAt(s, p))
  {
    if s != [] {
      BetterOrLevel(side, s[1..], p);
      TotalCons(s[0], LevelAt(s[1..], p));
      assert Better(side, s[0].price, p) || s[0].price == p by {
        assert !Better(side, p, s[0].price);
      }
    }
  }

  // Everything before an order is better priced or ahead of it in its level.
  lemma QtyBefore(side: Side, s: seq<Order>, k: nat)
    requires Sorted(side, s) && k < |s|
    ensures Total(s[..k]) == BetterQty(side, s, s[k].price) + Total(LevelAt(s[..k], s[k].price))
  {
    var p := s[k].price;
    assert s == s[..k] + s[k..];
    BetterConcat(side, s[..k], s[k..], p);
    forall i | 0 <= i < |s[k..]|
      ensures !Better(side, s[k..][i].price, p)
    {
      assert i == 0 || !Better(side, s[k + i].price, s[k].price);
    }
    NoneBetter(side, s[k..], p);
    forall i | 0 <= i < k
      ensures !Better(side, p, s[..k][i].price)
    {
      assert !Better(side, s[k].price, s[i].price);
    }
    BetterOrLevel(side, s[..k], p);
  }

  // What a taker leaves for an order with this much in front of it.
  function ShareBehind(ahead: nat, own: Qty, qty: Qty): Qty {
    if qty <= ahead then 0 else Min(own, qty - ahead)
  }

  ghost predicate FilledFor(fills: seq<FillDelta>, id: OrderId, q: Qty) {
    exists i :: 0 <= i < |fills| && fills[i].makerOrderId == id && fills[i].filledQty == q
  }

  ghost predicate Mentioned(fills: seq<FillDelta>, id: OrderId) {
    exists i :: 0 <= i < |fills| && fills[i].makerOrderId == id
  }

  // A queue position predicts execution: at an acceptable price the order gets
  // what the taker has left after the better prices and the queue ahead of it,
  // and appears among the fills exactly when that is something.
  lemma QueuePredictsFill(b: Book, taker: Side, qty: Qty, limit: Price, id: OrderId)
    requires WellFormed(b) && Fits(b) && Live(b, id) && SideOf(b, id) == Opposite(taker)
    ensures var o, m := Find(b, id), MatchOf(b, taker, qty, limit);
            var ahead := BetterQty(Opposite(taker), b.On(Opposite(taker)), o.price) + StandingOf(b, id).qtyAhead;
            var share := ShareBehind(ahead, o.qty, qty);
            && (Mentioned(m.fills, id) <==> LimitAllows(taker, o.price, limit) && share > 0)
            && (Mentioned(m.fills, id) ==> FilledFor(m.fills, id, share))
  {
    hide WellFormed, Fits, LevelAt, WalkOrders, BetterQty, Total;
    var side := Opposite(taker);
    var s, k := b.On(side), IndexOf(b, id);
    WellFormedSide(b, side);
    InLevel(b, id);
    QtyBefore(side, s, k);
    FillsAreShares(taker, s, qty, limit, k);
    var fills := MatchOf(b, taker, qty, limit).fills;
    if Mentioned(fills, id) {
      var i :| 0 <= i < |fills| && fills[i].makerOrderId == id;
      OnlyLastPartial(taker, s, qty, limit, i);
      assert i == k by {
        FindIs(b, side, i);
      }
    }
    if k < |fills| {
      assert fills[k].makerOrderId == id;
    }
  }

  lemma JoinsLevel(b: Book, o: Order)
    requires WellFormed(b) && !Live(b, o.id) && o.qty > 0
    ensures WellFormed(Added(b, o)) && Live(Added(b, o), o.id)
    ensures SideOf(Added(b, o), o.id) == o.side && Find(Added(b, o), o.id) == o
    ensures LevelOf(Added(b, o), o.id) == LevelAt(b.On(o.side), o.price) + [o]
  {
    hide LevelAt;
    AddedWellFormed(b, o);
    InsertAppends(o.side, b.On(o.side), o, o.price);
    InsertElements(o.side, b.On(o.side), o);
    FindIs(Added(b, o), o.side, InsertPos(o.side, b.On(o.side), o.price));
  }

  // A newcomer joins the tail: all of its level is ahead of it, nothing behind.
  lemma JoinsTail(b: Book, o: Order)
    requires WellFormed(b) && !Live(b, o.id) && o.qty > 0 && Fits(Added(b, o))
    ensures WellFormed(Added(b, o)) && Live(Added(b, o), o.id)
    ensures var l, pos := LevelAt(b.On(o.side), o.price), StandingOf(Added(b, o), o.id);
            && pos.id == Some(o.id) && pos.side == o.side && pos.price == o.price
            && pos.ordersAhead == |l| && pos.qtyAhead == Total(l)
            && pos.ordersBehind == 0 && pos.qtyBehind == 0
            && pos.levelOrderCount == |l| + 1 && pos.levelTotalQty == Total(l) + o.qty
  {
    hide WellFormed, Fits, LevelAt, Total, Live;
    var l := LevelAt(b.On(o.side), o.price);
    JoinsLevel(b, o);
    InLevel(Added(b, o), o.id);
    NewcomerIndex(l, o);
    TotalAppend(l, o);
    assert (l + [o])[..|l|] == l && (l + [o])[|l| + 1..] == [];
    TotalNone();
  }

  lemma TotalNone()
    ensures Total([]) == 0
  {
  }

  lemma NewcomerIndex(l: seq<Order>, o: Order)
    requires Unique(l + [o])
    ensures HasId(l + [o], o.id) && Pos(l + [o], o.id) == |l|
  {
    assert (l + [o])[|l|] == o;
    PosIs(l + [o], |l|);
  }

  // Counting one more order of the level, on either side of the target.
  lemma PrefixStep(l: seq<Order>, at: nat, k: nat)
    requires at < |l| && k < |l|
    ensures k < at ==> Total(l[..k + 1]) == Total(l[..k]) + l[k].qty <= Total(l)
    ensures at < k ==> Total(l[at + 1..k + 1]) == Total(l[at + 1..k]) + l[k].qty <= Total(l)
    ensures at == k ==> l[at + 1..k + 1] == []
  {
    hide Total;
    assert l[..k + 1] == l[..k] + [l[k]];
    TotalAppend(l[..k], l[k]);
    TotalSplit(l, k);
    if at < k {
      assert l[at + 1..k + 1] == l[at + 1..k] + [l[k]];
      TotalAppend(l[at + 1..k], l[k]);
      assert l[..k] == l[..at + 1] + l[at + 1..k];
      TotalConcat(l[..at + 1], l[at + 1..k]);
    }
  }

  // What the other edits of the book do to every FIFO queue: one queue has an order
  // deleted, updated in place, or moved to its end, and all others, on both sides,
  // stay as they are.

  lemma RemoveDeletesAt(b: Book, id: OrderId, side: Side, p: Price)
    requires WellFormed(b) && Live(b, id)
    ensures var l, o := LevelAt(b.On(side), p), Find(b, id);
            if side == SideOf(b, id) && p == o.price then
              HasId(l, id) && LevelAt(Removed(b, id).On(side), p) == RemoveAt(l, Pos(l, id))
            else
              LevelAt(Removed(b, id).On(side), p) == l
  {
    hide LevelAt;
    InLevel(b, id);
    if side == SideOf(b, id) {
      RemoveDeletes(b.On(side), IndexOf(b, id), p);
    }
  }

  lemma ResizeUpdatesInPlace(b: Book, id: OrderId, q: Qty, side: Side, p: Price)
    requires WellFormed(b) && Live(b, id)
    ensures var l, o := LevelAt(b.On(side), p), Find(b, id);
            if side == SideOf(b, id) && p == o.price then
              HasId(l, id) && LevelAt(Resized(b, id, q).On(side), p) == ResizeAt(l, Pos(l, id), q)
            else
              LevelAt(Resized(b, id, q).On(side), p) == l
  {
    hide LevelAt;
    InLevel(b, id);
    if side == SideOf(b, id) {
      ResizeUpdates(b.On(side), IndexOf(b, id), q, p);
    }
  }

  lemma RequeueMoves(b: Book, id: OrderId, q: Qty, side: Side, p: Price)
    requires WellFormed(b) && Live(b, id)
    ensures var l, o := LevelAt(b.On(side), p), Find(b, id);
            if side == SideOf(b, id) && p == o.price then
              && HasId(l, id)
              && LevelAt(Requeued(b, id, q).On(side), p) == RemoveAt(l, Pos(l, id)) + [o.(qty := q)]
            else
              LevelAt(Requeued(b, id, q).On(side), p) == l
  {
    hide LevelAt;
    InLevel(b, id);
    if side == SideOf(b, id) {
      WellFormedSide(b, side);
      RequeueMovesToEnd(side, b.On(side), IndexOf(b, id), q, p);
    }
  }

  // A side is determined by its FIFO queues: two well-formed books with the same
  // queues are the same book.
  lemma {:induction false} QueuesDetermineSide(side: Side, s: seq<Order>, t: seq<Order>)
    requires Sorted(side, s) && Sorted(side, t)
    requires forall p :: LevelAt(s, p) == LevelAt(t, p)
    ensures s == t
    decreases |s|
  {
    if t != [] {
      assert LevelAt(s, t[0].price) == LevelAt(t, t[0].price);
    }
    if s != [] {
      FirstOfLevel(side, s, t);
      assert s[0] == t[0];
      forall p
        ensures LevelAt(s[1..], p) == LevelAt(t[1..], p)
      {
        assert LevelAt(s, p) == LevelAt(t, p);
        assert s[0].price == p ==> LevelAt(s, p)[1..] == LevelAt(s[1..], p) && LevelAt(t, p)[1..] == LevelAt(t[1..], p);
      }
      QueuesDetermineSide(side, s[1..], t[1..]);
      assert s == [s[0]] + s[1..] && t == [t[0]] + t[1..];
    }
  }

  lemma FirstOfLevel(side: Side, s: seq<Order>, t: seq<Order>)
    requires Sorted(side, s) && Sorted(side, t) && s != []
    requires forall p :: LevelAt(s, p) == LevelAt(t, p)
    ensures t != [] && s[0] == t[0]
  {
    var p := s[0].price;
    assert LevelAt(s, p) == LevelAt(t, p);
    assert LevelAt(s, p)[0] == s[0];
    if t != [] {
      var r := t[0].price;
      assert LevelAt(t, r)[0] == t[0];
      assert LevelAt(s, r) == LevelAt(t, r);
      var i := LevelMember(s, r, 0);
      var j := LevelMember(t, p, 0);
      assert i == 0 || !Better(side, s[i].price, s[0].price);
      assert j == 0 || !Better(side, t[j].price, t[0].price);
    }
  }
}
