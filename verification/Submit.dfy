// Submitting a limit order under a time-in-force policy.
module Submit {
  import opened Types
  import opened PriceTime
  import opened AbstractBook
  import opened Matching

  // Whether the best opposite price is acceptable.
  ghost predicate WouldCross(b: Book, side: Side, price: Price) {
    var best := BestOf(b.On(Opposite(side)));
    best.Some? && LimitAllows(side, best.value, price)
  }

  ghost function SubmitEffect(b: Book, o: Order, policy: LimitOrderPolicy): Effect<SubmitLimitOrderOutcome> {
    if o.qty == 0 then Effect(b, Err(ZeroQty))
    else if Live(b, o.id) then Effect(b, Err(DuplicateOrderId(o.id)))
    else
      var m := MatchOf(b, o.side, o.qty, o.price);
      var taken := TakeEffect(b, o.side, o.qty, o.price).book;
      match policy
      case Gtc =>
        if m.unfilledQty > 0 then
          var rested := o.(qty := m.unfilledQty);
          Effect(Added(taken, rested), Ok(SubmitLimitOrderOutcome(policy, None, m, Some(rested))))
        else
          Effect(taken, Ok(SubmitLimitOrderOutcome(policy, None, m, None)))
      case Ioc =>
        Effect(taken, Ok(SubmitLimitOrderOutcome(policy, None, m, None)))
      case Fok =>
        if m.unfilledQty > 0 then
          Effect(b, Ok(SubmitLimitOrderOutcome(policy, Some(FillOrKillWouldNotFill), m, None)))
        else
          Effect(taken, Ok(SubmitLimitOrderOutcome(policy, None, m, None)))
      case PostOnly =>
        if WouldCross(b, o.side, o.price) then
          Effect(b, Ok(SubmitLimitOrderOutcome(policy, Some(PostOnlyWouldCross), m, None)))
        else
          Effect(Added(b, o), Ok(SubmitLimitOrderOutcome(policy, None, m, Some(o))))
  }

  // t is s without its first d orders, up to quantities.
  ghost predicate IsSuffix(t: seq<Order>, s: seq<Order>, d: nat) {
    && d <= |s| && |t| == |s| - d
    && Positive(t)
    && forall i :: 0 <= i < |t| ==> t[i] == s[d + i].(qty := t[i].qty)
  }

  // What a walk leaves is a suffix of the side, with the first quantity reduced.
  lemma {:induction false} ConsumeIsSuffix(s: seq<Order>, q: nat) returns (d: nat)
    requires Positive(s)
    ensures IsSuffix(Consume(s, q), s, d)
  {
    if q == 0 || s == [] {
      d := 0;
    } else if s[0].qty <= q {
      var e := ConsumeIsSuffix(s[1..], q - s[0].qty);
      d := e + 1;
      ConsumeStep(s, q);
      hide Consume;
      SuffixOfTail(Consume(s, q), s, e);
    } else {
      d := 0;
      ConsumeStep(s, q);
      hide Consume;
    }
  }

  lemma SuffixOfTail(t: seq<Order>, s: seq<Order>, d: nat)
    requires s != [] && IsSuffix(t, s[1..], d)
    ensures IsSuffix(t, s, d + 1)
  {
  }

  lemma ConsumedSide(side: Side, s: seq<Order>, q: nat)
    requires SideWellFormed(side, s)
    ensures SideWellFormed(side, Consume(s, q))
  {
    var d := ConsumeIsSuffix(s, q);
    hide Consume;
    var t := Consume(s, q);
    forall i, j | 0 <= i < j < |t|
      ensures !Better(side, t[j].price, t[i].price) && t[i].id != t[j].id
    {
      assert !Better(side, s[d + j].price, s[d + i].price) && s[d + i].id != s[d + j].id;
    }
  }

  lemma TakeWellFormed(b: Book, taker: Side, qty: Qty, limit: Price)
    requires WellFormed(b)
    ensures WellFormed(TakeEffect(b, taker, qty, limit).book)
    ensures forall id :: Live(TakeEffect(b, taker, qty, limit).book, id) ==> Live(b, id)
  {
    if qty > 0 {
      var s := b.On(Opposite(taker));
      var f := MatchOf(b, taker, qty, limit).filledQty;
      ConsumedSide(Opposite(taker), s, f);
      var d := ConsumeIsSuffix(s, f);
      hide Consume, WalkOrders, SideWellFormed;
      var t := Consume(s, f);
      var b1 := b.With(Opposite(taker), t);
      assert TakeEffect(b, taker, qty, limit).book == b1;
      assert forall i :: 0 <= i < |t| ==> t[i].id == s[d + i].id;
      assert Apart(b1.bids, b1.asks);
      forall id | Live(b1, id)
        ensures Live(b, id)
      {
      }
    }
  }

  lemma SubmitWellFormed(b: Book, o: Order, policy: LimitOrderPolicy)
    requires WellFormed(b)
    ensures WellFormed(SubmitEffect(b, o, policy).book)
  {
    hide WellFormed, WalkOrders, Consume;
    if o.qty > 0 && !Live(b, o.id) {
      TakeWellFormed(b, o.side, o.qty, o.price);
      var m := MatchOf(b, o.side, o.qty, o.price);
      if policy == Gtc && m.unfilledQty > 0 {
        AddedWellFormed(TakeEffect(b, o.side, o.qty, o.price).book, o.(qty := m.unfilledQty));
      }
      if policy == PostOnly {
        AddedWellFormed(b, o);
      }
    }
  }

  // Applying fills one by one

  lemma AfterNone(b: Book, side: Side, fills: seq<FillDelta>)
    requires |fills| <= |b.On(side)|
    ensures b.With(side, AfterFills(b.On(side), fills, 0)) == b
  {
    assert b.On(side)[0..] == b.On(side);
  }

  // When a fill is applied its maker is the first order of the side, so removing
  // it or shrinking it succeeds and is exactly the next step.
  lemma FillMeetsFront(b: Book, taker: Side, qty: Qty, limit: Price, i: nat)
    requires WellFormed(b)
    requires var fills := MatchOf(b, taker, qty, limit).fills;
             |fills| <= |b.On(Opposite(taker))| && i < |fills|
    ensures var side := Opposite(taker);
            var s := b.On(side);
            var fills := MatchOf(b, taker, qty, limit).fills;
            var now := b.With(side, AfterFills(s, fills, i));
            var next := b.With(side, AfterFills(s, fills, i + 1));
            var fill := fills[i];
            && (fill.makerRemoved ==> RemoveEffect(now, fill.makerOrderId) == Effect(next, Ok(s[i])))
            && (!fill.makerRemoved ==> UpdateEffect(now, fill.makerOrderId, fill.makerQtyAfter) == Effect(next, Ok(())))
  {
    hide WalkOrders, Consume;
    var side := Opposite(taker);
    var s := b.On(side);
    var fills := MatchOf(b, taker, qty, limit).fills;
    WellFormedSide(b, side);
    FillIsOf(taker, s, qty, limit, i);
    if i > 0 {
      OnlyLastPartial(taker, s, qty, limit, i - 1);
    }
    var now := b.With(side, s[i..]);
    assert AfterFills(s, fills, i) == s[i..];
    SuffixFront(b, side, i);
    assert s[i..][1..] == s[i + 1..];
    if fills[i].makerRemoved {
      assert RemoveAt(s[i..], 0) == s[i + 1..];
    } else {
      assert ResizeAt(s[i..], 0, fills[i].makerQtyAfter) == [s[i].(qty := fills[i].makerQtyAfter)] + s[i + 1..];
    }
  }

  // Dropping a prefix keeps the book well-formed; its first order is then at index 0.
  lemma SuffixFront(b: Book, side: Side, i: nat)
    requires WellFormed(b) && i < |b.On(side)|
    ensures var now := b.With(side, b.On(side)[i..]);
            var id := b.On(side)[i].id;
            Live(now, id) && SideOf(now, id) == side && IndexOf(now, id) == 0 && Find(now, id) == b.On(side)[i]
  {
    var now := b.With(side, b.On(side)[i..]);
    assert now.On(side)[0] == b.On(side)[i];
    assert SideWellFormed(side, now.On(side));
    FindIs(now, side, 0);
  }

  // A fill takes something from its own maker, all of it or not.
  lemma {:induction false} FillIsOf(taker: Side, s: seq<Order>, qty: Qty, limit: Price, i: nat)
    requires Positive(s)
    requires i < |WalkOrders(taker, s, qty, limit).fills|
    ensures i < |s|
    ensures var fill := WalkOrders(taker, s, qty, limit).fills[i];
            0 < fill.filledQty <= s[i].qty && fill == Fill(s[i], fill.filledQty)
    decreases |s|
  {
    if i > 0 {
      FillIsOf(taker, s[1..], qty - Min(qty, s[0].qty), limit, i - 1);
    }
  }

  // Crossing

  ghost predicate Uncrossed(b: Book) {
    forall i, j :: 0 <= i < |b.bids| && 0 <= j < |b.asks| ==> b.bids[i].price < b.asks[j].price
  }

  // A price that no order of the side would trade with.
  ghost predicate Clear(side: Side, price: Price, opposite: seq<Order>) {
    forall i :: 0 <= i < |opposite| ==> !LimitAllows(side, opposite[i].price, price)
  }

  // A taker left with something has cleared every acceptable order away.
  lemma {:induction false} RemainderClears(taker: Side, s: seq<Order>, qty: Qty, limit: Price)
    requires Sorted(Opposite(taker), s) && Positive(s)
    requires WalkOrders(taker, s, qty, limit).unfilled > 0
    ensures Clear(taker, limit, Consume(s, Filled(taker, s, qty, limit)))
  {
    if s == [] {
    } else if !LimitAllows(taker, s[0].price, limit) {
      assert forall i :: 0 < i < |s| ==> !Better(Opposite(taker), s[i].price, s[0].price);
    } else {
      assert s[0].qty <= qty;
      RemainderClears(taker, s[1..], qty - s[0].qty, limit);
    }
  }

  lemma NotCrossingClears(b: Book, side: Side, price: Price)
    requires Sorted(Opposite(side), b.On(Opposite(side)))
    ensures WouldCross(b, side, price) <==> !Clear(side, price, b.On(Opposite(side)))
  {
    var s := b.On(Opposite(side));
    assert forall i :: 0 < i < |s| ==> !Better(Opposite(side), s[i].price, s[0].price);
  }

  // From any book, an order that comes to rest does not cross the other side.
  lemma RestedDoesNotCross(b: Book, o: Order, policy: LimitOrderPolicy)
    requires WellFormed(b)
    ensures var e := SubmitEffect(b, o, policy);
            e.result.Ok? && e.result.value.restedOrder.Some? ==>
              Clear(o.side, o.price, e.book.On(Opposite(o.side)))
  {
    hide WalkOrders, Consume, Clear;
    if o.qty > 0 && !Live(b, o.id) {
      WellFormedSide(b, Opposite(o.side));
      NotCrossingClears(b, o.side, o.price);
      if MatchOf(b, o.side, o.qty, o.price).unfilledQty > 0 {
        RemainderClears(o.side, b.On(Opposite(o.side)), o.qty, o.price);
      }
    }
  }

  lemma AddedUncrossed(b: Book, o: Order)
    requires Uncrossed(b) && Clear(o.side, o.price, b.On(Opposite(o.side)))
    ensures Uncrossed(Added(b, o))
  {
    InsertElements(o.side, b.On(o.side), o);
  }

  lemma TakenUncrossed(b: Book, taker: Side, q: nat)
    requires WellFormed(b) && Uncrossed(b)
    ensures Uncrossed(b.With(Opposite(taker), Consume(b.On(Opposite(taker)), q)))
  {
    var d := ConsumeIsSuffix(b.On(Opposite(taker)), q);
  }

  // No policy ever crosses an uncrossed book.
  lemma SubmitNeverCrosses(b: Book, o: Order, policy: LimitOrderPolicy)
    requires WellFormed(b) && Uncrossed(b)
    ensures Uncrossed(SubmitEffect(b, o, policy).book)
  {
    hide WalkOrders, Consume, Clear, Uncrossed, WellFormed, Insert;
    RestedDoesNotCross(b, o, policy);
    if o.qty > 0 && !Live(b, o.id) {
      var m := MatchOf(b, o.side, o.qty, o.price);
      var taken := TakeEffect(b, o.side, o.qty, o.price).book;
      TakenUncrossed(b, o.side, m.filledQty);
      if policy == Gtc && m.unfilledQty > 0 {
        AddedUncrossed(taken, o.(qty := m.unfilledQty));
      }
      if policy == PostOnly && !WouldCross(b, o.side, o.price) {
        AddedUncrossed(b, o);
      }
    }
  }

  // The policies, exactly

  lemma FillOrKill(b: Book, o: Order)
    requires WellFormed(b) && o.qty > 0 && !Live(b, o.id)
    ensures var e := SubmitEffect(b, o, Fok);
            && e.result.Ok?
            && (e.result.value.rejected.None? <==> Liquidity(o.side, b.On(Opposite(o.side)), o.price) >= o.qty)
            && (e.result.value.rejected.None? ==> e.result.value.takerMatch.filledQty == o.qty)
  {
    hide WalkOrders, Consume;
    WellFormedSide(b, Opposite(o.side));
    FilledIsLiquidity(o.side, b.On(Opposite(o.side)), o.qty, o.price);
  }

  lemma PostOnlyRejects(b: Book, o: Order)
    requires WellFormed(b) && o.qty > 0 && !Live(b, o.id)
    ensures var e := SubmitEffect(b, o, PostOnly);
            && e.result.Ok?
            && (e.result.value.rejected.Some? <==> MatchOf(b, o.side, o.qty, o.price).fills != [])
            && (e.result.value.rejected.Some? <==> Liquidity(o.side, b.On(Opposite(o.side)), o.price) > 0)
  {
    WellFormedSide(b, Opposite(o.side));
    FilledIsLiquidity(o.side, b.On(Opposite(o.side)), o.qty, o.price);
    FillsAddUp(o.side, b.On(Opposite(o.side)), o.qty, o.price);
  }

  // A rejection changes nothing, and what rests is what was not filled.
  lemma RejectedOrRested(b: Book, o: Order, policy: LimitOrderPolicy)
    requires WellFormed(b)
    ensures var e := SubmitEffect(b, o, policy);
            && (e.result.Err? <==> o.qty == 0 || Live(b, o.id))
            && (e.result.Err? || e.result.value.rejected.Some? ==> e.book == b)
            && (e.result.Ok? && e.result.value.restedOrder.Some? ==>
                  var rested := e.result.value.restedOrder.value;
                  && rested == o.(qty := o.qty - e.result.value.takerMatch.filledQty)
                  && rested.qty > 0)
            && (e.result.Ok? && policy == Gtc ==>
                  (e.result.value.restedOrder.Some? <==> e.result.value.takerMatch.filledQty < o.qty))
  {
    if o.qty > 0 && !Live(b, o.id) && policy == PostOnly {
      PostOnlyRejects(b, o);
      FillsAddUp(o.side, b.On(Opposite(o.side)), o.qty, o.price);
    }
  }
}
