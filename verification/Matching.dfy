// Price-time matching of a hypothetical taker order against one side: the walk,
// what it fills, what it costs, and what it leaves.
module Matching {
  import opened Types
  import opened PriceTime
  import opened AbstractBook

  function Min(x: nat, y: nat): nat {
    if x < y then x else y
  }

  function Max(x: nat, y: nat): nat {
    if x < y then y else x
  }

  // The notional of q units at one price.
  function Times(p: Price, q: Qty): nat {
    p * q
  }

  lemma TimesSplit(p: Price, a: Qty, b: Qty)
    requires a + b <= MAX_U64
    ensures Times(p, a + b) == Times(p, a) + Times(p, b)
  {
  }

  // Whether a taker with this limit accepts a resting price.
  predicate LimitAllows(taker: Side, resting: Price, limit: Price) {
    if taker.Bid? then resting <= limit else resting >= limit
  }

  function Fill(maker: Order, q: Qty): FillDelta
    requires q <= maker.qty
  {
    FillDelta(maker.id, maker.wallet, maker.side, maker.price, q, maker.qty, maker.qty - q, q == maker.qty)
  }

  datatype Walk = Walk(fills: seq<FillDelta>, unfilled: Qty, notional: nat, stopped: bool)

  // Walk a side order by order, best first, until the quantity is filled, the
  // limit stops the walk, or the side is used up.
  ghost function WalkOrders(taker: Side, s: seq<Order>, qty: Qty, limit: Price): (w: Walk)
    ensures w.unfilled <= qty
  {
    if qty == 0 || s == [] then Walk([], qty, 0, false)
    else if !LimitAllows(taker, s[0].price, limit) then Walk([], qty, 0, true)
    else
      var take := Min(qty, s[0].qty);
      var rest := WalkOrders(taker, s[1..], qty - take, limit);
      Walk([Fill(s[0], take)] + rest.fills, rest.unfilled, Times(s[0].price, take) + rest.notional, rest.stopped)
  }

  ghost function Filled(taker: Side, s: seq<Order>, qty: Qty, limit: Price): Qty {
    qty - WalkOrders(taker, s, qty, limit).unfilled
  }

  // One step of a walk that fills something.
  lemma WalkStep(taker: Side, s: seq<Order>, qty: Qty, limit: Price)
    requires qty > 0 && s != [] && LimitAllows(taker, s[0].price, limit)
    ensures var take := Min(qty, s[0].qty);
            var rest := WalkOrders(taker, s[1..], qty - take, limit);
            var w := WalkOrders(taker, s, qty, limit);
            && |w.fills| == 1 + |rest.fills| && w.fills[0] == Fill(s[0], take) && w.fills[1..] == rest.fills
            && w.unfilled == rest.unfilled && w.stopped == rest.stopped
            && w.notional == Times(s[0].price, take) + rest.notional
  {
  }

  lemma WalkStops(taker: Side, s: seq<Order>, qty: Qty, limit: Price)
    requires qty == 0 || s == [] || !LimitAllows(taker, s[0].price, limit)
    ensures var w := WalkOrders(taker, s, qty, limit);
            w.fills == [] && w.unfilled == qty && w.notional == 0
  {
  }

  lemma WalkNothing(taker: Side, s: seq<Order>, limit: Price)
    ensures WalkOrders(taker, s, 0, limit) == Walk([], 0, 0, false)
  {
  }

  // The side with the first q units taken off the front.
  ghost function Consume(s: seq<Order>, q: nat): seq<Order> {
    if q == 0 || s == [] then s
    else if s[0].qty <= q then Consume(s[1..], q - s[0].qty)
    else [s[0].(qty := s[0].qty - q)] + s[1..]
  }

  ghost function BestOf(s: seq<Order>): Option<Price> {
    if s == [] then None else Some(s[0].price)
  }

  // Some order has that price, and none has a better one.
  lemma BestOfIsBest(side: Side, s: seq<Order>)
    requires Sorted(side, s)
    ensures var best := BestOf(s);
            && (best.None? <==> s == [])
            && (best.Some? ==> exists i :: 0 <= i < |s| && s[i].price == best.value)
            && forall i :: 0 <= i < |s| ==> !Better(side, s[i].price, best.value)
  {
    if s != [] {
      assert s[0].price == BestOf(s).value;
    }
  }

  // The notional of any walk fits u128.
  lemma {:induction false} NotionalFits(taker: Side, s: seq<Order>, qty: Qty, limit: Price)
    ensures var w := WalkOrders(taker, s, qty, limit);
            w.notional <= MAX_U64 * (qty - w.unfilled) <= MAX_U128
  {
    var w := WalkOrders(taker, s, qty, limit);
    MulLe(qty - w.unfilled, MAX_U64, MAX_U64);
    if qty > 0 && s != [] && LimitAllows(taker, s[0].price, limit) {
      var take := Min(qty, s[0].qty);
      var rest := WalkOrders(taker, s[1..], qty - take, limit);
      NotionalFits(taker, s[1..], qty - take, limit);
      MulLe(s[0].price, MAX_U64, take);
      assert MAX_U64 * take + MAX_U64 * (qty - take - rest.unfilled) == MAX_U64 * (qty - w.unfilled);
    }
  }

  ghost function MatchOf(b: Book, taker: Side, qty: Qty, limit: Price): TakerMatch {
    var s := b.On(Opposite(taker));
    var w := WalkOrders(taker, s, qty, limit);
    NotionalFits(taker, s, qty, limit);
    TakerMatch(taker, qty, qty - w.unfilled, w.unfilled, w.notional, limit, BestOf(s), w.fills, w.stopped,
               w.unfilled > 0 && !w.stopped)
  }

  ghost function TakeEffect(b: Book, taker: Side, qty: Qty, limit: Price): Effect<TakerMatch> {
    if qty == 0 then Effect(b, Err(ZeroQty))
    else
      var m := MatchOf(b, taker, qty, limit);
      var s := b.On(Opposite(taker));
      Effect(b.With(Opposite(taker), Consume(s, m.filledQty)), Ok(m))
  }

  // What is filled: exactly the acceptable liquidity, up to the quantity asked.

  ghost function Liquidity(taker: Side, s: seq<Order>, limit: Price): nat {
    if s == [] then 0
    else (if LimitAllows(taker, s[0].price, limit) then s[0].qty else 0) + Liquidity(taker, s[1..], limit)
  }

  lemma {:induction false} NoLiquidityBehind(taker: Side, s: seq<Order>, limit: Price)
    requires forall i :: 0 <= i < |s| ==> !LimitAllows(taker, s[i].price, limit)
    ensures Liquidity(taker, s, limit) == 0
  {
    if s != [] {
      NoLiquidityBehind(taker, s[1..], limit);
    }
  }

  lemma {:induction false} FilledIsLiquidity(taker: Side, s: seq<Order>, qty: Qty, limit: Price)
    requires Sorted(Opposite(taker), s)
    ensures Filled(taker, s, qty, limit) == Min(qty, Liquidity(taker, s, limit))
  {
    if qty == 0 || s == [] {
    } else if !LimitAllows(taker, s[0].price, limit) {
      assert forall i :: 0 < i < |s| ==> !Better(Opposite(taker), s[i].price, s[0].price);
      NoLiquidityBehind(taker, s, limit);
    } else {
      FilledIsLiquidity(taker, s[1..], qty - Min(qty, s[0].qty), limit);
    }
  }

  // The two flags name why the walk fell short.
  lemma {:induction false} StopReason(taker: Side, s: seq<Order>, qty: Qty, limit: Price)
    requires Sorted(Opposite(taker), s) && Positive(s)
    ensures var w := WalkOrders(taker, s, qty, limit);
            var blocked := exists i :: 0 <= i < |s| && !LimitAllows(taker, s[i].price, limit);
            && (w.stopped <==> (qty > Liquidity(taker, s, limit) && blocked))
            && ((w.unfilled > 0 && !w.stopped) <==> (qty > Total(s) && !blocked))
  {
    if s == [] {
    } else if !LimitAllows(taker, s[0].price, limit) {
      assert forall i :: 0 < i < |s| ==> !Better(Opposite(taker), s[i].price, s[0].price);
      NoLiquidityBehind(taker, s, limit);
    } else {
      var t := s[1..];
      if qty == 0 {
      } else {
        StopReason(taker, t, qty - Min(qty, s[0].qty), limit);
        assert (exists i :: 0 <= i < |t| && !LimitAllows(taker, t[i].price, limit)) <==>
               (exists i :: 0 <= i < |s| && !LimitAllows(taker, s[i].price, limit)) by {
          assert forall i :: 0 <= i < |t| ==> t[i] == s[i + 1];
          assert forall i :: 0 < i < |s| ==> s[i] == t[i - 1];
        }
        if qty < s[0].qty {
          LiquidityAtMostTotal(taker, t, limit);
        }
      }
    }
  }

  lemma {:induction false} LiquidityAtMostTotal(taker: Side, s: seq<Order>, limit: Price)
    ensures Liquidity(taker, s, limit) <= Total(s)
  {
    if s != [] {
      LiquidityAtMostTotal(taker, s[1..], limit);
    }
  }

  // Who is filled: an order receives what its place in the queue leaves for it.

  ghost function Share(s: seq<Order>, i: nat, qty: Qty): Qty
    requires i < |s|
  {
    if qty <= Total(s[..i]) then 0 else Min(s[i].qty, qty - Total(s[..i]))
  }

  // Behind the first order, shares are those of what the first order leaves.
  lemma ShareStep(s: seq<Order>, i: nat, qty: Qty)
    requires 0 < i < |s|
    ensures Share(s, i, qty) == Share(s[1..], i - 1, qty - Min(qty, s[0].qty))
  {
    assert s[..i][1..] == s[1..][..i - 1];
  }

  ghost predicate FilledByShare(taker: Side, s: seq<Order>, qty: Qty, limit: Price, i: nat)
    requires i < |s|
  {
    var w := WalkOrders(taker, s, qty, limit);
    && |w.fills| <= |s|
    && (i < |w.fills| <==> LimitAllows(taker, s[i].price, limit) && Share(s, i, qty) > 0)
    && (i < |w.fills| ==> w.fills[i] == Fill(s[i], Share(s, i, qty)))
  }

  lemma {:induction false} FillsAreShares(taker: Side, s: seq<Order>, qty: Qty, limit: Price, i: nat)
    requires Sorted(Opposite(taker), s) && Positive(s) && i < |s|
    ensures FilledByShare(taker, s, qty, limit, i)
  {
    if i > 0 {
      assert !Better(Opposite(taker), s[i].price, s[0].price);
      ShareStep(s, i, qty);
    }
    if qty > 0 && LimitAllows(taker, s[0].price, limit) {
      hide WalkOrders, Share;
      WalkStep(taker, s, qty, limit);
      if i > 0 {
        FillsAreShares(taker, s[1..], qty - Min(qty, s[0].qty), limit, i - 1);
      } else {
        FirstShare(s, qty);
        FewerFills(taker, s[1..], qty - Min(qty, s[0].qty), limit);
      }
    }
  }

  lemma FirstShare(s: seq<Order>, qty: Qty)
    requires s != []
    ensures Share(s, 0, qty) == Min(qty, s[0].qty)
  {
  }

  lemma {:induction false} FewerFills(taker: Side, s: seq<Order>, qty: Qty, limit: Price)
    ensures |WalkOrders(taker, s, qty, limit).fills| <= |s|
  {
    if qty > 0 && s != [] && LimitAllows(taker, s[0].price, limit) {
      FewerFills(taker, s[1..], qty - Min(qty, s[0].qty), limit);
    }
  }

  // The whole walk's fills, quantity by quantity.
  ghost function SumFilled(fills: seq<FillDelta>): nat {
    if fills == [] then 0 else fills[0].filledQty + SumFilled(fills[1..])
  }

  ghost function SumNotional(fills: seq<FillDelta>): nat {
    if fills == [] then 0 else fills[0].price * fills[0].filledQty + SumNotional(fills[1..])
  }

  lemma {:induction false} FillsAddUp(taker: Side, s: seq<Order>, qty: Qty, limit: Price)
    ensures var w := WalkOrders(taker, s, qty, limit);
            SumFilled(w.fills) == qty - w.unfilled && SumNotional(w.fills) == w.notional
  {
    if qty > 0 && s != [] && LimitAllows(taker, s[0].price, limit) {
      FillsAddUp(taker, s[1..], qty - Min(qty, s[0].qty), limit);
    }
  }

  // Every fill but the last takes its maker out of the book.
  lemma {:induction false} OnlyLastPartial(taker: Side, s: seq<Order>, qty: Qty, limit: Price, i: nat)
    requires Positive(s)
    ensures var w := WalkOrders(taker, s, qty, limit);
            && |w.fills| <= |s|
            && (i < |w.fills| ==> w.fills[i].filledQty > 0 && w.fills[i].makerOrderId == s[i].id)
            && (i + 1 < |w.fills| ==> w.fills[i].makerRemoved)
    decreases |s|
  {
    if qty > 0 && s != [] && LimitAllows(taker, s[0].price, limit) {
      OnlyLastPartial(taker, s[1..], qty - Min(qty, s[0].qty), limit, if i == 0 then 0 else i - 1);
    }
  }

  // The side after the first k fills.
  ghost function AfterFills(s: seq<Order>, fills: seq<FillDelta>, k: nat): seq<Order>
    requires k <= |fills| <= |s|
  {
    if k > 0 && !fills[k - 1].makerRemoved then
      [s[k - 1].(qty := fills[k - 1].makerQtyAfter)] + s[k..]
    else
      s[k..]
  }

  // Applying all fills consumes exactly the filled quantity from the front.
  lemma {:induction false} FillsConsume(taker: Side, s: seq<Order>, qty: Qty, limit: Price)
    requires Positive(s)
    ensures var w := WalkOrders(taker, s, qty, limit);
            && |w.fills| <= |s|
            && AfterFills(s, w.fills, |w.fills|) == Consume(s, qty - w.unfilled)
  {
    hide WalkOrders, Consume, AfterFills;
    var w := WalkOrders(taker, s, qty, limit);
    if qty > 0 && s != [] && LimitAllows(taker, s[0].price, limit) {
      WalkStep(taker, s, qty, limit);
      ConsumeStep(s, qty - w.unfilled);
      if qty < s[0].qty {
        WalkNothing(taker, s[1..], limit);
        AfterOnePartial(s, w.fills);
      } else {
        FillsConsume(taker, s[1..], qty - s[0].qty, limit);
        AfterFillsTail(s, w.fills);
      }
    } else {
      WalkStops(taker, s, qty, limit);
      AfterNoFills(s);
    }
  }

  lemma AfterNoFills(s: seq<Order>)
    ensures AfterFills(s, [], 0) == s == Consume(s, 0)
  {
  }

  lemma AfterOnePartial(s: seq<Order>, fills: seq<FillDelta>)
    requires |fills| == 1 <= |s| && !fills[0].makerRemoved
    ensures AfterFills(s, fills, 1) == [s[0].(qty := fills[0].makerQtyAfter)] + s[1..]
  {
  }

  lemma AfterFillsTail(s: seq<Order>, fills: seq<FillDelta>)
    requires 0 < |fills| <= |s| && fills[0].makerRemoved
    ensures AfterFills(s, fills, |fills|) == AfterFills(s[1..], fills[1..], |fills| - 1)
  {
    var n := |fills|;
    assert s[1..][n - 1..] == s[n..];
    if n > 1 {
      assert fills[1..][n - 2] == fills[n - 1] && s[1..][n - 2] == s[n - 1];
    }
  }

  // Conservation: what rests before is what rests after plus what was filled.
  lemma {:induction false} ConsumeConserves(s: seq<Order>, q: nat)
    requires q <= Total(s)
    ensures Total(Consume(s, q)) + q == Total(s)
  {
    if q > 0 && s != [] {
      if s[0].qty <= q {
        ConsumeConserves(s[1..], q - s[0].qty);
      } else {
        var t := Consume(s, q);
        assert t[1..] == s[1..];
      }
    }
  }

  lemma {:induction false} FilledAtMostTotal(taker: Side, s: seq<Order>, qty: Qty, limit: Price)
    ensures Filled(taker, s, qty, limit) <= Total(s)
  {
    if qty > 0 && s != [] && LimitAllows(taker, s[0].price, limit) {
      FilledAtMostTotal(taker, s[1..], qty - Min(qty, s[0].qty), limit);
    }
  }

  // Applying a positive order never fails; the other side is untouched, and the
  // resting quantity before is that after plus what was filled.
  lemma TakeConserves(b: Book, taker: Side, qty: Qty, limit: Price)
    requires WellFormed(b)
    ensures var e := TakeEffect(b, taker, qty, limit);
            && (e.result.Ok? <==> qty > 0)
            && (e.result.Err? ==> e.book == b)
            && e.book.On(taker) == b.On(taker)
            && Total(b.On(Opposite(taker))) ==
               Total(e.book.On(Opposite(taker))) + if e.result.Ok? then e.result.value.filledQty else 0
  {
    hide WalkOrders, Consume, WellFormed;
    var s := b.On(Opposite(taker));
    FilledAtMostTotal(taker, s, qty, limit);
    ConsumeConserves(s, Filled(taker, s, qty, limit));
  }

  // Splitting: taking q1 and then q2 is taking q1 + q2.
  ghost predicate Splits(taker: Side, s: seq<Order>, q1: Qty, q2: Qty, limit: Price)
    requires q1 + q2 <= MAX_U64
  {
    var w1 := WalkOrders(taker, s, q1, limit);
    var s1 := Consume(s, q1 - w1.unfilled);
    var w2 := WalkOrders(taker, s1, q2, limit);
    var w := WalkOrders(taker, s, q1 + q2, limit);
    && q1 + q2 - w.unfilled == (q1 - w1.unfilled) + (q2 - w2.unfilled)
    && w.notional == w1.notional + w2.notional
    && w.stopped == w2.stopped
    && (w.unfilled > 0 <==> w2.unfilled > 0)
    && Consume(s, q1 + q2 - w.unfilled) == Consume(s1, q2 - w2.unfilled)
  }

  lemma ConsumeStep(s: seq<Order>, q: nat)
    requires Positive(s) && s != []
    ensures q >= s[0].qty ==> Consume(s, q) == Consume(s[1..], q - s[0].qty)
    ensures q < s[0].qty ==> Consume(s, q) == [s[0].(qty := s[0].qty - q)] + s[1..]
  {
    if q == 0 {
      assert s == [s[0]] + s[1..];
    }
  }

  // The first part ends inside the first order.
  lemma SplitsWithin(taker: Side, s: seq<Order>, q1: Qty, q2: Qty, limit: Price)
    requires Positive(s) && s != [] && LimitAllows(taker, s[0].price, limit)
    requires q1 + q2 <= MAX_U64 && q2 > 0 && 0 < q1 < s[0].qty
    ensures Splits(taker, s, q1, q2, limit)
  {
    hide WalkOrders, Consume, Times;
    var p, left := s[0].price, s[0].qty - q1;
    WalkStep(taker, s, q1, limit);
    WalkNothing(taker, s[1..], limit);
    ConsumeStep(s, q1);
    var s1 := Consume(s, q1);
    assert s1[0] == s[0].(qty := left) && s1[1..] == s[1..];
    WalkStep(taker, s1, q2, limit);
    WalkStep(taker, s, q1 + q2, limit);
    var take := Min(q2, left);
    TimesSplit(p, q1, take);
    var w2 := WalkOrders(taker, s1, q2, limit);
    ConsumeStep(s, q1 + (q2 - w2.unfilled));
    ConsumeStep(s1, q2 - w2.unfilled);
  }

  // The first part covers the first order.
  lemma SplitsBeyond(taker: Side, s: seq<Order>, q1: Qty, q2: Qty, limit: Price)
    requires Positive(s) && s != [] && LimitAllows(taker, s[0].price, limit)
    requires q1 + q2 <= MAX_U64 && q2 > 0 && s[0].qty <= q1
    requires Splits(taker, s[1..], q1 - s[0].qty, q2, limit)
    ensures Splits(taker, s, q1, q2, limit)
  {
    hide WalkOrders, Consume, Times;
    WalkStep(taker, s, q1, limit);
    WalkStep(taker, s, q1 + q2, limit);
    var w1 := WalkOrders(taker, s, q1, limit);
    var w := WalkOrders(taker, s, q1 + q2, limit);
    ConsumeStep(s, q1 - w1.unfilled);
    ConsumeStep(s, q1 + q2 - w.unfilled);
  }

  lemma {:induction false} WalkSplits(taker: Side, s: seq<Order>, q1: Qty, q2: Qty, limit: Price)
    requires Positive(s) && q1 + q2 <= MAX_U64 && q2 > 0
    ensures Splits(taker, s, q1, q2, limit)
  {
    if q1 == 0 || s == [] || !LimitAllows(taker, s[0].price, limit) {
    } else if s[0].qty <= q1 {
      WalkSplits(taker, s[1..], q1 - s[0].qty, q2, limit);
      SplitsBeyond(taker, s, q1, q2, limit);
    } else {
      SplitsWithin(taker, s, q1, q2, limit);
    }
  }

  // The book-level statement: two applications leave the book of one.
  lemma TakeSplits(b: Book, taker: Side, q1: Qty, q2: Qty, limit: Price)
    requires WellFormed(b) && q1 > 0 && q2 > 0 && q1 + q2 <= MAX_U64
    ensures var first := TakeEffect(b, taker, q1, limit);
            var second := TakeEffect(first.book, taker, q2, limit);
            var both := TakeEffect(b, taker, q1 + q2, limit);
            && first.result.Ok? && second.result.Ok? && both.result.Ok?
            && second.book == both.book
            && var m1, m2, m := first.result.value, second.result.value, both.result.value;
               && m.filledQty == m1.filledQty + m2.filledQty
               && m.filledNotional == m1.filledNotional + m2.filledNotional
               && m.limitStopped == m2.limitStopped
               && m.exhaustedBook == m2.exhaustedBook
  {
    hide WalkOrders, Consume, WellFormed;
    assert Positive(b.On(Opposite(taker))) by {
      WellFormedSide(b, Opposite(taker));
    }
    WalkSplits(taker, b.On(Opposite(taker)), q1, q2, limit);
  }

  // Optimality. Prices as costs: a resting price that is better for the taker
  // weighs less.

  function Signed(side: Side, n: int): int {
    if side.Ask? then n else -n
  }

  function Weight(side: Side, p: Price): int {
    Signed(side, p)
  }

  function Weigh(w: int, n: nat): int {
    w * n
  }

  lemma WeighLess(w: int, v: int, n: nat)
    requires w <= v
    ensures Weigh(w, n) <= Weigh(v, n)
  {
  }

  lemma WeighSplit(w: int, a: nat, b: nat)
    ensures Weigh(w, a + b) == Weigh(w, a) + Weigh(w, b)
  {
  }

  ghost function Sum(x: seq<nat>): nat {
    if x == [] then 0 else x[0] + Sum(x[1..])
  }

  // The weight of a selection: x[i] units of the i-th order.
  ghost function Cost(side: Side, s: seq<Order>, x: seq<nat>): int
    requires |x| == |s|
  {
    if s == [] then 0 else Weigh(Weight(side, s[0].price), x[0]) + Cost(side, s[1..], x[1..])
  }

  ghost predicate Within(s: seq<Order>, x: seq<nat>) {
    |x| == |s| && forall i :: 0 <= i < |s| ==> x[i] <= s[i].qty
  }

  // The weight of the first f units.
  ghost function FrontCost(side: Side, s: seq<Order>, f: nat): int {
    if s == [] then 0
    else
      var take := Min(f, s[0].qty);
      Weigh(Weight(side, s[0].price), take) + FrontCost(side, s[1..], f - take)
  }

  lemma MulLe(w: int, v: int, d: nat)
    requires w <= v
    ensures w * d <= v * d
  {
  }

  // Each further unit from the front weighs at least the lightest price.
  lemma {:induction false} FrontGrows(side: Side, s: seq<Order>, f: nat, d: nat, w: int)
    requires forall i :: 0 <= i < |s| ==> w <= Weight(side, s[i].price)
    requires f + d <= Total(s)
    ensures FrontCost(side, s, f) + Weigh(w, d) <= FrontCost(side, s, f + d)
  {
    hide Weigh, Weight;
    if s != [] {
      var p, here := Weight(side, s[0].price), Min(f, s[0].qty);
      var more := Min(f + d, s[0].qty) - here;
      FrontGrows(side, s[1..], f - here, d - more, w);
      WeighLess(w, p, more);
      WeighSplit(p, here, more);
      WeighSplit(w, more, d - more);
    } else {
      WeighSplit(w, 0, 0);
    }
  }

  lemma {:induction false} SumWithin(s: seq<Order>, x: seq<nat>)
    requires Within(s, x)
    ensures Sum(x) <= Total(s)
  {
    if s != [] {
      SumWithin(s[1..], x[1..]);
    }
  }

  lemma FirstIsLightest(side: Side, s: seq<Order>)
    requires Sorted(side, s) && s != []
    ensures forall i :: 0 <= i < |s[1..]| ==> Weight(side, s[0].price) <= Weight(side, s[1..][i].price)
  {
    forall i | 0 <= i < |s[1..]|
      ensures Weight(side, s[0].price) <= Weight(side, s[1..][i].price)
    {
      assert !Better(side, s[i + 1].price, s[0].price);
    }
  }

  lemma MulSplit(w: int, a: nat, b: nat)
    ensures w * (a + b) == w * a + w * b
  {
  }

  // No selection of as many units weighs less than the front of a sorted side.
  lemma {:induction false} FrontIsLightest(side: Side, s: seq<Order>, x: seq<nat>)
    requires Sorted(side, s) && Within(s, x)
    ensures FrontCost(side, s, Sum(x)) <= Cost(side, s, x)
  {
    if s != [] {
      var p := Weight(side, s[0].price);
      var f := Sum(x);
      var take := Min(f, s[0].qty);
      FrontIsLightest(side, s[1..], x[1..]);
      FirstIsLightest(side, s);
      SumWithin(s[1..], x[1..]);
      hide Weight, Weigh, Sorted;
      FrontGrows(side, s[1..], f - take, take - x[0], p);
      WeighSplit(p, x[0], take - x[0]);
    }
  }

  lemma SignedMul(side: Side, p: Price, n: Qty)
    ensures Weigh(Weight(side, p), n) == Signed(side, Times(p, n))
  {
  }

  // Taking all the first order gives, and then from the rest.
  lemma FrontStep(side: Side, s: seq<Order>, take: Qty, f: nat)
    requires s != [] && take <= s[0].qty && (take < s[0].qty ==> f == 0)
    ensures FrontCost(side, s, take + f) == Signed(side, Times(s[0].price, take)) + FrontCost(side, s[1..], f)
  {
    assert Min(take + f, s[0].qty) == take;
    SignedMul(side, s[0].price, take);
    hide Times, Signed, Weight, Weigh;
  }

  lemma SignedSum(side: Side, m: int, n: int)
    ensures Signed(side, m + n) == Signed(side, m) + Signed(side, n)
  {
  }

  // The notional of a walk is the weight of what it fills, up to sign.
  lemma {:induction false} WalkIsFront(taker: Side, s: seq<Order>, qty: Qty, limit: Price)
    ensures var w := WalkOrders(taker, s, qty, limit);
            FrontCost(Opposite(taker), s, qty - w.unfilled) == Signed(Opposite(taker), w.notional)
  {
    hide WalkOrders, FrontCost, Times, Signed;
    if qty == 0 || s == [] || !LimitAllows(taker, s[0].price, limit) {
      WalkStops(taker, s, qty, limit);
      FrontOfNothing(Opposite(taker), s);
      SignedNothing(Opposite(taker));
    } else {
      WalkStep(taker, s, qty, limit);
      var take := Min(qty, s[0].qty);
      WalkIsFront(taker, s[1..], qty - take, limit);
      var rest := WalkOrders(taker, s[1..], qty - take, limit);
      FrontStep(Opposite(taker), s, take, qty - take - rest.unfilled);
      SignedSum(Opposite(taker), Times(s[0].price, take), rest.notional);
    }
  }

  lemma SignedNothing(side: Side)
    ensures Signed(side, 0) == 0
  {
  }

  lemma {:induction false} FrontOfNothing(side: Side, s: seq<Order>)
    ensures FrontCost(side, s, 0) == 0
  {
    if s != [] {
      FrontOfNothing(side, s[1..]);
    }
  }

  ghost function Notional(s: seq<Order>, x: seq<nat>): nat
    requires |x| == |s|
  {
    if s == [] then 0 else s[0].price * x[0] + Notional(s[1..], x[1..])
  }

  lemma {:induction false} CostIsNotional(side: Side, s: seq<Order>, x: seq<nat>)
    requires |x| == |s|
    ensures Cost(side, s, x) == Signed(side, Notional(s, x))
  {
    if s != [] {
      CostIsNotional(side, s[1..], x[1..]);
      assert Weigh(Weight(side, s[0].price), x[0]) == Signed(side, s[0].price * x[0]);
    }
  }

  // A way to take f units for n among the orders a taker accepts.
  ghost predicate IsSelection(taker: Side, s: seq<Order>, limit: Price, x: seq<nat>, f: nat, n: nat) {
    && Within(s, x)
    && (forall i :: 0 <= i < |s| && x[i] > 0 ==> LimitAllows(taker, s[i].price, limit))
    && Sum(x) == f
    && Notional(s, x) == n
  }

  lemma SelectionCons(taker: Side, s: seq<Order>, limit: Price, take: Qty, y: seq<nat>, f: nat, n: nat)
    requires s != [] && IsSelection(taker, s[1..], limit, y, f, n)
    requires take <= s[0].qty && (take > 0 ==> LimitAllows(taker, s[0].price, limit))
    ensures IsSelection(taker, s, limit, [take] + y, take + f, Times(s[0].price, take) + n)
  {
    var x := [take] + y;
    assert x[1..] == y;
    forall i | 0 <= i < |s|
      ensures x[i] <= s[i].qty && (x[i] > 0 ==> LimitAllows(taker, s[i].price, limit))
    {
      assert i > 0 ==> x[i] == y[i - 1] && s[i] == s[1..][i - 1];
    }
  }

  // The walk is itself such a selection, so the optimum is attained.
  lemma {:induction false} WalkIsSelection(taker: Side, s: seq<Order>, qty: Qty, limit: Price) returns (x: seq<nat>)
    ensures var w := WalkOrders(taker, s, qty, limit);
            IsSelection(taker, s, limit, x, qty - w.unfilled, w.notional)
  {
    hide IsSelection, WalkOrders, Times;
    if qty > 0 && s != [] && LimitAllows(taker, s[0].price, limit) {
      var take := Min(qty, s[0].qty);
      WalkStep(taker, s, qty, limit);
      x := WalkIsSelection(taker, s[1..], qty - take, limit);
      var rest := WalkOrders(taker, s[1..], qty - take, limit);
      SelectionCons(taker, s, limit, take, x, qty - take - rest.unfilled, rest.notional);
      x := [take] + x;
    } else {
      WalkStops(taker, s, qty, limit);
      x := NoSelection(taker, s, limit);
    }
  }

  lemma {:induction false} NoSelection(taker: Side, s: seq<Order>, limit: Price) returns (x: seq<nat>)
    ensures IsSelection(taker, s, limit, x, 0, 0)
  {
    if s == [] {
      x := [];
    } else {
      x := NoSelection(taker, s[1..], limit);
      SelectionCons(taker, s, limit, 0, x, 0, 0);
      x := [0] + x;
    }
  }

  // No selection among acceptable orders takes more than the walk, unless more
  // than the quantity asked.
  lemma {:induction false} SelectionAtMostLiquidity(taker: Side, s: seq<Order>, limit: Price, x: seq<nat>)
    requires Within(s, x)
    requires forall i :: 0 <= i < |s| && x[i] > 0 ==> LimitAllows(taker, s[i].price, limit)
    ensures Sum(x) <= Liquidity(taker, s, limit)
  {
    if s != [] {
      SelectionAtMostLiquidity(taker, s[1..], limit, x[1..]);
    }
  }

  // Greedy matching is optimal: it fills exactly the acceptable liquidity up to the
  // quantity asked, and every other way to take as much from the resting orders
  // pays a buyer no less and brings a seller no more.
  lemma GreedyIsOptimal(taker: Side, s: seq<Order>, qty: Qty, limit: Price, x: seq<nat>)
    requires Sorted(Opposite(taker), s) && Within(s, x)
    requires Sum(x) == Filled(taker, s, qty, limit)
    ensures taker.Bid? ==> WalkOrders(taker, s, qty, limit).notional <= Notional(s, x)
    ensures taker.Ask? ==> WalkOrders(taker, s, qty, limit).notional >= Notional(s, x)
  {
    FrontIsLightest(Opposite(taker), s, x);
    WalkIsFront(taker, s, qty, limit);
    CostIsNotional(Opposite(taker), s, x);
  }

  lemma MatchIsOptimal(b: Book, taker: Side, qty: Qty, limit: Price, x: seq<nat>, f: nat, n: nat)
    requires WellFormed(b) && IsSelection(taker, b.On(Opposite(taker)), limit, x, f, n)
    ensures var m := MatchOf(b, taker, qty, limit);
            && m.filledQty == Min(qty, Liquidity(taker, b.On(Opposite(taker)), limit))
            && (f <= qty ==> f <= m.filledQty)
            && (f == m.filledQty ==> if taker.Bid? then m.filledNotional <= n else m.filledNotional >= n)
  {
    hide WellFormed, WalkOrders;
    var s := b.On(Opposite(taker));
    WellFormedSide(b, Opposite(taker));
    FilledIsLiquidity(taker, s, qty, limit);
    SelectionAtMostLiquidity(taker, s, limit, x);
    if f == Filled(taker, s, qty, limit) {
      GreedyIsOptimal(taker, s, qty, limit, x);
    }
  }

  // n is the notional of f units at prices between lo and hi.
  ghost predicate Between(lo: nat, n: nat, hi: nat, f: nat) {
    lo * f <= n <= hi * f
  }

  lemma BetweenStep(lo: nat, p: Price, hi: nat, a: Qty, b: nat, n: nat)
    requires lo <= p <= hi && Between(lo, n, hi, b)
    ensures Between(lo, Times(p, a) + n, hi, a + b)
  {
    MulLe(lo, p, a);
    MulLe(p, hi, a);
    MulSplit(lo, a, b);
    MulSplit(hi, a, b);
  }

  lemma {:induction false} NotionalBetween(taker: Side, s: seq<Order>, qty: Qty, limit: Price, lo: Price, hi: Price)
    requires forall i :: 0 <= i < |s| && LimitAllows(taker, s[i].price, limit) ==> lo <= s[i].price <= hi
    ensures var w := WalkOrders(taker, s, qty, limit);
            Between(lo, w.notional, hi, qty - w.unfilled)
  {
    hide WalkOrders, Between, Times;
    if qty > 0 && s != [] && LimitAllows(taker, s[0].price, limit) {
      WalkStep(taker, s, qty, limit);
      var take := Min(qty, s[0].qty);
      var rest := WalkOrders(taker, s[1..], qty - take, limit);
      NotionalBetween(taker, s[1..], qty - take, limit, lo, hi);
      BetweenStep(lo, s[0].price, hi, take, qty - take - rest.unfilled, rest.notional);
    } else {
      WalkStops(taker, s, qty, limit);
      BetweenNothing(lo, hi);
    }
  }

  lemma BetweenNothing(lo: nat, hi: nat)
    ensures Between(lo, 0, hi, 0)
  {
  }

  // Per unit filled, a buyer pays between the best price and the limit, and a
  // seller gets between the limit and the best price.
  lemma NotionalBounds(taker: Side, s: seq<Order>, qty: Qty, limit: Price)
    requires Sorted(Opposite(taker), s) && s != []
    ensures var w := WalkOrders(taker, s, qty, limit);
            var best, f := s[0].price, qty - w.unfilled;
            && (taker.Bid? ==> best * f <= w.notional <= limit * f)
            && (taker.Ask? ==> limit * f <= w.notional <= best * f)
  {
    assert forall i :: 0 < i < |s| ==> !Better(Opposite(taker), s[i].price, s[0].price);
    if taker.Bid? {
      NotionalBetween(taker, s, qty, limit, s[0].price, limit);
    } else {
      NotionalBetween(taker, s, qty, limit, limit, s[0].price);
    }
  }

  // A walk continued from what is already filled.
  ghost function Extend(fills: seq<FillDelta>, notional: nat, w: Walk): Walk {
    Walk(fills + w.fills, w.unfilled, notional + w.notional, w.stopped)
  }

  lemma ExtendFromNothing(w: Walk)
    ensures Extend([], 0, w) == w
  {
  }

  lemma ExtendBounds(fills: seq<FillDelta>, notional: nat, w: Walk)
    ensures Extend(fills, notional, w).notional >= notional
  {
  }

  lemma ExtendDone(taker: Side, s: seq<Order>, limit: Price, fills: seq<FillDelta>, notional: nat)
    ensures Extend(fills, notional, WalkOrders(taker, s, 0, limit)) == Walk(fills, 0, notional, false)
  {
    assert fills + [] == fills;
  }

  lemma ExtendStopped(taker: Side, l: seq<Order>, rest: seq<Order>, qty: Qty, limit: Price,
                      fills: seq<FillDelta>, notional: nat)
    requires qty > 0 && l != [] && !LimitAllows(taker, l[0].price, limit)
    ensures Extend(fills, notional, WalkOrders(taker, l + rest, qty, limit)) == Walk(fills, qty, notional, true)
  {
    assert fills + [] == fills;
    assert (l + rest)[0] == l[0];
  }

  // Moving the first fill of a walk over to what is already filled.
  lemma ExtendByOne(fills: seq<FillDelta>, notional: nat, w: Walk, v: Walk, fill: FillDelta, n: nat)
    requires |w.fills| == 1 + |v.fills| && w.fills[0] == fill && w.fills[1..] == v.fills
    requires w.unfilled == v.unfilled && w.stopped == v.stopped && w.notional == n + v.notional
    ensures Extend(fills, notional, w) == Extend(fills + [fill], notional + n, v)
  {
    assert w.fills == [fill] + v.fills;
    assert fills + w.fills == (fills + [fill]) + v.fills;
  }

  lemma ExtendStep(taker: Side, maker: Order, rest: seq<Order>, qty: Qty, limit: Price,
                   fills: seq<FillDelta>, notional: nat)
    requires qty > 0 && LimitAllows(taker, maker.price, limit)
    ensures var take := Min(qty, maker.qty);
            Extend(fills, notional, WalkOrders(taker, [maker] + rest, qty, limit)) ==
            Extend(fills + [Fill(maker, take)], notional + Times(maker.price, take),
                   WalkOrders(taker, rest, qty - take, limit))
  {
    hide WalkOrders, Times, Extend, Fill;
    var s, take := [maker] + rest, Min(qty, maker.qty);
    assert s[0] == maker && s[1..] == rest;
    WalkStep(taker, s, qty, limit);
    var w, v := WalkOrders(taker, s, qty, limit), WalkOrders(taker, rest, qty - take, limit);
    ExtendByOne(fills, notional, w, v, Fill(maker, take), Times(maker.price, take));
  }

  // One level of uniform price is one step by its total.
  ghost predicate IsLevelStep(taker: Side, l: seq<Order>, rest: seq<Order>, qty: Qty, limit: Price, p: Price) {
    var take := Min(qty, Total(l));
    var w, v := WalkOrders(taker, l + rest, qty, limit), WalkOrders(taker, rest, qty - take, limit);
    w.unfilled == v.unfilled && w.notional == Times(p, take) + v.notional && w.stopped == v.stopped
  }

  lemma LevelStepBack(taker: Side, l: seq<Order>, rest: seq<Order>, qty: Qty, limit: Price, p: Price)
    requires l != [] && qty > 0 && l[0].price == p && LimitAllows(taker, p, limit)
    requires IsLevelStep(taker, l[1..], rest, qty - Min(qty, l[0].qty), limit, p)
    ensures IsLevelStep(taker, l, rest, qty, limit, p)
  {
    hide WalkOrders, Total, Times;
    var first := Min(qty, l[0].qty);
    assert (l + rest)[0] == l[0] && (l + rest)[1..] == l[1..] + rest;
    WalkStep(taker, l + rest, qty, limit);
    assert l == [l[0]] + l[1..];
    TotalCons(l[0], l[1..]);
    TimesSplit(p, first, Min(qty - first, Total(l[1..])));
  }

  // The aggregate walk: reading only level totals sees what reading the orders sees.
  lemma {:induction false} LevelStep(taker: Side, l: seq<Order>, rest: seq<Order>, qty: Qty, limit: Price, p: Price)
    requires forall i :: 0 <= i < |l| ==> l[i].price == p
    requires LimitAllows(taker, p, limit)
    ensures IsLevelStep(taker, l, rest, qty, limit, p)
  {
    if l == [] {
      assert l + rest == rest;
    } else if qty == 0 {
      WalkNothing(taker, l + rest, limit);
      WalkNothing(taker, rest, limit);
    } else {
      hide IsLevelStep;
      LevelStep(taker, l[1..], rest, qty - Min(qty, l[0].qty), limit, p);
      LevelStepBack(taker, l, rest, qty, limit, p);
    }
  }

  lemma LevelStepFacts(taker: Side, l: seq<Order>, rest: seq<Order>, qty: Qty, limit: Price, p: Price)
    requires IsLevelStep(taker, l, rest, qty, limit, p)
    ensures var take := Min(qty, Total(l));
            var w, v := WalkOrders(taker, l + rest, qty, limit), WalkOrders(taker, rest, qty - take, limit);
            w.unfilled == v.unfilled && w.notional == Times(p, take) + v.notional && w.stopped == v.stopped
  {
  }

  lemma StoppedWalk(taker: Side, l: seq<Order>, rest: seq<Order>, qty: Qty, limit: Price)
    requires qty > 0 && l != [] && !LimitAllows(taker, l[0].price, limit)
    ensures WalkOrders(taker, l + rest, qty, limit) == Walk([], qty, 0, true)
  {
    assert (l + rest)[0] == l[0];
  }

  // A match, field by field.
  ghost predicate FillFields(fill: FillDelta, maker: Order, q: Qty) {
    && fill.makerOrderId == maker.id && fill.makerWallet == maker.wallet && fill.makerSide == maker.side
    && fill.price == maker.price && fill.filledQty == q
    && fill.makerQtyBefore == maker.qty && fill.makerQtyAfter == maker.qty - q
    && (fill.makerRemoved <==> q == maker.qty)
  }

  lemma MatchExact(b: Book, taker: Side, qty: Qty, limit: Price)
    requires WellFormed(b)
    ensures var m, s := MatchOf(b, taker, qty, limit), b.On(Opposite(taker));
            var liquidity := Liquidity(taker, s, limit);
            var blocked := exists i :: 0 <= i < |s| && !LimitAllows(taker, s[i].price, limit);
            && m.takerSide == taker && m.requestedQty == qty && m.limitPrice == limit
            && m.filledQty == Min(qty, liquidity) && m.unfilledQty + m.filledQty == qty
            && SumFilled(m.fills) == m.filledQty && SumNotional(m.fills) == m.filledNotional
            && (m.limitStopped <==> qty > liquidity && blocked)
            && (m.exhaustedBook <==> qty > Total(s) && !blocked)
            && (if s == [] then m.referencePrice == None else m.referencePrice == Some(s[0].price))
            && |m.fills| <= |s|
  {
    hide WalkOrders, WellFormed;
    var s := b.On(Opposite(taker));
    WellFormedSide(b, Opposite(taker));
    FilledIsLiquidity(taker, s, qty, limit);
    StopReason(taker, s, qty, limit);
    FillsAddUp(taker, s, qty, limit);
    FewerFills(taker, s, qty, limit);
  }

  // The i-th order of the side is filled exactly when it is acceptable and reached.
  lemma MatchFills(b: Book, taker: Side, qty: Qty, limit: Price, i: nat)
    requires WellFormed(b) && i < |b.On(Opposite(taker))|
    ensures var m, s := MatchOf(b, taker, qty, limit), b.On(Opposite(taker));
            && (i < |m.fills| <==> LimitAllows(taker, s[i].price, limit) && qty > Total(s[..i]))
            && (i < |m.fills| ==> FillFields(m.fills[i], s[i], Min(s[i].qty, qty - Total(s[..i]))))
  {
    hide WalkOrders, WellFormed, Total;
    WellFormedSide(b, Opposite(taker));
    FillsAreShares(taker, b.On(Opposite(taker)), qty, limit, i);
  }

  // Extra notional paid, or notional lost, against filling all at the best price.
  ghost function Slippage(m: TakerMatch): int
    requires m.referencePrice.Some?
  {
    var atBest := Times(m.referencePrice.value, m.filledQty);
    if m.takerSide.Bid? then m.filledNotional - atBest else atBest - m.filledNotional
  }

  // The notional is never on the wrong side of the best price, so slippage is
  // never negative and always fits.
  lemma SlippageFits(b: Book, taker: Side, qty: Qty, limit: Price)
    requires WellFormed(b)
    ensures var m := MatchOf(b, taker, qty, limit);
            && (m.filledQty > 0 ==> m.referencePrice.Some?)
            && (m.filledQty > 0 ==> 0 <= Slippage(m) <= MAX_U128)
            && (m.filledQty > 0 ==> Times(m.referencePrice.value, m.filledQty) <= MAX_U128)
  {
    hide WalkOrders, WellFormed, Sorted;
    var s := b.On(Opposite(taker));
    WellFormedSide(b, Opposite(taker));
    if s == [] {
      WalkStops(taker, s, qty, limit);
    } else {
      var m := MatchOf(b, taker, qty, limit);
      assert m.referencePrice == Some(s[0].price);
      ProductFits(s[0].price, m.filledQty);
      SlippageSign(taker, s, qty, limit);
    }
  }

  function SaturatingSub(x: u128, y: u128): u128 {
    if x < y then 0 else x - y
  }

  lemma ProductFits(p: Price, q: Qty)
    ensures 0 <= p * q <= MAX_U128
  {
    MulLe(p, MAX_U64, q);
    MulLe(q, MAX_U64, MAX_U64);
  }

  lemma SlippageSign(taker: Side, s: seq<Order>, qty: Qty, limit: Price)
    requires Sorted(Opposite(taker), s) && s != []
    ensures var w := WalkOrders(taker, s, qty, limit);
            var atBest := s[0].price * (qty - w.unfilled);
            if taker.Bid? then atBest <= w.notional else w.notional <= atBest
  {
    NotionalBounds(taker, s, qty, limit);
  }
}
