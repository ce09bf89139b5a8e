// The order book engine of src/book.rs.
module OrderBooks {
  import opened Types
  import opened PriceTime
  import opened LevelMap
  import opened Arena
  import opened AbstractBook
  import opened Layout
  import opened Representation
  import opened Matching
  import opened Replay
  import opened Submit
  import opened Snapshot
  import opened Standing
  import opened Runs

  // With no level left the walk has used the side up.
  lemma ExtendExhausted(taker: Side, r: Rep, side: Side, qty: Qty, limit: Price, fills: seq<FillDelta>, n: nat)
    ensures Extend(fills, n, WalkOrders(taker, Flat(side, Remaining(r, side, {})), qty, limit)) ==
            Walk(fills, qty, n, false)
  {
    assert Remaining(r, side, {}) == map[];
    assert fills + [] == fills;
  }

  // The walk over the levels still to be visited.
  ghost function WalkLevels(r: Rep, taker: Side, keys: set<Price>, qty: Qty, limit: Price): Walk {
    WalkOrders(taker, Flat(Opposite(taker), Remaining(r, Opposite(taker), keys)), qty, limit)
  }

  lemma StartLevels(r: Rep, taker: Side, qty: Qty, limit: Price)
    requires r.Ok()
    ensures WalkLevels(r, taker, r.Levels(Opposite(taker)).Keys, qty, limit) ==
            WalkOrders(taker, r.Abs().On(Opposite(taker)), qty, limit)
  {
    hide Rep.Ok, Rep.Abs, WalkOrders;
    AllRemaining(r, Opposite(taker));
  }

  lemma NoMoreLevels(r: Rep, taker: Side, keys: set<Price>, qty: Qty, limit: Price)
    requires keys == {} || qty == 0
    ensures WalkLevels(r, taker, keys, qty, limit) == Walk([], qty, 0, false)
  {
    if keys == {} {
      assert Remaining(r, Opposite(taker), keys) == map[];
    }
  }

  // One level, read through its cached total, is one step of the walk.
  ghost predicate LevelVisited(r: Rep, taker: Side, keys: set<Price>, qty: Qty, limit: Price, p: Price) {
    if !LimitAllows(taker, p, limit) then
      WalkLevels(r, taker, keys, qty, limit) == Walk([], qty, 0, true)
    else
      var take := Min(qty, LevelOrEmpty(r.Levels(Opposite(taker)), p).totalQty);
      var w, v := WalkLevels(r, taker, keys, qty, limit), WalkLevels(r, taker, keys - {p}, qty - take, limit);
      w.unfilled == v.unfilled && w.notional == Times(p, take) + v.notional && w.stopped == v.stopped
  }

  lemma VisitLevel(r: Rep, taker: Side, keys: set<Price>, qty: Qty, limit: Price)
    requires keys <= r.Levels(Opposite(taker)).Keys && keys != {} && qty > 0 && r.Ok()
    ensures LevelVisited(r, taker, keys, qty, limit, Best(Opposite(taker), keys))
  {
    hide Rep.Ok, Rep.Abs, LevelAt, WalkOrders, Flat, Remaining, Total, IsLevelStep;
    var opposite := Opposite(taker);
    var p := Best(opposite, keys);
    NextLevel(r, opposite, keys);
    LevelQueue(r, opposite, p);
    var l := LevelAt(r.Abs().On(opposite), p);
    var rest := Flat(opposite, Remaining(r, opposite, keys - {p}));
    if LimitAllows(taker, p, limit) {
      LevelStep(taker, l, rest, qty, limit, p);
      LevelStepFacts(taker, l, rest, qty, limit, p);
    } else {
      StoppedWalk(taker, l, rest, qty, limit);
    }
  }

  class OrderBook {
    var slab: Slab
    var freeList: seq<nat>
    var orderIndex: map<OrderId, nat>
    var bids: map<Price, Level>
    var asks: map<Price, Level>
    var walletIndex: map<WalletId, set<OrderId>>

    // The slots of each level in FIFO order.
    ghost var bidQueues: map<Price, seq<nat>>
    ghost var askQueues: map<Price, seq<nat>>

    ghost function Fields(): Rep
      reads this
    {
      Rep(slab, freeList, orderIndex, bids, asks, walletIndex, bidQueues, askQueues)
    }

    ghost predicate Valid()
      reads this
    {
      Fields().Ok()
    }

    // A valid book is in price-time order and fits its machine integers.
    lemma ValidBook()
      requires Valid()
      ensures WellFormed(Abs()) && Fits(Abs())
    {
      ValidFits(Fields());
    }

    // The price-time sequences this book stands for.
    ghost function Abs(): Book
      reads this
    {
      Fields().Abs()
    }

    constructor ()
      ensures Valid() && Abs() == EMPTY && SlabLen() == 0
    {
      slab := [];
      freeList := [];
      orderIndex := map[];
      bids := map[];
      asks := map[];
      walletIndex := map[];
      bidQueues := map[];
      askQueues := map[];
      EmptyOk();
    }

    method Clear()
      modifies this
      ensures Valid() && Abs() == EMPTY && SlabLen() == 0
    {
      slab := [];
      freeList := [];
      orderIndex := map[];
      bids := map[];
      asks := map[];
      walletIndex := map[];
      bidQueues := map[];
      askQueues := map[];
      EmptyOk();
    }

    function Len(): (n: nat)
      reads this
      ensures Valid() ==> n == Abs().Count()
    {
      |orderIndex|
    }

    function SlabLen(): (n: nat)
      reads this
      ensures Valid() ==> n >= Len()
    {
      |slab|
    }

    function Levels(side: Side): map<Price, Level>
      reads this
    {
      if side.Bid? then bids else asks
    }

    method StoreLevels(side: Side, levels: map<Price, Level>, ghost queues: map<Price, seq<nat>>)
      modifies this`bids, this`asks, this`bidQueues, this`askQueues
      ensures side.Bid? ==> bids == levels && bidQueues == queues
      ensures side.Bid? ==> asks == old(asks) && askQueues == old(askQueues)
      ensures side.Ask? ==> asks == levels && askQueues == queues
      ensures side.Ask? ==> bids == old(bids) && bidQueues == old(bidQueues)
    {
      if side.Bid? {
        bids := levels;
        bidQueues := queues;
      } else {
        asks := levels;
        askQueues := queues;
      }
    }

    // Take a slot from the free list, or grow the slab.
    method AllocSlot() returns (slot: nat)
      modifies this`slab, this`freeList
      ensures old(freeList) != [] ==>
                slab == old(slab) && old(freeList) == freeList + [slot]
      ensures old(freeList) == [] ==>
                slab == old(slab) + [None] && freeList == [] && slot == |old(slab)|
    {
      if freeList != [] {
        slot := freeList[|freeList| - 1];
        freeList := freeList[..|freeList| - 1];
      } else {
        slab := slab + [None];
        slot := |slab| - 1;
      }
    }

    // Count a stored order into its level, creating the level if needed, and link
    // it at the tail.
    method AppendToLevel(order: Order, slot: nat, ghost r0: Rep)
      requires slot <= |r0.slab| && !LiveAt(r0.slab, slot)
      requires slab == Stored(r0.slab, slot, OrderNode(order, None, None))
      requires bids == r0.bids && asks == r0.asks && bidQueues == r0.bidQueues && askQueues == r0.askQueues
      requires ReadyToLink(r0, order, slot, slab, LevelOrEmpty(r0.Levels(order.side), order.price))
      modifies this`slab, this`bids, this`asks, this`bidQueues, this`askQueues
      ensures AddLevels(r0, Fields(), order, slot)
      ensures |slab| == |old(slab)|
    {
      hide Chain, OnlyLinks, Orders, LiveAt;
      var levels := Levels(order.side);
      ghost var q := r0.Queue(order.side, order.price);
      var level := LevelOrEmpty(levels, order.price);
      level := level.(orderCount := level.orderCount + 1, totalQty := level.totalQty + order.qty);
      slab, level := LinkTail(slab, level, slot, q);
      StoreLevels(order.side, levels[order.price := level], r0.Queues(order.side)[order.price := q + [slot]]);
    }

    // Store an order in a slot of the slab and enter it in both indexes.
    method StoreOrder(order: Order) returns (slot: nat)
      requires FreeOk(slab, freeList)
      modifies this`slab, this`freeList, this`orderIndex, this`walletIndex
      ensures slot <= |old(slab)| && !LiveAt(old(slab), slot)
      ensures slab == Stored(old(slab), slot, OrderNode(order, None, None))
      ensures AddKeys(old(Fields()), Fields(), order, slot)
      ensures |slab| == if old(freeList) == [] then |old(slab)| + 1 else |old(slab)|
    {
      slot := AllocSlot();
      assert old(freeList) != [] ==> slot in old(freeList);
      slab := slab[slot := Some(OrderNode(order, None, None))];
      orderIndex := orderIndex[order.id := slot];
      walletIndex := walletIndex[order.wallet := WalletIds(walletIndex, order.wallet) + {order.id}];
    }

    // Insert a new order at the tail of its level. Errors on zero quantity or a
    // live id.
    method Add(order: Order) returns (r: Result<()>)
      requires Valid()
      requires Fits(AddEffect(Abs(), order).book)
      modifies this
      ensures Valid()
      ensures Effect(Abs(), r) == AddEffect(old(Abs()), order)
      ensures SlabLen() == Max(old(SlabLen()), Len())
    {
      hide Rep.Ok, Rep.Abs, FreeOk, Fits, Live, Added, ReadyToLink, AddLevels, LiveAt;
      ghost var r0 := Fields();
      Indexed(r0, order.id);
      if order.qty == 0 {
        return Err(ZeroQty);
      }
      if order.id in orderIndex {
        return Err(DuplicateOrderId(order.id));
      }
      SlabAddsUp(r0);
      var slot := StoreOrder(order);
      AddReady(r0, order, slot);
      AppendToLevel(order, slot, r0);
      AddStep(r0, Fields(), order, slot);
      SlabAddsUp(Fields());
      return Ok(());
    }

    // Take an order out of its level's counters and list; an empty level is pruned.
    method RemoveFromLevel(node: OrderNode, ghost slot: nat, ghost r0: Rep, ghost k: nat)
      requires ReadyToRemove(r0, slot, k) && r0.slab[slot] == Some(node)
      requires slab == r0.slab[slot := None]
      requires bids == r0.bids && asks == r0.asks && bidQueues == r0.bidQueues && askQueues == r0.askQueues
      modifies this`slab, this`bids, this`asks, this`bidQueues, this`askQueues
      ensures RemoveLevels(r0, Fields(), slot, k)
      ensures |slab| == |old(slab)|
    {
      hide ChainBut, Chain, OnlyLinks, Orders;
      var order := node.order;
      var levels := Levels(order.side);
      ghost var q := r0.Queue(order.side, order.price);
      var level := levels[order.price];
      level := level.(orderCount := level.orderCount - 1, totalQty := level.totalQty - order.qty);
      slab, level := Unlink(slab, level, node.prev, node.next, q, k);
      levels := if level.orderCount == 0 then levels - {order.price} else levels[order.price := level];
      StoreLevels(order.side, levels, PutQueue(r0.Queues(order.side), order.price, Without(q, k)));
    }

    // Remove and return the order with this id.
    method Remove(id: OrderId) returns (r: Result<Order>)
      requires Valid()
      modifies this
      ensures Valid()
      ensures Effect(Abs(), r) == RemoveEffect(old(Abs()), id)
      ensures SlabLen() == old(SlabLen())
    {
      hide Rep.Ok, Rep.Abs, Live, Removed, Find, RemoveLevels, ChainBut, Orders, Ends;
      ghost var r0 := Fields();
      Indexed(r0, id);
      if id !in orderIndex {
        return Err(UnknownOrderId(id));
      }
      ghost var k := RemoveReady(r0, id);
      var slot := orderIndex[id];
      orderIndex := orderIndex - {id};
      var node := slab[slot].value;
      slab := slab[slot := None];
      freeList := freeList + [slot];
      walletIndex := DropWalletId(walletIndex, node.order.wallet, id);
      RemoveFromLevel(node, slot, r0, k);
      RemoveStep(r0, Fields(), id, k);
      return Ok(node.order);
    }

    // Give a live order a new quantity, adjust its level's total, and move it to
    // the tail if asked to.
    method SetQty(slot: nat, newQty: Qty, moved: bool, ghost k: nat)
      requires ReadyToResize(Fields(), slot, k, newQty)
      requires moved ==> newQty > OrderAt(slab, slot).qty
      modifies this`slab, this`bids, this`asks, this`bidQueues, this`askQueues
      ensures ResizeLevels(old(Fields()), Fields(), slot, k, newQty, moved)
      ensures |slab| == |old(slab)|
    {
      hide Chain, Orders;
      ghost var r0 := Fields();
      var order := slab[slot].value.order;
      slab := WithQty(slab, slot, newQty);
      var levels := Levels(order.side);
      ghost var q := r0.Queue(order.side, order.price);
      var level := levels[order.price];
      if newQty > order.qty {
        level := level.(totalQty := level.totalQty + (newQty - order.qty));
        if moved {
          slab, level := MoveToTail(slab, level, slot, q, k);
        }
      } else {
        level := level.(totalQty := level.totalQty - (order.qty - newQty));
      }
      StoreLevels(order.side, levels[order.price := level], r0.Queues(order.side)[order.price := MovedQueue(q, k, moved)]);
    }

    // Shrink a resting order (partial fill); it keeps its place, and zero removes it.
    method UpdateSize(id: OrderId, newQty: Qty) returns (r: Result<()>)
      requires Valid()
      modifies this
      ensures Valid()
      ensures Effect(Abs(), r) == UpdateEffect(old(Abs()), id, newQty)
      ensures SlabLen() == old(SlabLen())
    {
      hide Rep.Ok, Rep.Abs, Live, Removed, Find, ResizeLevels;
      ghost var r0 := Fields();
      Indexed(r0, id);
      if id !in orderIndex {
        return Err(UnknownOrderId(id));
      }
      var slot := orderIndex[id];
      var current := slab[slot].value.order.qty;
      if newQty >= current {
        return Err(NonDecreasingSize(current, newQty));
      }
      if newQty == 0 {
        var removed := Remove(id);
        return Ok(());
      }
      ghost var k := ResizeReady(r0, id, newQty, false);
      SetQty(slot, newQty, false, k);
      ResizeStep(r0, Fields(), id, k, newQty, false);
      return Ok(());
    }

    // Resize an order in either direction; zero removes it.
    method AmendSizeWithPolicy(id: OrderId, newQty: Qty, policy: AmendPriorityPolicy) returns (r: Result<()>)
      requires Valid()
      requires Fits(AmendEffect(Abs(), id, newQty, policy).book)
      modifies this
      ensures Valid()
      ensures Effect(Abs(), r) == AmendEffect(old(Abs()), id, newQty, policy)
      ensures SlabLen() == old(SlabLen())
    {
      hide Rep.Ok, Rep.Abs, Fits, Live, Removed, Find, ResizeLevels;
      ghost var r0 := Fields();
      Indexed(r0, id);
      if newQty == 0 {
        var removed := Remove(id);
        return if removed.Ok? then Ok(()) else Err(removed.error);
      }
      if id !in orderIndex {
        return Err(UnknownOrderId(id));
      }
      var slot := orderIndex[id];
      var current := slab[slot].value.order.qty;
      if current == newQty {
        ResizedToSame(r0.Abs(), id);
        return Ok(());
      }
      var moved := newQty > current && policy == LosePriorityOnIncrease;
      ghost var k := ResizeReady(r0, id, newQty, moved);
      SetQty(slot, newQty, moved, k);
      ResizeStep(r0, Fields(), id, k, newQty, moved);
      return Ok(());
    }

    method AmendSize(id: OrderId, newQty: Qty) returns (r: Result<()>)
      requires Valid()
      requires Fits(AmendEffect(Abs(), id, newQty, Preserve).book)
      modifies this
      ensures Valid()
      ensures Effect(Abs(), r) == AmendEffect(old(Abs()), id, newQty, Preserve)
      ensures SlabLen() == old(SlabLen())
    {
      r := AmendSizeWithPolicy(id, newQty, Preserve);
    }

    // Queries

    // The best price of a side, if it has any order.
    method BestPrice(side: Side) returns (p: Option<Price>)
      requires Valid()
      ensures p == BestOf(Abs().On(side))
    {
      BestIsFirst(Fields(), side);
      var keys := Levels(side).Keys;
      p := if keys == {} then None else Some(Best(side, keys));
    }

    // The live order with this id.
    method Get(id: OrderId) returns (o: Option<Order>)
      requires Valid()
      ensures o == if Live(Abs(), id) then Some(Find(Abs(), id)) else None
    {
      Indexed(Fields(), id);
      o := if id in orderIndex then Some(slab[orderIndex[id]].value.order) else None;
    }

    // The orders of a list, following it from its head.
    method FollowList(head: Option<nat>, ghost q: seq<nat>) returns (orders: seq<Order>)
      requires Chain(slab, q) && head == if q == [] then None else Some(q[0])
      ensures orders == Orders(slab, q)
    {
      var cur := head;
      ghost var k := 0;
      orders := [];
      while cur.Some?
        invariant k <= |q|
        invariant cur == if k < |q| then Some(q[k]) else None
        invariant orders == Orders(slab, q)[..k]
        decreases |q| - k
      {
        assert Linked(slab, q, k);
        var node := slab[cur.value].value;
        assert node.order == Orders(slab, q)[k];
        orders := orders + [node.order];
        cur := node.next;
        k := k + 1;
      }
    }

    // The orders of one level, first in first.
    method OrdersAt(side: Side, price: Price) returns (orders: seq<Order>)
      requires Valid()
      ensures orders == LevelAt(Abs().On(side), price)
    {
      hide Rep.Ok, Rep.Abs, LevelAt, Chain;
      LevelQueue(Fields(), side, price);
      orders := FollowList(LevelOrEmpty(Levels(side), price).head, Fields().Queue(side, price));
    }

    // All levels, best price first: price, cached total and cached count.
    method Depth(side: Side) returns (depth: seq<(Price, Qty, u64)>)
      requires Valid()
      ensures forall i :: 0 <= i < |depth| ==>
                var l := LevelAt(Abs().On(side), depth[i].0);
                l != [] && depth[i].1 == Total(l) && depth[i].2 == |l|
      ensures forall i, j :: 0 <= i < j < |depth| ==> Better(side, depth[i].0, depth[j].0)
      ensures forall p :: LevelAt(Abs().On(side), p) != [] ==> exists i :: 0 <= i < |depth| && depth[i].0 == p
    {
      hide Rep.Ok, Rep.Abs, LevelAt, Total, Flat, Remaining;
      ghost var r := Fields();
      var levels := Levels(side);
      var keys := levels.Keys;
      depth := [];
      while keys != {}
        invariant keys <= levels.Keys
        invariant forall i :: 0 <= i < |depth| ==>
                    && depth[i].0 in levels
                    && depth[i].1 == levels[depth[i].0].totalQty && depth[i].2 == levels[depth[i].0].orderCount
        invariant forall i, j :: 0 <= i < j < |depth| ==> Better(side, depth[i].0, depth[j].0)
        invariant forall i, k :: 0 <= i < |depth| && k in keys ==> Better(side, depth[i].0, k)
        invariant forall k <- levels :: k in keys || exists i :: 0 <= i < |depth| && depth[i].0 == k
        decreases keys
      {
        var price := Best(side, keys);
        ghost var before := depth;
        depth := depth + [(price, levels[price].totalQty, levels[price].orderCount)];
        assert forall i :: 0 <= i < |before| ==> depth[i] == before[i];
        assert depth[|before|].0 == price;
        keys := keys - {price};
      }
      forall p
        ensures p in levels <==> LevelAt(Abs().On(side), p) != []
        ensures p in levels ==>
                  && levels[p].totalQty == Total(LevelAt(Abs().On(side), p))
                  && levels[p].orderCount == |LevelAt(Abs().On(side), p)|
      {
        LevelQueue(r, side, p);
      }
    }

    // The cached total and count of a level.
    method LevelSummary(side: Side, price: Price) returns (r: Option<(Qty, u64)>)
      requires Valid()
      ensures var l := LevelAt(Abs().On(side), price);
              r == if l == [] then None else Some((Total(l), |l|))
    {
      LevelQueue(Fields(), side, price);
      var levels := Levels(side);
      r := if price in levels then Some((levels[price].totalQty, levels[price].orderCount)) else None;
    }

    // All live orders of a wallet.
    method OrdersByWallet(wallet: WalletId) returns (orders: set<Order>)
      requires Valid()
      ensures forall o :: o in orders <==> Live(Abs(), o.id) && Find(Abs(), o.id) == o && o.wallet == wallet
    {
      hide SideOk, IndexOk, FreeOk, WalletsOk, WellFormed, Live, Find, WalletIds;
      ghost var r := Fields();
      forall id
        ensures id in WalletIds(walletIndex, wallet) ==>
                  && id in orderIndex && LiveAt(slab, orderIndex[id])
                  && OrderAt(slab, orderIndex[id]).id == id
      {
        WalletIdLive(r, wallet, id);
      }
      forall o: Order
        ensures (o.id in WalletIds(walletIndex, wallet) && o.id in orderIndex && OrderAt(slab, orderIndex[o.id]) == o) <==>
                (Live(Abs(), o.id) && Find(Abs(), o.id) == o && o.wallet == wallet)
      {
        WalletExact(r, wallet, o);
      }
      var ids := WalletIds(walletIndex, wallet);
      orders := set id | id in ids :: slab[orderIndex[id]].value.order;
    }

    // Matching

    // Fill a hypothetical taker order against the opposite side, level by level
    // and order by order.
    method MatchTakerOrder(takerSide: Side, qty: Qty, limitPrice: Price) returns (m: TakerMatch)
      requires Valid()
      ensures m == MatchOf(Abs(), takerSide, qty, limitPrice)
    {
      hide Rep.Ok, Rep.Abs, LevelAt, WalkOrders, Extend, Flat, Remaining, Times;
      var opposite := Opposite(takerSide);
      var referencePrice := BestPrice(opposite);
      ghost var r := Fields();
      ghost var s := Abs().On(opposite);
      ghost var goal := WalkOrders(takerSide, s, qty, limitPrice);
      NotionalFits(takerSide, s, qty, limitPrice);
      var remaining: Qty, notional: u128, fills: seq<FillDelta>, limitStopped := qty, 0, [], false;
      ExtendFromNothing(goal);
      if remaining > 0 {
        var keys := Levels(opposite).Keys;
        AllRemaining(r, opposite);
        while keys != {}
          invariant keys <= r.Levels(opposite).Keys
          invariant remaining > 0 && !limitStopped
          invariant goal == Extend(fills, notional,
                                   WalkOrders(takerSide, Flat(opposite, Remaining(r, opposite, keys)), remaining, limitPrice))
          decreases keys
        {
          var price := Best(opposite, keys);
          NextLevel(r, opposite, keys);
          ghost var rest := Flat(opposite, Remaining(r, opposite, keys - {price}));
          var makers := OrdersAt(opposite, price);
          if !LimitAllows(takerSide, price, limitPrice) {
            ExtendStopped(takerSide, makers, rest, remaining, limitPrice, fills, notional);
            limitStopped := true;
            break;
          }
          var i := 0;
          assert makers[0..] == makers;
          while i < |makers| && remaining > 0
            invariant 0 <= i <= |makers|
            invariant goal == Extend(fills, notional,
                                     WalkOrders(takerSide, makers[i..] + rest, remaining, limitPrice))
          {
            var maker := makers[i];
            var filledQty := Min(remaining, maker.qty);
            var makerQtyAfter := maker.qty - filledQty;
            assert makers[i..] + rest == [maker] + (makers[i + 1..] + rest);
            ExtendStep(takerSide, maker, makers[i + 1..] + rest, remaining, limitPrice, fills, notional);
            ExtendBounds(fills + [Fill(maker, filledQty)], notional + Times(maker.price, filledQty),
                         WalkOrders(takerSide, makers[i + 1..] + rest, remaining - filledQty, limitPrice));
            fills := fills + [FillDelta(maker.id, maker.wallet, maker.side, maker.price, filledQty,
                                        maker.qty, makerQtyAfter, makerQtyAfter == 0)];
            notional := notional + Times(maker.price, filledQty);
            remaining := remaining - filledQty;
            i := i + 1;
          }
          if remaining == 0 {
            ExtendDone(takerSide, makers[i..] + rest, limitPrice, fills, notional);
            break;
          }
          assert makers[i..] + rest == rest;
          keys := keys - {price};
        }
        if keys == {} {
          ExtendExhausted(takerSide, r, opposite, remaining, limitPrice, fills, notional);
        }
      } else {
        ExtendDone(takerSide, s, limitPrice, fills, notional);
      }
      assert goal == Walk(fills, remaining, notional, limitStopped);
      var filledQty := qty - remaining;
      m := TakerMatch(takerSide, qty, filledQty, remaining, notional, limitPrice, referencePrice, fills,
                      limitStopped, remaining > 0 && !limitStopped);
    }

    // Follow a list and count what stands before and after one of its slots.
    method CountAround(head: Option<nat>, targetSlot: nat, ghost q: seq<nat>, ghost at: nat)
      returns (ordersAhead: u64, qtyAhead: Qty, ordersBehind: u64, qtyBehind: Qty)
      requires Chain(slab, q) && at < |q| && q[at] == targetSlot && head == Some(q[0])
      requires |q| <= MAX_U64 && Total(Orders(slab, q)) <= MAX_U64
      ensures ordersAhead == at && ordersBehind == |q| - at - 1
      ensures qtyAhead == Total(Orders(slab, q)[..at])
      ensures qtyBehind == Total(Orders(slab, q)[at + 1..])
    {
      hide Total;
      ghost var l := Orders(slab, q);
      ordersAhead, qtyAhead, ordersBehind, qtyBehind := 0, 0, 0, 0;
      var seenTarget := false;
      var cur := head;
      ghost var k := 0;
      TotalNone();
      while cur.Some?
        invariant k <= |q|
        invariant cur == if k < |q| then Some(q[k]) else None
        invariant seenTarget <==> at < k
        invariant !seenTarget ==> ordersAhead == k && qtyAhead == Total(l[..k]) && ordersBehind == qtyBehind == 0
        invariant seenTarget ==> ordersAhead == at && qtyAhead == Total(l[..at])
        invariant seenTarget ==> ordersBehind == k - at - 1 && qtyBehind == Total(l[at + 1..k])
        decreases |q| - k
      {
        assert Linked(slab, q, k);
        var slot := cur.value;
        var node := slab[slot].value;
        assert node.order == l[k];
        PrefixStep(l, at, k);
        if slot == targetSlot {
          seenTarget := true;
        } else if seenTarget {
          ordersBehind := ordersBehind + 1;
          qtyBehind := qtyBehind + node.order.qty;
        } else {
          ordersAhead := ordersAhead + 1;
          qtyAhead := qtyAhead + node.order.qty;
        }
        cur := node.next;
        k := k + 1;
      }
      assert l[at + 1..|l|] == l[at + 1..];
    }

    // Where a live order stands in its level.
    method QueuePosition(id: OrderId) returns (r: Result<QueuePosition>)
      requires Valid()
      ensures !Live(Abs(), id) ==> r == Err(UnknownOrderId(id))
      ensures Live(Abs(), id) ==> WellFormed(Abs()) && Fits(Abs()) && r == Ok(StandingOf(Abs(), id))
      ensures Live(Abs(), id) ==>
                var o, side := Find(Abs(), id), SideOf(Abs(), id);
                var l := LevelAt(Abs().On(side), o.price);
                r.Ok? && HasId(l, id) && StandsAt(r.value, o, side, l, Pos(l, id))
    {
      hide Rep.Ok, Rep.Abs, WellFormed, Fits, LevelAt, Live, Find, Total, Chain;
      ghost var rep, b := Fields(), Abs();
      Indexed(rep, id);
      if id !in orderIndex {
        return Err(UnknownOrderId(id));
      }
      InQueue(rep, id);
      ValidBook();
      InLevel(b, id);
      var targetSlot := orderIndex[id];
      var target := slab[targetSlot].value.order;
      var level := LevelOrEmpty(Levels(target.side), target.price);
      ghost var q := rep.Queue(target.side, target.price);
      LevelQueue(rep, target.side, target.price);
      LevelFits(b, target.side, target.price);
      var ordersAhead, qtyAhead, ordersBehind, qtyBehind :=
        CountAround(level.head, targetSlot, q, Pos(LevelOf(b, id), id));
      r := Ok(Types.QueuePosition(Some(id), target.side, target.price, ordersAhead, qtyAhead, ordersBehind, qtyBehind,
                                  level.orderCount, level.totalQty));
    }

    // Where a new order would stand at this price.
    method QueuePositionForNewOrder(side: Side, price: Price) returns (pos: QueuePosition)
      requires Valid()
      ensures var l := LevelAt(Abs().On(side), price);
              && pos.id == None && pos.side == side && pos.price == price
              && pos.ordersAhead == |l| && pos.qtyAhead == Total(l)
              && pos.ordersBehind == 0 && pos.qtyBehind == 0
              && pos.levelOrderCount == |l| && pos.levelTotalQty == Total(l)
    {
      LevelQueue(Fields(), side, price);
      var level := LevelOrEmpty(Levels(side), price);
      pos := Types.QueuePosition(None, side, price, level.orderCount, level.totalQty, 0, 0,
                                 level.orderCount, level.totalQty);
    }

    // Adverse notional against a reference price, by saturating subtraction.
    static method SlippageAgainst(referencePrice: Option<Price>, takerSide: Side, filledQty: Qty, notional: u128)
      returns (r: Option<u128>)
      ensures filledQty == 0 || referencePrice.None? ==> r == None
      ensures filledQty > 0 && referencePrice.Some? ==>
                var atBest := Times(referencePrice.value, filledQty);
                var gap := if takerSide.Bid? then notional - atBest else atBest - notional;
                r.Some? && r.value == if gap < 0 then 0 else gap
    {
      if filledQty > 0 && referencePrice.Some? {
        ProductFits(referencePrice.value, filledQty);
        var referenceNotional: u128 := Times(referencePrice.value, filledQty);
        r := Some(if takerSide.Bid? then SaturatingSub(notional, referenceNotional)
                  else SaturatingSub(referenceNotional, notional));
      } else {
        r := None;
      }
    }

    // Walk the opposite side level by level, reading cached totals only.
    method WalkTotals(takerSide: Side, qty: Qty, limitPrice: Price)
      returns (remaining: Qty, notional: u128, limitStopped: bool)
      requires Valid()
      ensures var w := WalkOrders(takerSide, Abs().On(Opposite(takerSide)), qty, limitPrice);
              remaining == w.unfilled && notional == w.notional && limitStopped == w.stopped
    {
      hide Rep.Ok, Rep.Abs, LevelAt, WalkOrders, WalkLevels, Times;
      var opposite := Opposite(takerSide);
      ghost var r := Fields();
      ghost var goal := WalkOrders(takerSide, Abs().On(opposite), qty, limitPrice);
      NotionalFits(takerSide, Abs().On(opposite), qty, limitPrice);
      remaining, notional, limitStopped := qty, 0, false;
      if remaining > 0 {
        var keys := Levels(opposite).Keys;
        StartLevels(r, takerSide, qty, limitPrice);
        while keys != {}
          invariant keys <= r.Levels(opposite).Keys
          invariant remaining > 0 && !limitStopped
          invariant var left := WalkLevels(r, takerSide, keys, remaining, limitPrice);
                    && goal.unfilled == left.unfilled && goal.stopped == left.stopped
                    && goal.notional == notional + left.notional
          decreases keys
        {
          var price := Best(opposite, keys);
          VisitLevel(r, takerSide, keys, remaining, limitPrice);
          if !LimitAllows(takerSide, price, limitPrice) {
            limitStopped := true;
            break;
          }
          var take := Min(remaining, LevelOrEmpty(Levels(opposite), price).totalQty);
          notional := notional + Times(price, take);
          remaining := remaining - take;
          keys := keys - {price};
          if remaining == 0 {
            break;
          }
        }
        if !limitStopped {
          NoMoreLevels(r, takerSide, keys, remaining, limitPrice);
        }
      } else {
        WalkNothing(takerSide, Abs().On(opposite), limitPrice);
      }
    }

    // Estimate a hypothetical taker order from level totals alone.
    method EstimateSlippage(takerSide: Side, qty: Qty, limitPrice: Price) returns (e: SlippageEstimate)
      requires Valid()
      ensures var m := MatchOf(Abs(), takerSide, qty, limitPrice);
              && e.takerSide == takerSide && e.requestedQty == qty && e.limitPrice == limitPrice
              && e.filledQty == m.filledQty && e.unfilledQty == m.unfilledQty
              && e.filledNotional == m.filledNotional && e.referencePrice == m.referencePrice
              && e.limitStopped == m.limitStopped && e.exhaustedBook == m.exhaustedBook
              && (e.slippageNotional.Some? <==> e.filledQty > 0)
              && (e.filledQty > 0 ==>
                    && e.referencePrice.Some?
                    && var atBest := Times(e.referencePrice.value, e.filledQty);
                       if takerSide.Bid? then e.filledNotional == atBest + e.slippageNotional.value
                       else atBest == e.filledNotional + e.slippageNotional.value)
    {
      hide Rep.Ok, Rep.Abs, WellFormed, WalkOrders, Times;
      var referencePrice := BestPrice(Opposite(takerSide));
      var remaining, notional, limitStopped := WalkTotals(takerSide, qty, limitPrice);
      var filledQty := qty - remaining;
      var slippageNotional := SlippageAgainst(referencePrice, takerSide, filledQty, notional);
      ValidBook();
      SlippageFits(Abs(), takerSide, qty, limitPrice);
      e := SlippageEstimate(takerSide, qty, filledQty, remaining, notional, limitPrice, referencePrice,
                            slippageNotional, limitStopped, remaining > 0 && !limitStopped);
    }

    // Execute a taker order: match it, then apply every fill to its maker.
    method ApplyTakerOrder(takerSide: Side, qty: Qty, limitPrice: Price) returns (r: Result<TakerMatch>)
      requires Valid()
      modifies this
      ensures Valid()
      ensures Effect(Abs(), r) == TakeEffect(old(Abs()), takerSide, qty, limitPrice)
      ensures SlabLen() == old(SlabLen())
    {
      hide Valid, Abs, WellFormed, WalkOrders, Consume, Live, AfterFills, LevelAt;
      if qty == 0 {
        return Err(ZeroQty);
      }
      ghost var b, opposite := Abs(), Opposite(takerSide);
      ghost var s := b.On(opposite);
      var takerMatch := MatchTakerOrder(takerSide, qty, limitPrice);
      var fills := takerMatch.fills;
      ValidBook();
      WellFormedSide(b, opposite);
      FillsConsume(takerSide, s, qty, limitPrice);
      AfterNone(b, opposite, fills);
      for i := 0 to |fills|
        invariant Valid() && SlabLen() == old(SlabLen())
        invariant Abs() == b.With(opposite, AfterFills(s, fills, i))
      {
        var fill := fills[i];
        FillMeetsFront(b, takerSide, qty, limitPrice, i);
        if fill.makerRemoved {
          var removed := Remove(fill.makerOrderId);
          assert removed.Ok?;
        } else {
          var updated := UpdateSize(fill.makerOrderId, fill.makerQtyAfter);
          assert updated.Ok?;
        }
      }
      return Ok(takerMatch);
    }

    // Whether a limit order would meet an acceptable best price.
    method LimitOrderWouldCross(side: Side, price: Price) returns (r: bool)
      requires Valid()
      ensures r <==> WouldCross(Abs(), side, price)
    {
      var best := BestPrice(Opposite(side));
      r := best.Some? && if side.Bid? then best.value <= price else best.value >= price;
    }

    // Submit a limit order under a time-in-force policy.
    method SubmitLimitOrder(order: Order, policy: LimitOrderPolicy) returns (r: Result<SubmitLimitOrderOutcome>)
      requires Valid()
      requires Fits(SubmitEffect(Abs(), order, policy).book)
      modifies this
      ensures Valid()
      ensures Effect(Abs(), r) == SubmitEffect(old(Abs()), order, policy)
      ensures SlabLen() == Max(old(SlabLen()), Len())
    {
      hide Rep.Ok, Rep.Abs, WellFormed, Fits, Live, WalkOrders, Consume, Added, Uncrossed;
      ghost var b := Abs();
      ValidBook();
      SlabAddsUp(Fields());
      Indexed(Fields(), order.id);
      if order.qty == 0 {
        return Err(ZeroQty);
      }
      if order.id in orderIndex {
        return Err(DuplicateOrderId(order.id));
      }
      TakeWellFormed(b, order.side, order.qty, order.price);
      match policy {
        case Gtc =>
          var taken := ApplyTakerOrder(order.side, order.qty, order.price);
          var takerMatch := taken.value;
          var restedOrder: Option<Order> := None;
          if takerMatch.unfilledQty > 0 {
            var rested := order.(qty := takerMatch.unfilledQty);
            var added := Add(rested);
            assert added.Ok?;
            restedOrder := Some(rested);
          } else {
            SlabAddsUp(Fields());
          }
          return Ok(SubmitLimitOrderOutcome(policy, None, takerMatch, restedOrder));
        case Ioc =>
          var taken := ApplyTakerOrder(order.side, order.qty, order.price);
          SlabAddsUp(Fields());
          return Ok(SubmitLimitOrderOutcome(policy, None, taken.value, None));
        case Fok =>
          var simulated := MatchTakerOrder(order.side, order.qty, order.price);
          if simulated.unfilledQty != 0 {
            return Ok(SubmitLimitOrderOutcome(policy, Some(FillOrKillWouldNotFill), simulated, None));
          }
          var taken := ApplyTakerOrder(order.side, order.qty, order.price);
          SlabAddsUp(Fields());
          return Ok(SubmitLimitOrderOutcome(policy, None, taken.value, None));
        case PostOnly =>
          var takerMatch := MatchTakerOrder(order.side, order.qty, order.price);
          var crosses := LimitOrderWouldCross(order.side, order.price);
          if crosses {
            return Ok(SubmitLimitOrderOutcome(policy, Some(PostOnlyWouldCross), takerMatch, None));
          }
          var added := Add(order);
          assert added.Ok?;
          return Ok(SubmitLimitOrderOutcome(policy, None, takerMatch, Some(order)));
      }
    }

    // Operations

    method ApplyOp(op: BookOp) returns (r: Result<()>)
      requires Valid()
      requires Fits(ApplyEffect(Abs(), op).book)
      modifies this
      ensures Valid()
      ensures Effect(Abs(), r) == ApplyEffect(old(Abs()), op)
      ensures SlabLen() == Max(old(SlabLen()), Len())
    {
      hide Rep.Ok, Rep.Abs, Fits, Live, Added, Removed, Resized, Find;
      match op {
        case Add(order) =>
          r := Add(order);
        case Remove(id) =>
          var removed := Remove(id);
          SlabAddsUp(Fields());
          r := if removed.Ok? then Ok(()) else Err(removed.error);
        case UpdateSize(id, newQty) =>
          r := UpdateSize(id, newQty);
          SlabAddsUp(Fields());
        case AmendSize(id, newQty) =>
          r := AmendSize(id, newQty);
          SlabAddsUp(Fields());
      }
    }

    // Apply an operation under a replay policy.
    method ApplyOpWithPolicy(op: BookOp, policy: ReplayPolicy) returns (outcome: ReplayApplyOutcome)
      requires Valid()
      requires Fits(EffectOf(Abs(), op, policy).book)
      modifies this
      ensures Valid()
      ensures ReplayEffect(Abs(), outcome) == EffectOf(old(Abs()), op, policy)
      ensures SlabLen() == Max(old(SlabLen()), Len())
    {
      hide Rep.Ok, Rep.Abs, Fits, Live, Find, ApplyEffect;
      SlabAddsUp(Fields());
      match op {
        case Add(order) =>
          Indexed(Fields(), order.id);
          if order.id in orderIndex {
            return if policy.duplicateAdd == DuplicateSkip then Skipped(op, DuplicateAdd(order.id))
                   else Failed(op, DuplicateOrderId(order.id));
          }
        case Remove(id) =>
          Indexed(Fields(), id);
          if id !in orderIndex {
            return if policy.missingOrder == MissingSkip then Skipped(op, MissingOrder(id))
                   else Failed(op, UnknownOrderId(id));
          }
        case UpdateSize(id, newQty) =>
          Indexed(Fields(), id);
          if id !in orderIndex {
            return if policy.missingOrder == MissingSkip then Skipped(op, MissingOrder(id))
                   else Failed(op, UnknownOrderId(id));
          }
          var current := slab[orderIndex[id]].value.order.qty;
          if newQty >= current && policy.nonDecreasingUpdate == TreatAsAmend {
            var applied := BookOp.AmendSize(id, newQty);
            var result := ApplyOp(applied);
            return if result.Ok? then Coerced(op, applied, NonDecreasingUpdate(id, current, newQty))
                   else Failed(op, result.error);
          }
        case AmendSize(id, newQty) =>
          Indexed(Fields(), id);
          if id !in orderIndex {
            return if policy.missingOrder == MissingSkip then Skipped(op, MissingOrder(id))
                   else Failed(op, UnknownOrderId(id));
          }
      }
      var result := ApplyOp(op);
      outcome := if result.Ok? then Applied(op) else Failed(op, result.error);
    }

    // Replay a stream of operations and tally the outcomes; the slab ends as large
    // as the largest number of live orders on the way.
    method ReplayOps(ops: seq<BookOp>, policy: ReplayPolicy) returns (tally: Tally)
      requires Valid()
      requires FitsThroughout(Abs(), ops, policy)
      modifies this
      ensures Valid()
      ensures Abs() == ReplayAll(old(Abs()), ops, policy)
      ensures tally == TallyOf(old(Abs()), ops, policy)
      ensures SlabLen() == Max(old(SlabLen()), Peak(old(Abs()), ops, policy))
    {
      hide Rep.Ok, Rep.Abs, Fits, EffectOf;
      SlabAddsUp(Fields());
      tally := Tally(0, 0, 0, 0);
      assert ops[0..] == ops;
      for i := 0 to |ops|
        invariant Valid() && FitsThroughout(Abs(), ops[i..], policy)
        invariant ReplayAll(Abs(), ops[i..], policy) == ReplayAll(old(Abs()), ops, policy)
        invariant tally.Plus(TallyOf(Abs(), ops[i..], policy)) == TallyOf(old(Abs()), ops, policy)
        invariant Max(SlabLen(), Peak(Abs(), ops[i..], policy)) == Max(old(SlabLen()), Peak(old(Abs()), ops, policy))
      {
        assert ops[i..][0] == ops[i] && ops[i..][1..] == ops[i + 1..];
        SlabAddsUp(Fields());
        var outcome := ApplyOpWithPolicy(ops[i], policy);
        tally := tally.Plus(TallyOne(outcome));
        SlabAddsUp(Fields());
      }
      SlabAddsUp(Fields());
    }

    // Snapshots

    // The synthetic orders: bids then asks, best price first, first in first.
    method SyntheticOrdersInBookOrder() returns (orders: seq<Order>)
      requires Valid()
      ensures orders == SyntheticOf(Abs()) == Synthetic(Abs().bids) + Synthetic(Abs().asks)
    {
      var bidOrders := SyntheticOn(Bid);
      var askOrders := SyntheticOn(Ask);
      orders := bidOrders + askOrders;
    }

    method SyntheticOn(side: Side) returns (orders: seq<Order>)
      requires Valid()
      ensures orders == Synthetic(Abs().On(side))
    {
      hide Rep.Ok, Rep.Abs, LevelAt, Synthetic, Flat, Remaining;
      ghost var r := Fields();
      orders := [];
      var keys := Levels(side).Keys;
      AllRemaining(r, side);
      while keys != {}
        invariant keys <= r.Levels(side).Keys
        invariant Synthetic(Abs().On(side)) == orders + Synthetic(Flat(side, Remaining(r, side, keys)))
        decreases keys
      {
        var price := Best(side, keys);
        NextLevel(r, side, keys);
        ghost var rest := Flat(side, Remaining(r, side, keys - {price}));
        var level := OrdersAt(side, price);
        SyntheticConcat(level, rest);
        var chosen := KeepSynthetic(level);
        orders := orders + chosen;
        keys := keys - {price};
      }
      NothingRemains(r, side);
    }

    // Replace the book by a snapshot; PreserveSynthetic re-adds the live synthetic
    // orders behind it.
    method ApplySnapshotWithPolicy(orders: seq<Order>, policy: SnapshotPolicy) returns (r: Result<SnapshotOutcome>)
      requires Valid()
      requires Fits(SnapshotEffect(Abs(), orders, policy).book)
      modifies this
      ensures Valid()
      ensures Effect(Abs(), r) == SnapshotEffect(old(Abs()), orders, policy)
      ensures r.Ok? || policy == Replace ==> SlabLen() == Len()
      ensures r.Err? && policy == PreserveSynthetic ==> Fields() == old(Fields())
    {
      hide Rep.Ok, Rep.Abs, Fits, AddAll, Validate, Synthetic, WellFormed, VenueOrders;
      ValidBook();
      PreserveSyntheticExact(Abs(), orders, Bid, 0);
      ValidIsVenue(Abs(), orders);
      var preserved: seq<Order> := [];
      if policy == PreserveSynthetic {
        preserved := SyntheticOrdersInBookOrder();
        var valid := ValidatePreserveSyntheticSnapshot(orders, preserved);
        if valid.Err? {
          return Err(valid.error);
        }
      }
      Clear();
      SlabAddsUp(Fields());
      EmptyLevels(Bid, 0);
      AddAllConcat(EMPTY, orders, preserved);
      AddAllWellFormed(EMPTY, orders);
      if AddAll(EMPTY, orders).result.Ok? {
        FitsAllAlong(AddAll(EMPTY, orders).book, preserved);
      }
      var added := AddOrders(orders);
      if added.Err? {
        return Err(added.error);
      }
      added := AddOrders(preserved);
      if added.Err? {
        return Err(added.error);
      }
      return Ok(SnapshotOutcome(|orders|, |preserved|));
    }

    // Add orders one by one, stopping at the first error.
    method AddOrders(orders: seq<Order>) returns (r: Result<()>)
      requires Valid()
      requires Fits(AddAll(Abs(), orders).book)
      modifies this
      ensures Valid()
      ensures Effect(Abs(), r) == AddAll(old(Abs()), orders)
      ensures old(SlabLen()) == old(Len()) ==> SlabLen() == Len()
    {
      hide Rep.Ok, Rep.Abs, Fits, WellFormed, AddEffect;
      assert orders[0..] == orders;
      for i := 0 to |orders|
        invariant Valid()
        invariant AddAll(Abs(), orders[i..]) == AddAll(old(Abs()), orders)
        invariant old(SlabLen()) == old(Len()) ==> SlabLen() == Len()
      {
        assert orders[i..][0] == orders[i] && orders[i..][1..] == orders[i + 1..];
        ValidBook();
        NextFits(Abs(), orders[i..]);
        AddKeepsCount(Abs(), orders[i]);
        SlabAddsUp(Fields());
        var added := Add(orders[i]);
        SlabAddsUp(Fields());
        if added.Err? {
          return added;
        }
      }
      return Ok(());
    }

    method ApplySnapshot(orders: seq<Order>) returns (r: Result<()>)
      requires Valid()
      requires Fits(SnapshotEffect(Abs(), orders, Replace).book)
      modifies this
      ensures Valid()
      ensures var e := SnapshotEffect(old(Abs()), orders, Replace);
              Abs() == e.book && r == if e.result.Ok? then Ok(()) else Err(e.result.error)
      ensures r.Ok? <==> Positive(orders) && Unique(orders)
      ensures SlabLen() == Len()
    {
      ReplaceExact(Abs(), orders, Bid, 0);
      var outcome := ApplySnapshotWithPolicy(orders, Replace);
      r := if outcome.Ok? then Ok(()) else Err(outcome.error);
    }

    // Whole runs

    // Carry out one command; the slab grows only when more orders are live than
    // ever since the last reset.
    method Perform(c: Command)
      requires Valid()
      requires Fits(Exec(Abs(), c))
      modifies this
      ensures Valid()
      ensures Abs() == Exec(old(Abs()), c)
      ensures SlabLen() == Mark(old(Abs()), old(SlabLen()), c)
    {
      hide Rep.Ok, Rep.Abs, Fits, ApplyEffect, EffectOf, AmendEffect, TakeEffect, SubmitEffect, SnapshotEffect;
      match c {
        case Operate(op) =>
          var result := ApplyOp(op);
        case Replayed(op, replay) =>
          var outcome := ApplyOpWithPolicy(op, replay);
        case Amend(id, newQty, priority) =>
          var result := AmendSizeWithPolicy(id, newQty, priority);
          SlabAddsUp(Fields());
        case Take(taker, qty, limit) =>
          var taken := ApplyTakerOrder(taker, qty, limit);
          SlabAddsUp(Fields());
        case SubmitOrder(order, tif) =>
          var outcome := SubmitLimitOrder(order, tif);
        case Load(orders, policy) =>
          var outcome := ApplySnapshotWithPolicy(orders, policy);
          SlabAddsUp(Fields());
        case Reset =>
          Clear();
      }
    }

    // Carry out a run of commands: the slab ends exactly as large as the run's
    // high-water mark.
    method PerformAll(cs: seq<Command>)
      requires Valid()
      requires RunFits(Abs(), cs)
      modifies this
      ensures Valid()
      ensures Abs() == Run(old(Abs()), cs)
      ensures SlabLen() == HighWater(old(Abs()), old(SlabLen()), cs)
    {
      hide Rep.Ok, Rep.Abs, Fits, Exec, Mark;
      assert cs[0..] == cs;
      for i := 0 to |cs|
        invariant Valid() && RunFits(Abs(), cs[i..])
        invariant Run(Abs(), cs[i..]) == Run(old(Abs()), cs)
        invariant HighWater(Abs(), SlabLen(), cs[i..]) == HighWater(old(Abs()), old(SlabLen()), cs)
      {
        assert cs[i..][0] == cs[i] && cs[i..][1..] == cs[i + 1..];
        Perform(cs[i]);
      }
    }
  }

  lemma NothingRemains(r: Rep, side: Side)
    ensures Flat(side, Remaining(r, side, {})) == [] && Synthetic([]) == []
  {
    assert Remaining(r, side, {}) == map[];
  }

  // Keep the orders with a synthetic id, in order.
  method KeepSynthetic(orders: seq<Order>) returns (kept: seq<Order>)
    ensures kept == Synthetic(orders)
  {
    kept := [];
    assert orders[..0] == [];
    for i := 0 to |orders|
      invariant kept == Synthetic(orders[..i])
    {
      assert orders[..i + 1] == orders[..i] + [orders[i]];
      SyntheticConcat(orders[..i], [orders[i]]);
      if IsSyntheticOrderId(orders[i].id) {
        kept := kept + [orders[i]];
      }
    }
    assert orders[..|orders|] == orders;
  }

  // Check a venue snapshot against the orders to be preserved.
  method ValidatePreserveSyntheticSnapshot(orders: seq<Order>, preserved: seq<Order>) returns (r: Result<()>)
    ensures r == Validate(orders, 0, preserved)
  {
    var preservedIds := set o | o in preserved :: o.id;
    var seenSnapshotIds: set<OrderId> := {};
    for i := 0 to |orders|
      invariant forall id :: id in seenSnapshotIds <==> HasId(orders[..i], id)
      invariant Validate(orders, i, preserved) == Validate(orders, 0, preserved)
    {
      var order := orders[i];
      if order.qty == 0 {
        return Err(ZeroQty);
      }
      assert order.id in preservedIds <==> HasId(preserved, order.id);
      if order.id in preservedIds {
        return Err(DuplicateOrderId(order.id));
      }
      if IsSyntheticOrderId(order.id) {
        return Err(SyntheticOrderIdInSnapshot(order.id));
      }
      if order.id in seenSnapshotIds {
        return Err(DuplicateOrderId(order.id));
      }
      seenSnapshotIds := seenSnapshotIds + {order.id};
      HasIdNext(orders, i);
    }
    return Ok(());
  }
}
