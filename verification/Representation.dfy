// All fields of the order book at one moment, their invariant, and how each
// mutation carries it over.
module Representation {
  import opened Types
  import opened PriceTime
  import opened LevelMap
  import opened Arena
  import opened AbstractBook
  import opened Layout

  datatype Rep = Rep(
    slab: Slab,
    freeList: seq<nat>,
    orderIndex: map<OrderId, nat>,
    bids: map<Price, Level>,
    asks: map<Price, Level>,
    walletIndex: map<WalletId, set<OrderId>>,
    bidQueues: map<Price, seq<nat>>,
    askQueues: map<Price, seq<nat>>)
  {
    ghost function Levels(side: Side): map<Price, Level> {
      if side.Bid? then bids else asks
    }

    ghost function Queues(side: Side): map<Price, seq<nat>> {
      if side.Bid? then bidQueues else askQueues
    }

    ghost function Queue(side: Side, p: Price): seq<nat> {
      QueueAt(Queues(side), p)
    }

    // The abstract book these fields stand for.
    ghost function Abs(): (b: Book)
      ensures forall side :: b.On(side) == SideOrders(slab, side, Queues(side))
    {
      Book(SideOrders(slab, Bid, bidQueues), SideOrders(slab, Ask, askQueues))
    }

    ghost predicate IndexesOk() {
      && IndexOk(slab, orderIndex)
      && FreeOk(slab, freeList)
      && WalletsOk(slab, orderIndex, walletIndex)
      && |slab| == |orderIndex| + |freeList|
    }

    ghost predicate SidesOk() {
      && SideOk(slab, Bid, bids, bidQueues)
      && SideOk(slab, Ask, asks, askQueues)
    }

    ghost predicate Ok() {
      && SidesOk()
      && IndexesOk()
      && |orderIndex| == Abs().Count()
      && WellFormed(Abs())
    }
  }

  // The book with nothing in it
  const NOTHING := Rep([], [], map[], map[], map[], map[], map[], map[])

  lemma EmptyOk()
    ensures NOTHING.Ok() && NOTHING.Abs() == EMPTY
  {
    EmptySide(Bid);
    EmptySide(Ask);
    EmptyIndexes();
    hide SideOk, SideOrders, IndexOk, FreeOk, WalletsOk;
  }

  lemma EmptySide(side: Side)
    ensures SideOk([], side, map[], map[]) && SideOrders([], side, map[]) == []
  {
    assert QueueOrders([], map[]) == map[];
  }

  lemma EmptyIndexes()
    ensures IndexOk([], map[]) && FreeOk([], []) && WalletsOk([], map[], map[])
  {
  }

  lemma EachSide(r: Rep, side: Side)
    requires r.SidesOk()
    ensures SideOk(r.slab, side, r.Levels(side), r.Queues(side))
    ensures SideOk(r.slab, Opposite(side), r.Levels(Opposite(side)), r.Queues(Opposite(side)))
  {
  }

  // One side was edited and the other kept.
  lemma BothSides(r: Rep, r': Rep, side: Side, s: seq<Order>)
    requires SideOk(r'.slab, side, r'.Levels(side), r'.Queues(side))
    requires SideOk(r'.slab, Opposite(side), r'.Levels(Opposite(side)), r'.Queues(Opposite(side)))
    requires SideOrders(r'.slab, side, r'.Queues(side)) == s
    requires SideOrders(r'.slab, Opposite(side), r'.Queues(Opposite(side))) == r.Abs().On(Opposite(side))
    ensures r'.SidesOk()
    ensures r'.Abs() == r.Abs().With(side, s)
  {
  }

  // The id index answers exactly for the orders of the abstract book.
  lemma Indexed(r: Rep, id: OrderId)
    requires r.Ok()
    ensures id in r.orderIndex <==> Live(r.Abs(), id)
    ensures id in r.orderIndex ==>
              var o := OrderAt(r.slab, r.orderIndex[id]);
              && LiveAt(r.slab, r.orderIndex[id])
              && Find(r.Abs(), id) == o && SideOf(r.Abs(), id) == o.side
              && o.id == id && o.qty > 0
  {
    IndexedIsLive(r.slab, r.orderIndex, Bid, r.Levels(Bid), r.Queues(Bid), id);
    IndexedIsLive(r.slab, r.orderIndex, Ask, r.Levels(Ask), r.Queues(Ask), id);
    if id in r.orderIndex {
      var slot := r.orderIndex[id];
      var side := OrderAt(r.slab, slot).side;
      var k, j := Located(r.slab, side, r.Levels(side), r.Queues(side), slot);
      FindIs(r.Abs(), side, j);
    }
  }

  // What the concrete level at a price shows of the abstract side.
  lemma LevelQueue(r: Rep, side: Side, p: Price)
    requires r.Ok()
    ensures var q := r.Queue(side, p);
            && Orders(r.slab, q) == LevelAt(r.Abs().On(side), p)
            && Chain(r.slab, q)
            && Ends(LevelOrEmpty(r.Levels(side), p), q)
            && LevelOrEmpty(r.Levels(side), p).orderCount == |q|
            && LevelOrEmpty(r.Levels(side), p).totalQty == Total(LevelAt(r.Abs().On(side), p))
            && (p in r.Levels(side) <==> q != [])
  {
    hide WellFormed, IndexOk, FreeOk, WalletsOk, Flat, LevelAt;
    EachSide(r, side);
    SidePriced(r.slab, side, r.Levels(side), r.Queues(side));
    LevelOfFlat(side, QueueOrders(r.slab, r.Queues(side)), p);
  }

  // A valid book fits: its totals are machine integers.
  lemma ValidFits(r: Rep)
    requires r.Ok()
    ensures Fits(r.Abs())
  {
    hide WellFormed, SideOk, IndexOk, FreeOk, WalletsOk, LevelAt, Total;
    forall side, p
      ensures Total(LevelAt(r.Abs().On(side), p)) <= MAX_U64
    {
      LevelQueue(r, side, p);
    }
  }

  // The slab is no larger than it has to be.
  lemma SlabAddsUp(r: Rep)
    requires r.Ok()
    ensures FreeOk(r.slab, r.freeList)
    ensures |r.slab| == |r.orderIndex| + |r.freeList|
    ensures |r.orderIndex| == r.Abs().Count()
  {
  }

  // The side, as the levels still to be visited in price order.
  ghost function Remaining(r: Rep, side: Side, keys: set<Price>): map<Price, seq<Order>> {
    map p | p in keys && p in r.Queues(side) :: Orders(r.slab, r.Queues(side)[p])
  }

  lemma AllRemaining(r: Rep, side: Side)
    requires r.Ok()
    ensures Flat(side, Remaining(r, side, r.Levels(side).Keys)) == r.Abs().On(side)
  {
    hide WellFormed, IndexOk, FreeOk, WalletsOk, LevelOk, Flat;
    assert Remaining(r, side, r.Levels(side).Keys) == QueueOrders(r.slab, r.Queues(side));
  }

  // Visiting the best remaining level.
  lemma NextLevel(r: Rep, side: Side, keys: set<Price>)
    requires r.Ok() && keys <= r.Levels(side).Keys && keys != {}
    ensures var p := Best(side, keys);
            && Flat(side, Remaining(r, side, keys)) ==
               LevelAt(r.Abs().On(side), p) + Flat(side, Remaining(r, side, keys - {p}))
            && LevelAt(r.Abs().On(side), p) != []
            && (forall i :: 0 <= i < |LevelAt(r.Abs().On(side), p)| ==> LevelAt(r.Abs().On(side), p)[i].price == p)
  {
    hide WellFormed, IndexOk, FreeOk, WalletsOk, LevelAt, LevelOk, AtLevel, Orders;
    var p := Best(side, keys);
    var m := Remaining(r, side, keys);
    EachSide(r, side);
    assert m.Keys == keys;
    assert m - {p} == Remaining(r, side, keys - {p});
    LevelQueue(r, side, p);
    LevelPrices(r.Abs().On(side), p);
  }

  // An indexed order's slot is in the queue of its level, once.
  lemma InQueue(r: Rep, id: OrderId)
    requires r.Ok() && id in r.orderIndex
    ensures var o, slot := OrderAt(r.slab, r.orderIndex[id]), r.orderIndex[id];
            var q := r.Queue(o.side, o.price);
            && LiveAt(r.slab, slot) && o.price in r.Levels(o.side)
            && slot in q && Distinct(q)
            && (forall k :: 0 <= k < |q| ==> LiveAt(r.slab, q[k]) && (OrderAt(r.slab, q[k]).id == id <==> q[k] == slot))
  {
    hide FreeOk, WalletsOk, WellFormed, SideOk;
    var k := Placed(r, id);
    var o := OrderAt(r.slab, r.orderIndex[id]);
    var q := r.Queue(o.side, o.price);
    forall k | 0 <= k < |q|
      ensures LiveAt(r.slab, q[k]) && (OrderAt(r.slab, q[k]).id == id <==> q[k] == r.orderIndex[id])
    {
      assert AtLevel(r.slab, q[k], o.side, o.price);
    }
  }

  // The wallet index finds exactly a wallet's live orders.
  lemma WalletIdLive(r: Rep, w: WalletId, id: OrderId)
    requires r.Ok()
    ensures id in WalletIds(r.walletIndex, w) ==>
              && id in r.orderIndex && LiveAt(r.slab, r.orderIndex[id])
              && OrderAt(r.slab, r.orderIndex[id]).id == id
  {
    hide SideOk, FreeOk, WellFormed;
  }

  lemma WalletExact(r: Rep, w: WalletId, o: Order)
    requires r.Ok()
    ensures (o.id in WalletIds(r.walletIndex, w) && o.id in r.orderIndex && OrderAt(r.slab, r.orderIndex[o.id]) == o) <==>
            (Live(r.Abs(), o.id) && Find(r.Abs(), o.id) == o && o.wallet == w)
  {
    hide SideOk, FreeOk, WellFormed, Live, Find;
    Indexed(r, o.id);
  }

  // The best price is that of the first order in price-time order.
  lemma BestIsFirst(r: Rep, side: Side)
    requires r.Ok()
    ensures r.Levels(side) == map[] <==> r.Abs().On(side) == []
    ensures r.Levels(side) != map[] ==> r.Abs().On(side)[0].price == Best(side, r.Levels(side).Keys)
  {
    hide WellFormed, IndexOk, FreeOk, WalletsOk, LevelOk, Flat;
    EachSide(r, side);
    SidePriced(r.slab, side, r.Levels(side), r.Queues(side));
    assert QueueOrders(r.slab, r.Queues(side)).Keys == r.Levels(side).Keys;
    FlatHead(side, QueueOrders(r.slab, r.Queues(side)));
  }

  // Adding

  // The slab with a node written to a vacant or a new slot.
  function Stored(slab: Slab, slot: nat, node: OrderNode): Slab
    requires slot <= |slab|
  {
    if slot < |slab| then slab[slot := Some(node)] else slab + [Some(node)]
  }

  // What linking the new node needs.
  ghost predicate ReadyToLink(r: Rep, o: Order, slot: nat, slab1: Slab, level: Level) {
    var q := r.Queue(o.side, o.price);
    && Chain(slab1, q) && slot !in q
    && Ends(level, q)
    && level.orderCount == |q| < MAX_U64
    && level.totalQty == Total(Orders(r.slab, q)) <= MAX_U64 - o.qty
  }

  lemma AddReady(r: Rep, o: Order, slot: nat)
    requires r.Ok() && o.qty > 0 && Fits(Added(r.Abs(), o))
    requires slot <= |r.slab| && !LiveAt(r.slab, slot)
    ensures ReadyToLink(r, o, slot, Stored(r.slab, slot, OrderNode(o, None, None)),
                        LevelOrEmpty(r.Levels(o.side), o.price))
  {
    hide SideOk, IndexOk, FreeOk, WalletsOk, WellFormed, Fits, Flat, LevelAt, Added;
    var slab1 := Stored(r.slab, slot, OrderNode(o, None, None));
    ReadyToAppend(r.slab, slab1, slot, o, o.side, r.Levels(o.side), r.Queues(o.side));
    SidePriced(r.slab, o.side, r.Levels(o.side), r.Queues(o.side));
    LevelOfFlat(o.side, QueueOrders(r.slab, r.Queues(o.side)), o.price);
    LevelRoom(r.Abs(), o);
  }

  // The fields after adding o in `slot`: the lists and levels ...
  ghost predicate AddLevels(r: Rep, r': Rep, o: Order, slot: nat) {
    var q := r.Queue(o.side, o.price) + [slot];
    && slot <= |r.slab| && !LiveAt(r.slab, slot)
    && OnlyLinks(Stored(r.slab, slot, OrderNode(o, None, None)), r'.slab, q)
    && r'.Levels(Opposite(o.side)) == r.Levels(Opposite(o.side))
    && r'.Queues(Opposite(o.side)) == r.Queues(Opposite(o.side))
    && r'.Queues(o.side) == r.Queues(o.side)[o.price := q]
    && o.price in r'.Levels(o.side)
    && r'.Levels(o.side) == r.Levels(o.side)[o.price := r'.Levels(o.side)[o.price]]
    && AddLevel(r, r', o, slot, r'.Levels(o.side)[o.price])
  }

  ghost predicate AddLevel(r: Rep, r': Rep, o: Order, slot: nat, level: Level) {
    var q := r.Queue(o.side, o.price);
    && Chain(r'.slab, q + [slot]) && Ends(level, q + [slot])
    && level.orderCount == |q| + 1
    && level.totalQty == Total(Orders(r.slab, q)) + o.qty
  }

  // ... and the free list and the indexes.
  ghost predicate AddKeys(r: Rep, r': Rep, o: Order, slot: nat) {
    && (r.freeList != [] ==> slot < |r.slab| && r.freeList == r'.freeList + [slot])
    && (r.freeList == [] ==> slot == |r.slab| && r'.freeList == [])
    && r'.orderIndex == r.orderIndex[o.id := slot]
    && r'.walletIndex == r.walletIndex[o.wallet := WalletIds(r.walletIndex, o.wallet) + {o.id}]
  }

  lemma AddSlots(r: Rep, r': Rep, o: Order, slot: nat)
    requires SideOk(r.slab, o.side, r.Levels(o.side), r.Queues(o.side))
    requires AddLevels(r, r', o, slot)
    ensures SlotFilled(r.slab, r'.slab, slot, o)
    ensures SameElsewhere(r.slab, r'.slab, o.side, o.price)
    ensures |r'.slab| == if slot < |r.slab| then |r.slab| else |r.slab| + 1
  {
    var slab1 := Stored(r.slab, slot, OrderNode(o, None, None));
    AppendElsewhere(r.slab, slab1, r'.slab, slot, o, r.Levels(o.side), r.Queues(o.side));
  }

  lemma AddSides(r: Rep, r': Rep, o: Order, slot: nat)
    requires SideOk(r.slab, o.side, r.Levels(o.side), r.Queues(o.side))
    requires SideOk(r.slab, Opposite(o.side), r.Levels(Opposite(o.side)), r.Queues(Opposite(o.side)))
    requires AddLevels(r, r', o, slot) && AddKeys(r, r', o, slot)
    ensures r'.SidesOk()
    ensures r'.Abs() == Added(r.Abs(), o)
  {
    AddSlots(r, r', o, slot);
    Appended(r.slab, r'.slab, slot, o, r.Levels(o.side), r'.Levels(o.side)[o.price], r.Queues(o.side));
    OtherSide(r.slab, r'.slab, o.side, o.price, r.Levels(Opposite(o.side)), r.Queues(Opposite(o.side)));
    BothSides(r, r', o.side, Insert(o.side, r.Abs().On(o.side), o));
  }

  lemma AddIndexes(r: Rep, r': Rep, o: Order, slot: nat)
    requires r.IndexesOk() && SideOk(r.slab, o.side, r.Levels(o.side), r.Queues(o.side))
    requires AddLevels(r, r', o, slot) && AddKeys(r, r', o, slot) && o.id !in r.orderIndex
    ensures r'.IndexesOk()
  {
    AddSlots(r, r', o, slot);
    FilledIndex(r.slab, r'.slab, slot, o, r.orderIndex);
    FilledWallets(r.slab, r'.slab, slot, o, r.orderIndex, r.walletIndex);
    FilledFree(r.slab, r'.slab, slot, o, r.freeList, r'.freeList);
  }

  lemma AddCount(r: Rep, r': Rep, o: Order, slot: nat)
    requires AddKeys(r, r', o, slot) && o.id !in r.orderIndex
    ensures |r'.orderIndex| == |r.orderIndex| + 1
    ensures Added(r.Abs(), o).Count() == r.Abs().Count() + 1
  {
  }

  lemma AddStep(r: Rep, r': Rep, o: Order, slot: nat)
    requires r.Ok() && o.qty > 0 && o.id !in r.orderIndex
    requires AddLevels(r, r', o, slot) && AddKeys(r, r', o, slot)
    ensures r'.Ok()
    ensures r'.Abs() == Added(r.Abs(), o)
  {
    hide SideOk, IndexOk, FreeOk, WalletsOk, WellFormed, AddLevels, AddKeys;
    assert r'.SidesOk() && r'.Abs() == Added(r.Abs(), o) by {
      EachSide(r, o.side);
      AddSides(r, r', o, slot);
    }
    assert r'.IndexesOk() by {
      EachSide(r, o.side);
      AddIndexes(r, r', o, slot);
    }
    AddCount(r, r', o, slot);
    assert WellFormed(r'.Abs()) by {
      Indexed(r, o.id);
      AddedWellFormed(r.Abs(), o);
    }
  }

  // Removing

  // Where an indexed order sits in its level's queue.
  lemma Placed(r: Rep, id: OrderId) returns (k: nat)
    requires r.Ok() && id in r.orderIndex
    ensures var slot := r.orderIndex[id];
            var o := OrderAt(r.slab, slot);
            && LiveAt(r.slab, slot) && o.id == id
            && o.price in r.Queues(o.side) && o.price in r.Levels(o.side)
            && k < |r.Queues(o.side)[o.price]| && r.Queues(o.side)[o.price][k] == slot
            && LevelOk(r.slab, o.side, o.price, r.Levels(o.side)[o.price], r.Queues(o.side)[o.price])
  {
    hide FreeOk, WalletsOk, WellFormed, LevelOk;
    var slot := r.orderIndex[id];
    var o := OrderAt(r.slab, slot);
    EachSide(r, o.side);
    var j: nat;
    k, j := Located(r.slab, o.side, r.Levels(o.side), r.Queues(o.side), slot);
  }

  // The fields after removing the order at index k of its queue: the lists and
  // levels ...
  ghost predicate RemoveLevels(r: Rep, r': Rep, slot: nat, k: nat) {
    var o := OrderAt(r.slab, slot);
    var q := r.Queue(o.side, o.price);
    && slot < |r.slab| && k < |q| && q[k] == slot
    && OnlyLinks(r.slab[slot := None], r'.slab, Without(q, k))
    && Chain(r'.slab, Without(q, k))
    && r'.Levels(Opposite(o.side)) == r.Levels(Opposite(o.side))
    && r'.Queues(Opposite(o.side)) == r.Queues(Opposite(o.side))
    && r'.Queues(o.side) == PutQueue(r.Queues(o.side), o.price, Without(q, k))
    && RemoveLevel(r, o, q, k, r.Levels(o.side), r'.Levels(o.side))
  }

  // ... and the free list and the indexes.
  ghost predicate RemoveKeys(r: Rep, r': Rep, slot: nat) {
    var o := OrderAt(r.slab, slot);
    && r'.freeList == r.freeList + [slot]
    && r'.orderIndex == r.orderIndex - {o.id}
    && r'.walletIndex == DropWalletId(r.walletIndex, o.wallet, o.id)
  }

  ghost predicate RemoveLevel(r: Rep, o: Order, q: seq<nat>, k: nat,
                              levels: map<Price, Level>, levels': map<Price, Level>)
    requires k < |q|
  {
    && (|q| == 1 ==> levels' == levels - {o.price})
    && (|q| > 1 ==>
          && o.price in levels' && levels' == levels[o.price := levels'[o.price]]
          && Ends(levels'[o.price], Without(q, k))
          && levels'[o.price].orderCount == |q| - 1
          && levels'[o.price].totalQty == Total(Orders(r.slab, q)) - o.qty)
  }

  // What unlinking the order at index k needs.
  ghost predicate ReadyToRemove(r: Rep, slot: nat, k: nat) {
    var o := OrderAt(r.slab, slot);
    var q := r.Queue(o.side, o.price);
    && LiveAt(r.slab, slot) && k < |q| && q[k] == slot
    && ChainBut(r.slab[slot := None], q, k)
    && r.slab[slot].value.prev == Before(q, k) && r.slab[slot].value.next == After(q, k)
    && o.price in r.Levels(o.side)
    && var level := r.Levels(o.side)[o.price];
       && Ends(level, q) && level.orderCount == |q|
       && level.totalQty == Total(Orders(r.slab, q)) >= o.qty
  }

  lemma RemoveReady(r: Rep, id: OrderId) returns (k: nat)
    requires r.Ok() && id in r.orderIndex
    ensures ReadyToRemove(r, r.orderIndex[id], k)
    ensures OrderAt(r.slab, r.orderIndex[id]).id == id
  {
    hide SideOk, IndexOk, FreeOk, WalletsOk, WellFormed, ChainBut;
    k := Placed(r, id);
    var o := OrderAt(r.slab, r.orderIndex[id]);
    ReadyToUnlink(r.slab, o.side, o.price, r.Levels(o.side)[o.price], r.Queue(o.side, o.price), k);
  }

  lemma RemoveSlots(r: Rep, r': Rep, id: OrderId, k: nat)
    requires r.Ok() && id in r.orderIndex && RemoveLevels(r, r', r.orderIndex[id], k)
    ensures var slot := r.orderIndex[id];
            var o := OrderAt(r.slab, slot);
            && SlotVacated(r.slab, r'.slab, slot)
            && SameElsewhere(r.slab, r'.slab, o.side, o.price)
            && |r'.slab| == |r.slab|
  {
    hide SideOk, IndexOk, FreeOk, WalletsOk, WellFormed, LevelOk, OnlyLinks, RemoveLevel, Chain;
    var o := OrderAt(r.slab, r.orderIndex[id]);
    var k1 := Placed(r, id);
    UnlinkElsewhere(r.slab, r'.slab, o.side, o.price, r.Levels(o.side)[o.price], r.Queue(o.side, o.price), k);
  }

  lemma RemoveSides(r: Rep, r': Rep, id: OrderId, k: nat)
    requires r.Ok() && id in r.orderIndex && RemoveLevels(r, r', r.orderIndex[id], k)
    ensures r'.SidesOk()
    ensures Live(r.Abs(), id) && r'.Abs() == Removed(r.Abs(), id)
  {
    hide SideOk, IndexOk, FreeOk, WalletsOk, WellFormed, LevelOk, OnlyLinks, SlotVacated, SameElsewhere, Chain;
    var o := OrderAt(r.slab, r.orderIndex[id]);
    Indexed(r, id);
    var k1 := Placed(r, id);
    RemoveSlots(r, r', id, k);
    EachSide(r, o.side);
    var j := Deleted(r.slab, r'.slab, o.side, o.price, k, r.Levels(o.side), r'.Levels(o.side), r.Queues(o.side));
    FindIs(r.Abs(), o.side, j);
    OtherSide(r.slab, r'.slab, o.side, o.price, r.Levels(Opposite(o.side)), r.Queues(Opposite(o.side)));
    BothSides(r, r', o.side, RemoveAt(r.Abs().On(o.side), j));
  }

  lemma RemoveIndexes(r: Rep, r': Rep, id: OrderId, k: nat)
    requires r.Ok() && id in r.orderIndex
    requires RemoveLevels(r, r', r.orderIndex[id], k) && RemoveKeys(r, r', r.orderIndex[id])
    ensures r'.IndexesOk() && |r'.orderIndex| == |r.orderIndex| - 1
  {
    hide SideOk, FreeOk, IndexOk, WalletsOk, WellFormed, LevelOk, OnlyLinks, SlotVacated, SameElsewhere, Chain, RemoveLevel;
    var slot := r.orderIndex[id];
    Indexed(r, id);
    RemoveSlots(r, r', id, k);
    VacatedIndex(r.slab, r'.slab, slot, r.orderIndex);
    VacatedFree(r.slab, r'.slab, slot, r.freeList);
    VacatedWallets(r.slab, r'.slab, slot, r.orderIndex, r.walletIndex);
  }

  lemma RemoveStep(r: Rep, r': Rep, id: OrderId, k: nat)
    requires r.Ok() && id in r.orderIndex
    requires RemoveLevels(r, r', r.orderIndex[id], k) && RemoveKeys(r, r', r.orderIndex[id])
    ensures r'.Ok()
    ensures Live(r.Abs(), id) && r'.Abs() == Removed(r.Abs(), id)
  {
    hide SideOk, IndexOk, FreeOk, WalletsOk, WellFormed, RemoveLevels, RemoveKeys, Live;
    RemoveSides(r, r', id, k);
    RemoveIndexes(r, r', id, k);
    RemovedWellFormed(r.Abs(), id);
  }

  // Resizing

  // The lists and levels after giving the order at index k of its queue a new
  // quantity, with or without a move to the tail.
  ghost predicate ResizeLevels(r: Rep, r': Rep, slot: nat, k: nat, qty: Qty, moved: bool) {
    var o := OrderAt(r.slab, slot);
    var q := r.Queue(o.side, o.price);
    && LiveAt(r.slab, slot) && k < |q| && q[k] == slot && o.price in r'.Levels(o.side)
    && OnlyLinks(WithQty(r.slab, slot, qty), r'.slab, q)
    && Chain(r'.slab, MovedQueue(q, k, moved))
    && r'.Levels(Opposite(o.side)) == r.Levels(Opposite(o.side))
    && r'.Queues(Opposite(o.side)) == r.Queues(Opposite(o.side))
    && r'.Queues(o.side) == r.Queues(o.side)[o.price := MovedQueue(q, k, moved)]
    && r'.Levels(o.side) == r.Levels(o.side)[o.price := r'.Levels(o.side)[o.price]]
    && ResizeLevel(r, o, q, k, qty, moved, r'.Levels(o.side)[o.price])
  }

  ghost predicate SameKeys(r: Rep, r': Rep) {
    r'.freeList == r.freeList && r'.orderIndex == r.orderIndex && r'.walletIndex == r.walletIndex
  }

  ghost predicate ResizeLevel(r: Rep, o: Order, q: seq<nat>, k: nat, qty: Qty, moved: bool, level: Level)
    requires k < |q|
  {
    && Ends(level, MovedQueue(q, k, moved))
    && level.orderCount == |q|
    && level.totalQty == Total(Orders(r.slab, q)) - o.qty + qty
  }

  // What resizing the order at index k needs.
  ghost predicate ReadyToResize(r: Rep, slot: nat, k: nat, qty: Qty) {
    var o := OrderAt(r.slab, slot);
    var q := r.Queue(o.side, o.price);
    && LiveAt(r.slab, slot) && k < |q| && q[k] == slot
    && Chain(WithQty(r.slab, slot, qty), q)
    && o.price in r.Levels(o.side)
    && var level := r.Levels(o.side)[o.price];
       && Ends(level, q) && level.orderCount == |q|
       && level.totalQty == Total(Orders(r.slab, q)) >= o.qty
       && level.totalQty - o.qty + qty <= MAX_U64
  }

  lemma ResizeFits(r: Rep, id: OrderId, qty: Qty, moved: bool)
    requires r.Ok() && id in r.orderIndex && Live(r.Abs(), id) && Fits(Moved(r.Abs(), id, qty, moved))
    ensures var o := OrderAt(r.slab, r.orderIndex[id]);
            Total(Orders(r.slab, r.Queue(o.side, o.price))) - o.qty + qty <= MAX_U64
  {
    hide SideOk, IndexOk, FreeOk, WalletsOk, WellFormed, Fits, Moved, Flat, Live;
    var o := OrderAt(r.slab, r.orderIndex[id]);
    Indexed(r, id);
    EachSide(r, o.side);
    SidePriced(r.slab, o.side, r.Levels(o.side), r.Queues(o.side));
    LevelOfFlat(o.side, QueueOrders(r.slab, r.Queues(o.side)), o.price);
    ResizeRoom(r.Abs(), id, qty, moved);
  }

  lemma ResizeReady(r: Rep, id: OrderId, qty: Qty, moved: bool) returns (k: nat)
    requires r.Ok() && id in r.orderIndex && Live(r.Abs(), id)
    requires qty <= OrderAt(r.slab, r.orderIndex[id]).qty || Fits(Moved(r.Abs(), id, qty, moved))
    ensures ReadyToResize(r, r.orderIndex[id], k, qty)
    ensures OrderAt(r.slab, r.orderIndex[id]).id == id
  {
    hide SideOk, IndexOk, FreeOk, WalletsOk, WellFormed, ChainBut, Live, Fits, Moved;
    if qty > OrderAt(r.slab, r.orderIndex[id]).qty {
      ResizeFits(r, id, qty, moved);
    }
    k := Placed(r, id);
    var o := OrderAt(r.slab, r.orderIndex[id]);
    var q := r.Queue(o.side, o.price);
    ReadyToUnlink(r.slab, o.side, o.price, r.Levels(o.side)[o.price], q, k);
    forall i | 0 <= i < |q|
      ensures Linked(WithQty(r.slab, r.orderIndex[id], qty), q, i)
    {
      assert Linked(r.slab, q, i);
    }
  }

  lemma ResizeSlots(r: Rep, r': Rep, id: OrderId, k: nat, qty: Qty, moved: bool)
    requires r.Ok() && id in r.orderIndex && ResizeLevels(r, r', r.orderIndex[id], k, qty, moved)
    ensures var slot := r.orderIndex[id];
            var o := OrderAt(r.slab, slot);
            && SlotResized(r.slab, r'.slab, slot, qty)
            && SameElsewhere(r.slab, r'.slab, o.side, o.price)
            && |r'.slab| == |r.slab|
  {
    hide SideOk, IndexOk, FreeOk, WalletsOk, WellFormed, LevelOk, OnlyLinks, ResizeLevel, Chain;
    var o := OrderAt(r.slab, r.orderIndex[id]);
    var k1 := Placed(r, id);
    ResizeElsewhere(r.slab, r'.slab, o.side, o.price, r.Levels(o.side)[o.price], r.Queue(o.side, o.price), k, qty);
  }

  lemma ResizeSides(r: Rep, r': Rep, id: OrderId, k: nat, qty: Qty, moved: bool)
    requires r.Ok() && id in r.orderIndex && ResizeLevels(r, r', r.orderIndex[id], k, qty, moved)
    ensures r'.SidesOk()
    ensures Live(r.Abs(), id) && r'.Abs() == Moved(r.Abs(), id, qty, moved)
  {
    hide SideOk, IndexOk, FreeOk, WalletsOk, WellFormed, LevelOk, OnlyLinks, SlotResized, SameElsewhere, Chain;
    var o := OrderAt(r.slab, r.orderIndex[id]);
    Indexed(r, id);
    var k1 := Placed(r, id);
    ResizeSlots(r, r', id, k, qty, moved);
    EachSide(r, o.side);
    var j := ResizedSide(r.slab, r'.slab, o.side, o.price, k, qty, moved,
                         r.Levels(o.side), r'.Levels(o.side)[o.price], r.Queues(o.side));
    FindIs(r.Abs(), o.side, j);
    OtherSide(r.slab, r'.slab, o.side, o.price, r.Levels(Opposite(o.side)), r.Queues(Opposite(o.side)));
    BothSides(r, r', o.side, MovedOrders(o.side, r.Abs().On(o.side), j, qty, moved));
  }

  lemma MovedBook(b: Book, id: OrderId, qty: Qty, moved: bool)
    requires WellFormed(b) && Live(b, id) && qty > 0
    ensures WellFormed(Moved(b, id, qty, moved))
    ensures Moved(b, id, qty, moved).Count() == b.Count()
  {
    hide WellFormed, Live;
    if moved {
      RequeuedWellFormed(b, id, qty);
    } else {
      ResizedWellFormed(b, id, qty);
    }
  }

  lemma ResizeStep(r: Rep, r': Rep, id: OrderId, k: nat, qty: Qty, moved: bool)
    requires r.Ok() && id in r.orderIndex && qty > 0
    requires ResizeLevels(r, r', r.orderIndex[id], k, qty, moved) && SameKeys(r, r')
    ensures r'.Ok()
    ensures Live(r.Abs(), id) && r'.Abs() == Moved(r.Abs(), id, qty, moved)
  {
    hide SideOk, IndexOk, FreeOk, WalletsOk, WellFormed, OnlyLinks, Chain, ResizeLevel, SlotResized, Moved, Live;
    ResizeSides(r, r', id, k, qty, moved);
    ResizeSlots(r, r', id, k, qty, moved);
    ResizedIndexes(r.slab, r'.slab, r.orderIndex[id], qty, r.orderIndex, r.freeList, r.walletIndex);
    MovedBook(r.Abs(), id, qty, moved);
  }
}
