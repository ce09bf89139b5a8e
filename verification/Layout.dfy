// What the fields of the order book must satisfy: the full representation
// invariant, over plain values, and how it survives an edit of one price level.
module Layout {
  import opened Types
  import opened PriceTime
  import opened LevelMap
  import opened Arena

  ghost predicate LevelOk(slab: Slab, side: Side, p: Price, level: Level, q: seq<nat>) {
    && q != []
    && Chain(slab, q)
    && Ends(level, q)
    && level.orderCount == |q|
    && level.totalQty == Total(Orders(slab, q))
    && forall i :: 0 <= i < |q| ==> AtLevel(slab, q[i], side, p)
  }

  ghost predicate AtLevel(slab: Slab, i: nat, side: Side, p: Price) {
    LiveAt(slab, i) && OrderAt(slab, i).side == side && OrderAt(slab, i).price == p
  }

  // One side: its levels are non-empty lists, and together they hold every live
  // node of the side.
  ghost predicate SideOk(slab: Slab, side: Side, levels: map<Price, Level>, queues: map<Price, seq<nat>>) {
    && levels.Keys == queues.Keys
    && (forall p <- queues :: LevelOk(slab, side, p, levels[p], queues[p]))
    && forall i: nat, p :: AtLevel(slab, i, side, p) ==> p in queues && i in queues[p]
  }

  // The id index holds exactly the live nodes.
  ghost predicate IndexOk(slab: Slab, index: map<OrderId, nat>) {
    && (forall id <- index :: LiveAt(slab, index[id]) && OrderAt(slab, index[id]).id == id)
    && forall i: nat :: LiveAt(slab, i) ==> OrderAt(slab, i).id in index && index[OrderAt(slab, i).id] == i
  }

  // The free list holds exactly the vacant slots, each once.
  ghost predicate FreeOk(slab: Slab, free: seq<nat>) {
    && Distinct(free)
    && (forall i :: i in free ==> i < |slab| && !LiveAt(slab, i))
    && forall i :: 0 <= i < |slab| && !LiveAt(slab, i) ==> i in free
  }

  function WalletIds(wallets: map<WalletId, set<OrderId>>, w: WalletId): set<OrderId> {
    if w in wallets then wallets[w] else {}
  }

  // The wallet index holds exactly the live orders, and no empty set.
  ghost predicate WalletsOk(slab: Slab, index: map<OrderId, nat>, wallets: map<WalletId, set<OrderId>>) {
    && (forall w <- wallets :: wallets[w] != {})
    && forall w, id: OrderId :: id in WalletIds(wallets, w) <==>
                                id in index && OrderAt(slab, index[id]).wallet == w
  }

  ghost function QueueOrders(slab: Slab, queues: map<Price, seq<nat>>): map<Price, seq<Order>> {
    map p | p in queues :: Orders(slab, queues[p])
  }

  ghost function SideOrders(slab: Slab, side: Side, queues: map<Price, seq<nat>>): seq<Order> {
    Flat(side, QueueOrders(slab, queues))
  }

  lemma SidePriced(slab: Slab, side: Side, levels: map<Price, Level>, queues: map<Price, seq<nat>>)
    requires SideOk(slab, side, levels, queues)
    ensures Priced(QueueOrders(slab, queues))
  {
  }

  // Nothing but nodes of one level, before or after, differs between two slabs.
  ghost predicate SameElsewhere(slab: Slab, slab': Slab, side: Side, p: Price) {
    && (forall i: nat :: LiveAt(slab, i) && !AtLevel(slab, i, side, p) ==> i < |slab'| && slab'[i] == slab[i])
    && forall i: nat :: LiveAt(slab', i) && !AtLevel(slab', i, side, p) ==> i < |slab| && slab'[i] == slab[i]
  }

  lemma OtherLevel(slab: Slab, slab': Slab, side: Side, p: Price, side1: Side, p1: Price, level: Level, q: seq<nat>)
    requires SameElsewhere(slab, slab', side, p) && (side1 != side || p1 != p)
    requires LevelOk(slab, side1, p1, level, q)
    ensures LevelOk(slab', side1, p1, level, q)
    ensures Orders(slab', q) == Orders(slab, q)
  {
    forall i | 0 <= i < |q|
      ensures slab'[q[i]] == slab[q[i]] && q[i] < |slab'|
    {
      assert AtLevel(slab, q[i], side1, p1);
    }
    forall i | 0 <= i < |q|
      ensures Linked(slab', q, i) && AtLevel(slab', q[i], side1, p1)
    {
      assert Linked(slab, q, i);
    }
    assert Orders(slab', q) == Orders(slab, q);
  }

  lemma OtherSide(slab: Slab, slab': Slab, side: Side, p: Price, levels: map<Price, Level>, queues: map<Price, seq<nat>>)
    requires SameElsewhere(slab, slab', side, p)
    requires SideOk(slab, Opposite(side), levels, queues)
    ensures SideOk(slab', Opposite(side), levels, queues)
    ensures SideOrders(slab', Opposite(side), queues) == SideOrders(slab, Opposite(side), queues)
  {
    forall r | r in queues
      ensures LevelOk(slab', Opposite(side), r, levels[r], queues[r])
      ensures Orders(slab', queues[r]) == Orders(slab, queues[r])
    {
      OtherLevel(slab, slab', side, p, Opposite(side), r, levels[r], queues[r]);
    }
    assert QueueOrders(slab', queues) == QueueOrders(slab, queues);
    forall i: nat, r | AtLevel(slab', i, Opposite(side), r)
      ensures r in queues && i in queues[r]
    {
      assert AtLevel(slab, i, Opposite(side), r);
    }
  }

  ghost function QueueAt(queues: map<Price, seq<nat>>, p: Price): seq<nat> {
    if p in queues then queues[p] else []
  }

  ghost function PutQueue(queues: map<Price, seq<nat>>, p: Price, q: seq<nat>): map<Price, seq<nat>> {
    if q == [] then queues - {p} else queues[p := q]
  }

  lemma EditedLevels(slab: Slab, slab': Slab, side: Side, p: Price,
                     levels: map<Price, Level>, queues: map<Price, seq<nat>>, r: Price)
    requires SideOk(slab, side, levels, queues)
    requires SameElsewhere(slab, slab', side, p)
    requires r in queues && r != p
    ensures LevelOk(slab', side, r, levels[r], queues[r])
    ensures Orders(slab', queues[r]) == Orders(slab, queues[r])
  {
    OtherLevel(slab, slab', side, p, side, r, levels[r], queues[r]);
  }

  lemma EditedCover(slab: Slab, slab': Slab, side: Side, p: Price,
                    levels: map<Price, Level>, queues: map<Price, seq<nat>>, q: seq<nat>, i: nat, r: Price)
    requires SideOk(slab, side, levels, queues)
    requires SameElsewhere(slab, slab', side, p)
    requires forall i: nat :: AtLevel(slab', i, side, p) ==> i in q
    requires AtLevel(slab', i, side, r)
    ensures r in PutQueue(queues, p, q) && i in PutQueue(queues, p, q)[r]
  {
    if r != p {
      assert !AtLevel(slab', i, side, p);
      assert AtLevel(slab, i, side, r);
    }
  }

  // Replacing one level of a side, with its nodes.
  lemma SideEdit(slab: Slab, slab': Slab, side: Side, p: Price,
                 levels: map<Price, Level>, levels': map<Price, Level>,
                 queues: map<Price, seq<nat>>, q: seq<nat>)
    requires SideOk(slab, side, levels, queues)
    requires SameElsewhere(slab, slab', side, p)
    requires q == [] ==> levels' == levels - {p}
    requires q != [] ==> p in levels' && levels' == levels[p := levels'[p]] &&
                         LevelOk(slab', side, p, levels'[p], q)
    requires forall i: nat :: AtLevel(slab', i, side, p) ==> i in q
    ensures SideOk(slab', side, levels', PutQueue(queues, p, q))
    ensures QueueOrders(slab', PutQueue(queues, p, q)) == Put(QueueOrders(slab, queues), p, Orders(slab', q))
  {
    hide LevelOk, AtLevel, Orders;
    var queues' := PutQueue(queues, p, q);
    assert levels'.Keys == queues'.Keys;
    forall r | r in queues'
      ensures LevelOk(slab', side, r, levels'[r], queues'[r])
      ensures r != p ==> Orders(slab', queues'[r]) == Orders(slab, queues[r])
    {
      if r != p {
        EditedLevels(slab, slab', side, p, levels, queues, r);
      }
    }
    forall i: nat, r | AtLevel(slab', i, side, r)
      ensures r in queues' && i in queues'[r]
    {
      EditedCover(slab, slab', side, p, levels, queues, q, i, r);
    }
    EditedQueues(slab, slab', p, queues, q);
  }

  lemma EditedQueues(slab: Slab, slab': Slab, p: Price, queues: map<Price, seq<nat>>, q: seq<nat>)
    requires forall r <- queues :: r != p ==> Orders(slab', queues[r]) == Orders(slab, queues[r])
    ensures QueueOrders(slab', PutQueue(queues, p, q)) == Put(QueueOrders(slab, queues), p, Orders(slab', q))
  {
  }

  // A live node is at index k of its queue and at index j of its side.
  lemma Located(slab: Slab, side: Side, levels: map<Price, Level>, queues: map<Price, seq<nat>>, slot: nat)
    returns (k: nat, j: nat)
    requires SideOk(slab, side, levels, queues)
    requires LiveAt(slab, slot) && OrderAt(slab, slot).side == side
    ensures var p := OrderAt(slab, slot).price;
            p in queues && k < |queues[p]| && queues[p][k] == slot
    ensures j < |SideOrders(slab, side, queues)| && SideOrders(slab, side, queues)[j] == OrderAt(slab, slot)
  {
    hide Flat, Put;
    var p := OrderAt(slab, slot).price;
    assert AtLevel(slab, slot, side, p);
    k :| 0 <= k < |queues[p]| && queues[p][k] == slot;
    SidePriced(slab, side, levels, queues);
    j := DeleteIsRemove(side, QueueOrders(slab, queues), p, k);
  }

  // Every order of a side sits in a live slot of that side.
  lemma Slotted(slab: Slab, side: Side, levels: map<Price, Level>, queues: map<Price, seq<nat>>, j: nat)
    returns (slot: nat)
    requires SideOk(slab, side, levels, queues) && j < |SideOrders(slab, side, queues)|
    ensures LiveAt(slab, slot) && OrderAt(slab, slot) == SideOrders(slab, side, queues)[j]
    ensures OrderAt(slab, slot).side == side
  {
    hide Flat;
    var m := QueueOrders(slab, queues);
    FlatMember(side, m, j);
    var p :| p in m && Flat(side, m)[j] in m[p];
    var k :| 0 <= k < |m[p]| && m[p][k] == Flat(side, m)[j];
    slot := queues[p][k];
    assert AtLevel(slab, slot, side, p);
  }

  // An id is indexed exactly when the abstract book holds it.
  lemma IndexedIsLive(slab: Slab, index: map<OrderId, nat>, side: Side,
                      levels: map<Price, Level>, queues: map<Price, seq<nat>>, id: OrderId)
    requires IndexOk(slab, index) && SideOk(slab, side, levels, queues)
    ensures HasId(SideOrders(slab, side, queues), id) <==> id in index && OrderAt(slab, index[id]).side == side
  {
    hide SideOk, SideOrders;
    var s := SideOrders(slab, side, queues);
    if HasId(s, id) {
      var j :| 0 <= j < |s| && s[j].id == id;
      var slot := Slotted(slab, side, levels, queues, j);
    }
    if id in index && OrderAt(slab, index[id]).side == side {
      var k, j := Located(slab, side, levels, queues, index[id]);
    }
  }

  lemma OrdersAppend(slab: Slab, q: seq<nat>, slot: nat)
    ensures Orders(slab, q + [slot]) == Orders(slab, q) + [OrderAt(slab, slot)]
  {
  }

  lemma OrdersWithout(slab: Slab, q: seq<nat>, k: nat)
    requires k < |q|
    ensures Orders(slab, Without(q, k)) == RemoveAt(Orders(slab, q), k)
  {
  }

  lemma OrdersSame(slab: Slab, slab': Slab, q: seq<nat>)
    requires forall i :: 0 <= i < |q| ==> OrderAt(slab', q[i]) == OrderAt(slab, q[i])
    ensures Orders(slab', q) == Orders(slab, q)
  {
  }

  // How an operation changes the slots seen as a set of orders.

  ghost predicate SameBut(slab: Slab, slab': Slab, slot: nat) {
    forall i: nat :: i != slot ==> LiveAt(slab', i) == LiveAt(slab, i) && OrderAt(slab', i) == OrderAt(slab, i)
  }

  // A vacant slot was filled.
  ghost predicate SlotFilled(slab: Slab, slab': Slab, slot: nat, o: Order) {
    && !LiveAt(slab, slot) && LiveAt(slab', slot) && OrderAt(slab', slot) == o
    && SameBut(slab, slab', slot)
  }

  // A live slot was vacated.
  ghost predicate SlotVacated(slab: Slab, slab': Slab, slot: nat) {
    && LiveAt(slab, slot) && !LiveAt(slab', slot)
    && SameBut(slab, slab', slot)
  }

  // A live order kept everything but its quantity.
  ghost predicate SlotResized(slab: Slab, slab': Slab, slot: nat, q: Qty) {
    && LiveAt(slab, slot) && LiveAt(slab', slot) && OrderAt(slab', slot) == OrderAt(slab, slot).(qty := q)
    && SameBut(slab, slab', slot)
  }

  lemma FilledIndex(slab: Slab, slab': Slab, slot: nat, o: Order, index: map<OrderId, nat>)
    requires IndexOk(slab, index) && SlotFilled(slab, slab', slot, o) && o.id !in index
    ensures IndexOk(slab', index[o.id := slot])
  {
  }

  lemma FilledWallets(slab: Slab, slab': Slab, slot: nat, o: Order, index: map<OrderId, nat>,
                      wallets: map<WalletId, set<OrderId>>)
    requires IndexOk(slab, index) && SlotFilled(slab, slab', slot, o) && o.id !in index
    requires WalletsOk(slab, index, wallets)
    ensures WalletsOk(slab', index[o.id := slot], wallets[o.wallet := WalletIds(wallets, o.wallet) + {o.id}])
  {
    var wallets' := wallets[o.wallet := WalletIds(wallets, o.wallet) + {o.id}];
    var index' := index[o.id := slot];
    forall w, id: OrderId
      ensures id in WalletIds(wallets', w) <==> id in index' && OrderAt(slab', index'[id]).wallet == w
    {
      assert id in WalletIds(wallets, w) <==> id in index && OrderAt(slab, index[id]).wallet == w;
      assert id in WalletIds(wallets', w) <==> id in WalletIds(wallets, w) || (w == o.wallet && id == o.id);
    }
  }

  lemma FilledFree(slab: Slab, slab': Slab, slot: nat, o: Order, free: seq<nat>, free': seq<nat>)
    requires FreeOk(slab, free) && SlotFilled(slab, slab', slot, o)
    requires free != [] ==> |slab'| == |slab| && free == free' + [slot]
    requires free == [] ==> |slab'| == |slab| + 1 && free' == [] && slot == |slab|
    ensures FreeOk(slab', free')
  {
    if free != [] {
      assert free[|free'|] == slot;
      forall i | 0 <= i < |free'|
        ensures free'[i] == free[i] != slot
      {
        assert free[i] != free[|free'|];
      }
      assert forall i :: i in free <==> i in free' || i == slot;
    }
  }

  lemma VacatedIndex(slab: Slab, slab': Slab, slot: nat, index: map<OrderId, nat>)
    requires IndexOk(slab, index) && SlotVacated(slab, slab', slot)
    ensures IndexOk(slab', index - {OrderAt(slab, slot).id})
    ensures |index - {OrderAt(slab, slot).id}| == |index| - 1
  {
    var id := OrderAt(slab, slot).id;
    assert index == (index - {id})[id := slot];
  }

  lemma VacatedFree(slab: Slab, slab': Slab, slot: nat, free: seq<nat>)
    requires FreeOk(slab, free) && SlotVacated(slab, slab', slot) && |slab'| == |slab|
    ensures FreeOk(slab', free + [slot])
  {
    assert slot !in free;
    forall i | i in free + [slot]
      ensures i < |slab'| && !LiveAt(slab', i)
    {
    }
    forall i: nat | i < |slab'| && !LiveAt(slab', i)
      ensures i in free + [slot]
    {
      assert i == slot || i in free;
    }
  }

  function DropWalletId(wallets: map<WalletId, set<OrderId>>, w: WalletId, id: OrderId): map<WalletId, set<OrderId>> {
    if w in wallets then
      var rest := wallets[w] - {id};
      if rest == {} then wallets - {w} else wallets[w := rest]
    else
      wallets
  }

  lemma VacatedWallets(slab: Slab, slab': Slab, slot: nat, index: map<OrderId, nat>,
                       wallets: map<WalletId, set<OrderId>>)
    requires IndexOk(slab, index) && SlotVacated(slab, slab', slot)
    requires WalletsOk(slab, index, wallets)
    ensures var o := OrderAt(slab, slot);
            WalletsOk(slab', index - {o.id}, DropWalletId(wallets, o.wallet, o.id))
  {
    var o := OrderAt(slab, slot);
    var wallets' := DropWalletId(wallets, o.wallet, o.id);
    var index' := index - {o.id};
    forall w, id: OrderId
      ensures id in WalletIds(wallets', w) <==> id in index' && OrderAt(slab', index'[id]).wallet == w
    {
      assert id in WalletIds(wallets, w) <==> id in index && OrderAt(slab, index[id]).wallet == w;
      assert id in WalletIds(wallets', w) <==> id in WalletIds(wallets, w) && !(w == o.wallet && id == o.id);
    }
  }

  lemma ResizedIndexes(slab: Slab, slab': Slab, slot: nat, q: Qty, index: map<OrderId, nat>,
                       free: seq<nat>, wallets: map<WalletId, set<OrderId>>)
    requires IndexOk(slab, index) && FreeOk(slab, free) && WalletsOk(slab, index, wallets)
    requires SlotResized(slab, slab', slot, q) && |slab'| == |slab|
    ensures IndexOk(slab', index) && FreeOk(slab', free) && WalletsOk(slab', index, wallets)
  {
  }

  // Adding an order: the new node is linked at the tail of its level.

  function LevelOrEmpty(levels: map<Price, Level>, p: Price): Level {
    if p in levels then levels[p] else EMPTY_LEVEL
  }

  // The level as it is before a new node in `slot` is linked.
  lemma ReadyToAppend(slab: Slab, slab1: Slab, slot: nat, o: Order, side: Side,
                      levels: map<Price, Level>, queues: map<Price, seq<nat>>)
    requires SideOk(slab, side, levels, queues) && o.side == side
    requires !LiveAt(slab, slot) && LiveAt(slab1, slot)
    requires forall i: nat :: LiveAt(slab, i) ==> i < |slab1| && slab1[i] == slab[i]
    ensures var q := QueueAt(queues, o.price);
            && Chain(slab1, q) && slot !in q
            && Ends(LevelOrEmpty(levels, o.price), q)
            && LevelOrEmpty(levels, o.price).orderCount == |q|
            && LevelOrEmpty(levels, o.price).totalQty == Total(Orders(slab, q))
            && Orders(slab, q) == Get(QueueOrders(slab, queues), o.price)
  {
    var q := QueueAt(queues, o.price);
    forall i | 0 <= i < |q|
      ensures Linked(slab1, q, i)
    {
      assert Linked(slab, q, i);
    }
  }

  lemma AppendElsewhere(slab: Slab, slab1: Slab, slab': Slab, slot: nat, o: Order,
                        levels: map<Price, Level>, queues: map<Price, seq<nat>>)
    requires SideOk(slab, o.side, levels, queues)
    requires SlotFilled(slab, slab1, slot, o)
    requires forall i: nat :: LiveAt(slab, i) ==> i < |slab1| && slab1[i] == slab[i]
    requires OnlyLinks(slab1, slab', QueueAt(queues, o.price) + [slot])
    ensures SlotFilled(slab, slab', slot, o)
    ensures SameElsewhere(slab, slab', o.side, o.price)
  {
    var q := QueueAt(queues, o.price);
    assert slot < |slab1|;
    forall i: nat
      ensures LiveAt(slab', i) == LiveAt(slab1, i) && OrderAt(slab', i) == OrderAt(slab1, i)
    {
      if i >= |slab1| {
        assert !LiveAt(slab', i);
      }
    }
    forall i: nat | LiveAt(slab', i) && !AtLevel(slab', i, o.side, o.price)
      ensures i < |slab| && slab'[i] == slab[i]
    {
      assert i != slot && !AtLevel(slab, i, o.side, o.price);
      assert i !in q + [slot];
    }
  }

  lemma Appended(slab: Slab, slab': Slab, slot: nat, o: Order,
                 levels: map<Price, Level>, level: Level, queues: map<Price, seq<nat>>)
    requires SideOk(slab, o.side, levels, queues)
    requires SlotFilled(slab, slab', slot, o)
    requires SameElsewhere(slab, slab', o.side, o.price)
    requires var q := QueueAt(queues, o.price);
             && Chain(slab', q + [slot]) && Ends(level, q + [slot])
             && level.orderCount == |q| + 1
             && level.totalQty == Total(Orders(slab, q)) + o.qty
    ensures var q := QueueAt(queues, o.price);
            && SideOk(slab', o.side, levels[o.price := level], queues[o.price := q + [slot]])
            && SideOrders(slab', o.side, queues[o.price := q + [slot]]) ==
               Insert(o.side, SideOrders(slab, o.side, queues), o)
  {
    var q := QueueAt(queues, o.price);
    var q' := q + [slot];
    forall i | 0 <= i < |q|
      ensures OrderAt(slab', q[i]) == OrderAt(slab, q[i])
    {
      assert AtLevel(slab, q[i], o.side, o.price);
    }
    OrdersSame(slab, slab', q);
    OrdersAppend(slab', q, slot);
    TotalAppend(Orders(slab, q), o);
    forall i | 0 <= i < |q'|
      ensures AtLevel(slab', q'[i], o.side, o.price)
    {
      if i < |q| {
        assert AtLevel(slab, q[i], o.side, o.price);
      }
    }
    forall i: nat | AtLevel(slab', i, o.side, o.price)
      ensures i in q'
    {
      if i != slot {
        assert AtLevel(slab, i, o.side, o.price);
      }
    }
    SideEdit(slab, slab', o.side, o.price, levels, levels[o.price := level], queues, q');
    SidePriced(slab, o.side, levels, queues);
    AppendIsInsert(o.side, QueueOrders(slab, queues), o);
  }

  // Removing an order: its node is vacated and its level closed around it.

  lemma ReadyToUnlink(slab: Slab, side: Side, p: Price, level: Level, q: seq<nat>, k: nat)
    requires LevelOk(slab, side, p, level, q) && k < |q|
    ensures ChainBut(slab[q[k] := None], q, k) && Ends(level, q)
    ensures slab[q[k]].value.prev == Before(q, k) && slab[q[k]].value.next == After(q, k)
    ensures level.orderCount == |q| && level.totalQty >= OrderAt(slab, q[k]).qty
  {
    assert Linked(slab, q, k);
    var slab1 := slab[q[k] := None];
    forall i | 0 <= i < |q| && i != k
      ensures Linked(slab1, q, i)
    {
      assert Linked(slab, q, i);
    }
    TotalSplit(Orders(slab, q), k);
  }

  lemma UnlinkElsewhere(slab: Slab, slab': Slab, side: Side, p: Price, level: Level, q: seq<nat>, k: nat)
    requires LevelOk(slab, side, p, level, q) && k < |q|
    requires OnlyLinks(slab[q[k] := None], slab', Without(q, k))
    ensures SlotVacated(slab, slab', q[k])
    ensures SameElsewhere(slab, slab', side, p)
    ensures |slab'| == |slab|
  {
    var slot := q[k];
    assert AtLevel(slab, slot, side, p);
    var slab1 := slab[slot := None];
    forall i: nat
      ensures LiveAt(slab', i) == LiveAt(slab1, i) && OrderAt(slab', i) == OrderAt(slab1, i)
    {
      if i >= |slab1| {
        assert !LiveAt(slab', i) && !LiveAt(slab1, i);
      }
    }
    forall i: nat | i < |slab| && !AtLevel(slab, i, side, p)
      ensures slab'[i] == slab[i]
    {
      assert i !in q;
      assert forall j :: j in Without(q, k) ==> j in q;
    }
    forall i: nat | LiveAt(slab', i)
      ensures AtLevel(slab', i, side, p) == AtLevel(slab, i, side, p)
    {
      assert i != slot;
    }
  }

  // The level after the removal.
  lemma DeletedLevel(slab: Slab, slab': Slab, side: Side, p: Price, level: Level, level': Level, q: seq<nat>, k: nat)
    requires LevelOk(slab, side, p, level, q) && 0 <= k < |q|
    requires SlotVacated(slab, slab', q[k])
    requires SameElsewhere(slab, slab', side, p)
    requires Chain(slab', Without(q, k))
    requires |q| > 1 ==>
               && Ends(level', Without(q, k))
               && level'.orderCount == |q| - 1
               && level'.totalQty == Total(Orders(slab, q)) - OrderAt(slab, q[k]).qty
    ensures |q| > 1 ==> LevelOk(slab', side, p, level', Without(q, k))
    ensures Orders(slab', Without(q, k)) == RemoveAt(Orders(slab, q), k)
  {
    var q' := Without(q, k);
    WithoutElements(q, k);
    forall i | 0 <= i < |q'|
      ensures OrderAt(slab', q'[i]) == OrderAt(slab, q'[i]) && AtLevel(slab', q'[i], side, p)
    {
      assert AtLevel(slab, q[if i < k then i else i + 1], side, p);
    }
    OrdersSame(slab, slab', q');
    OrdersWithout(slab, q, k);
    TotalRemoveAt(Orders(slab, q), k);
  }

  lemma DeletedCover(slab: Slab, slab': Slab, side: Side, p: Price,
                     levels: map<Price, Level>, queues: map<Price, seq<nat>>, k: nat)
    requires SideOk(slab, side, levels, queues) && p in queues && k < |queues[p]|
    requires SlotVacated(slab, slab', queues[p][k])
    ensures forall i: nat :: AtLevel(slab', i, side, p) ==> i in Without(queues[p], k)
  {
    var q := queues[p];
    assert LevelOk(slab, side, p, levels[p], q);
    WithoutElements(q, k);
    forall i: nat | AtLevel(slab', i, side, p)
      ensures i in Without(q, k)
    {
      assert AtLevel(slab, i, side, p);
    }
  }

  lemma Deleted(slab: Slab, slab': Slab, side: Side, p: Price, k: nat,
                levels: map<Price, Level>, levels': map<Price, Level>, queues: map<Price, seq<nat>>)
    returns (j: nat)
    requires SideOk(slab, side, levels, queues) && p in queues && k < |queues[p]|
    requires SlotVacated(slab, slab', queues[p][k])
    requires SameElsewhere(slab, slab', side, p)
    requires Chain(slab', Without(queues[p], k))
    requires |queues[p]| == 1 ==> levels' == levels - {p}
    requires |queues[p]| > 1 ==>
               && p in levels' && levels' == levels[p := levels'[p]]
               && Ends(levels'[p], Without(queues[p], k))
               && levels'[p].orderCount == |queues[p]| - 1
               && levels'[p].totalQty == Total(Orders(slab, queues[p])) - OrderAt(slab, queues[p][k]).qty
    ensures SideOk(slab', side, levels', PutQueue(queues, p, Without(queues[p], k)))
    ensures j < |SideOrders(slab, side, queues)|
    ensures SideOrders(slab, side, queues)[j] == OrderAt(slab, queues[p][k])
    ensures SideOrders(slab', side, PutQueue(queues, p, Without(queues[p], k))) ==
            RemoveAt(SideOrders(slab, side, queues), j)
  {
    hide LevelOk, AtLevel, SlotVacated, SameElsewhere, Chain, Flat, Put, Total;
    var q := queues[p];
    DeletedLevel(slab, slab', side, p, levels[p], if |q| > 1 then levels'[p] else levels[p], q, k);
    DeletedCover(slab, slab', side, p, levels, queues, k);
    SideEdit(slab, slab', side, p, levels, levels', queues, Without(q, k));
    SidePriced(slab, side, levels, queues);
    j := DeleteIsRemove(side, QueueOrders(slab, queues), p, k);
  }

  lemma WithoutElements(q: seq<nat>, k: nat)
    requires k < |q| && Distinct(q)
    ensures forall i :: 0 <= i < |Without(q, k)| ==> Without(q, k)[i] == q[if i < k then i else i + 1]
    ensures forall x :: x in Without(q, k) <==> x in q && x != q[k]
  {
    var r := Without(q, k);
    forall x | x in q && x != q[k]
      ensures x in r
    {
      var i :| 0 <= i < |q| && q[i] == x;
      assert r[if i < k then i else i - 1] == x;
    }
  }

  // Changing an order's quantity, in place or with a move to the tail.

  ghost function MovedQueue(q: seq<nat>, k: nat, moved: bool): seq<nat>
    requires k < |q|
  {
    if moved then Without(q, k) + [q[k]] else q
  }

  ghost function MovedOrders(side: Side, s: seq<Order>, j: nat, qty: Qty, moved: bool): seq<Order>
    requires j < |s|
  {
    if moved then RequeueAt(side, s, j, qty) else ResizeAt(s, j, qty)
  }

  lemma MovedElements(q: seq<nat>, k: nat, moved: bool)
    requires k < |q| && Distinct(q)
    ensures |MovedQueue(q, k, moved)| == |q|
    ensures forall x :: x in MovedQueue(q, k, moved) <==> x in q
  {
    WithoutElements(q, k);
  }

  // The level's orders after the change.
  lemma ResizedOrders(slab: Slab, slab': Slab, q: seq<nat>, k: nat, qty: Qty, moved: bool)
    requires k < |q| && Distinct(q) && SlotResized(slab, slab', q[k], qty)
    ensures Orders(slab', MovedQueue(q, k, moved)) ==
            if moved then RemoveAt(Orders(slab, q), k) + [Orders(slab, q)[k].(qty := qty)]
            else ResizeAt(Orders(slab, q), k, qty)
    ensures Total(Orders(slab', MovedQueue(q, k, moved))) ==
            Total(Orders(slab, q)) - OrderAt(slab, q[k]).qty + qty
  {
    var l := Orders(slab, q);
    if moved {
      WithoutElements(q, k);
      OrdersSame(slab, slab', Without(q, k));
      OrdersAppend(slab', Without(q, k), q[k]);
      OrdersWithout(slab, q, k);
      TotalRemoveAt(l, k);
      TotalAppend(RemoveAt(l, k), l[k].(qty := qty));
    } else {
      TotalResizeAt(l, k, qty);
    }
  }

  function WithQty(slab: Slab, slot: nat, qty: Qty): Slab
    requires LiveAt(slab, slot)
  {
    var node := slab[slot].value;
    slab[slot := Some(node.(order := node.order.(qty := qty)))]
  }

  lemma ResizeElsewhere(slab: Slab, slab': Slab, side: Side, p: Price, level: Level, q: seq<nat>, k: nat, qty: Qty)
    requires LevelOk(slab, side, p, level, q) && k < |q|
    requires LiveAt(slab, q[k]) && OnlyLinks(WithQty(slab, q[k], qty), slab', q)
    ensures SlotResized(slab, slab', q[k], qty)
    ensures SameElsewhere(slab, slab', side, p)
    ensures |slab'| == |slab|
  {
    var slot := q[k];
    assert AtLevel(slab, slot, side, p);
    var slab1 := WithQty(slab, slot, qty);
    forall i: nat
      ensures LiveAt(slab', i) == LiveAt(slab1, i) && OrderAt(slab', i) == OrderAt(slab1, i)
    {
      if i >= |slab1| {
        assert !LiveAt(slab', i) && !LiveAt(slab1, i);
      }
    }
    forall i: nat | i < |slab| && !AtLevel(slab, i, side, p)
      ensures slab'[i] == slab[i]
    {
      assert i !in q;
    }
    assert forall i: nat :: AtLevel(slab', i, side, p) == AtLevel(slab, i, side, p);
  }

  lemma ResizedLevel(slab: Slab, slab': Slab, side: Side, p: Price, level: Level, level': Level,
                     q: seq<nat>, k: nat, qty: Qty, moved: bool)
    requires LevelOk(slab, side, p, level, q) && k < |q|
    requires SlotResized(slab, slab', q[k], qty)
    requires Chain(slab', MovedQueue(q, k, moved)) && Ends(level', MovedQueue(q, k, moved))
    requires level'.orderCount == |q|
    requires level'.totalQty == Total(Orders(slab, q)) - OrderAt(slab, q[k]).qty + qty
    ensures LevelOk(slab', side, p, level', MovedQueue(q, k, moved))
  {
    var q' := MovedQueue(q, k, moved);
    MovedElements(q, k, moved);
    forall i | 0 <= i < |q'|
      ensures AtLevel(slab', q'[i], side, p)
    {
      assert q'[i] in q;
      assert AtLevel(slab, q'[i], side, p);
    }
    ResizedOrders(slab, slab', q, k, qty, moved);
  }

  lemma ResizedCover(slab: Slab, slab': Slab, side: Side, p: Price,
                     levels: map<Price, Level>, queues: map<Price, seq<nat>>, k: nat, qty: Qty, moved: bool)
    requires SideOk(slab, side, levels, queues) && p in queues && k < |queues[p]|
    requires SlotResized(slab, slab', queues[p][k], qty)
    ensures forall i: nat :: AtLevel(slab', i, side, p) ==> i in MovedQueue(queues[p], k, moved)
  {
    assert LevelOk(slab, side, p, levels[p], queues[p]);
    MovedElements(queues[p], k, moved);
    forall i: nat | AtLevel(slab', i, side, p)
      ensures i in MovedQueue(queues[p], k, moved)
    {
      assert AtLevel(slab, i, side, p);
    }
  }

  lemma ResizedSide(slab: Slab, slab': Slab, side: Side, p: Price, k: nat, qty: Qty, moved: bool,
                    levels: map<Price, Level>, level: Level, queues: map<Price, seq<nat>>)
    returns (j: nat)
    requires SideOk(slab, side, levels, queues) && p in queues && k < |queues[p]|
    requires SlotResized(slab, slab', queues[p][k], qty)
    requires SameElsewhere(slab, slab', side, p)
    requires Chain(slab', MovedQueue(queues[p], k, moved)) && Ends(level, MovedQueue(queues[p], k, moved))
    requires level.orderCount == |queues[p]|
    requires level.totalQty == Total(Orders(slab, queues[p])) - OrderAt(slab, queues[p][k]).qty + qty
    ensures SideOk(slab', side, levels[p := level], queues[p := MovedQueue(queues[p], k, moved)])
    ensures j < |SideOrders(slab, side, queues)|
    ensures SideOrders(slab, side, queues)[j] == OrderAt(slab, queues[p][k])
    ensures SideOrders(slab', side, queues[p := MovedQueue(queues[p], k, moved)]) ==
            MovedOrders(side, SideOrders(slab, side, queues), j, qty, moved)
  {
    hide AtLevel, SlotResized, SameElsewhere, Flat, Total, RequeueAt, ResizeAt;
    var q := queues[p];
    var q' := MovedQueue(q, k, moved);
    assert Distinct(q) && q' != [] by {
      assert LevelOk(slab, side, p, levels[p], q);
      MovedElements(q, k, moved);
    }
    hide LevelOk, Chain;
    ResizedLevel(slab, slab', side, p, levels[p], level, q, k, qty, moved);
    ResizedCover(slab, slab', side, p, levels, queues, k, qty, moved);
    ResizedOrders(slab, slab', q, k, qty, moved);
    SideEdit(slab, slab', side, p, levels, levels[p := level], queues, q');
    SidePriced(slab, side, levels, queues);
    var m := QueueOrders(slab, queues);
    if moved {
      j := MoveIsRequeue(side, m, p, k, qty);
    } else {
      j := UpdateIsResize(side, m, p, k, qty);
    }
  }
}
