// The slab of order nodes and the doubly-linked FIFO lists threaded through it
// (src/level.rs and the three list functions of src/book.rs). The lists are
// described by ghost sequences of slots.
module Arena {
  import opened Types

  datatype Level = Level(orderCount: u64, totalQty: Qty, head: Option<nat>, tail: Option<nat>)

  const EMPTY_LEVEL := Level(0, 0, None, None)

  datatype OrderNode = OrderNode(order: Order, next: Option<nat>, prev: Option<nat>)

  type Slab = seq<Option<OrderNode>>

  predicate LiveAt(slab: Slab, i: nat) {
    i < |slab| && slab[i].Some?
  }

  // The order in a live slot (a fixed dummy in a vacant one).
  ghost function OrderAt(slab: Slab, i: nat): Order {
    if LiveAt(slab, i) then slab[i].value.order else Order(0, WalletId(0), Bid, 0, 0, 0)
  }

  ghost function Orders(slab: Slab, q: seq<nat>): (s: seq<Order>)
    ensures |s| == |q|
  {
    seq(|q|, i requires 0 <= i < |q| => OrderAt(slab, q[i]))
  }

  ghost function Before(q: seq<nat>, i: nat): Option<nat>
    requires i < |q|
  {
    if i == 0 then None else Some(q[i - 1])
  }

  ghost function After(q: seq<nat>, i: nat): Option<nat>
    requires i < |q|
  {
    if i + 1 == |q| then None else Some(q[i + 1])
  }

  ghost predicate Linked(slab: Slab, q: seq<nat>, i: nat)
    requires i < |q|
  {
    LiveAt(slab, q[i]) && slab[q[i]].value.prev == Before(q, i) && slab[q[i]].value.next == After(q, i)
  }

  ghost predicate Distinct(q: seq<nat>) {
    forall i, j :: 0 <= i < j < |q| ==> q[i] != q[j]
  }

  // The nodes of q form a doubly-linked list in this order.
  ghost predicate Chain(slab: Slab, q: seq<nat>) {
    && Distinct(q)
    && forall i :: 0 <= i < |q| ==> Linked(slab, q, i)
  }

  ghost predicate Ends(level: Level, q: seq<nat>) {
    if q == [] then level.head == None && level.tail == None
    else level.head == Some(q[0]) && level.tail == Some(q[|q| - 1])
  }

  // Slots outside `touched` are identical, and no order is changed anywhere.
  ghost predicate OnlyLinks(slab: Slab, slab': Slab, touched: seq<nat>) {
    && |slab'| == |slab|
    && (forall i :: 0 <= i < |slab| ==> LiveAt(slab, i) == LiveAt(slab', i))
    && (forall i :: 0 <= i < |slab| ==> OrderAt(slab, i) == OrderAt(slab', i))
    && (forall i :: 0 <= i < |slab| && i !in touched ==> slab'[i] == slab[i])
  }

  ghost function Without(q: seq<nat>, k: nat): seq<nat>
    requires k < |q|
  {
    q[..k] + q[k + 1..]
  }

  // Append a node to the tail of a level's list.
  method LinkTail(slab: Slab, level: Level, slot: nat, ghost q: seq<nat>)
    returns (slab': Slab, level': Level)
    requires Chain(slab, q) && Ends(level, q)
    requires slot !in q && LiveAt(slab, slot)
    requires slab[slot].value.prev == None && slab[slot].value.next == None
    ensures Chain(slab', q + [slot]) && Ends(level', q + [slot])
    ensures level'.orderCount == level.orderCount && level'.totalQty == level.totalQty
    ensures OnlyLinks(slab, slab', q + [slot])
  {
    slab', level' := slab, level;
    match level.tail
    case Some(oldTail) =>
      assert Linked(slab, q, |q| - 1);
      slab' := slab'[oldTail := Some(slab'[oldTail].value.(next := Some(slot)))];
      slab' := slab'[slot := Some(slab'[slot].value.(prev := Some(oldTail)))];
      level' := level'.(tail := Some(slot));
      forall i | 0 <= i < |q + [slot]|
        ensures Linked(slab', q + [slot], i)
      {
        if i < |q| {
          assert Linked(slab, q, i);
        }
      }
    case None =>
      level' := level'.(head := Some(slot), tail := Some(slot));
  }

  // Every node of q but the k-th is linked as in q; the k-th may already be gone.
  ghost predicate ChainBut(slab: Slab, q: seq<nat>, k: nat) {
    && Distinct(q)
    && forall i :: 0 <= i < |q| && i != k ==> Linked(slab, q, i)
  }

  // Close the list around its k-th node, given that node's own links.
  method Unlink(slab: Slab, level: Level, prev: Option<nat>, next: Option<nat>, ghost q: seq<nat>, ghost k: nat)
    returns (slab': Slab, level': Level)
    requires k < |q| && ChainBut(slab, q, k) && Ends(level, q)
    requires prev == Before(q, k) && next == After(q, k)
    ensures Chain(slab', Without(q, k)) && Ends(level', Without(q, k))
    ensures level'.orderCount == level.orderCount && level'.totalQty == level.totalQty
    ensures OnlyLinks(slab, slab', Without(q, k))
  {
    slab', level' := slab, level;
    match prev {
      case Some(p) =>
        assert Linked(slab, q, k - 1);
        slab' := slab'[p := Some(slab'[p].value.(next := next))];
      case None =>
        level' := level'.(head := next);
    }
    match next {
      case Some(n) =>
        assert Linked(slab, q, k + 1);
        slab' := slab'[n := Some(slab'[n].value.(prev := prev))];
      case None =>
        level' := level'.(tail := prev);
    }
    forall i | 0 <= i < |Without(q, k)|
      ensures Linked(slab', Without(q, k), i)
    {
      assert Linked(slab, q, if i < k then i else i + 1);
    }
    assert k > 0 ==> Without(q, k)[k - 1] == q[k - 1];
    assert k + 1 < |q| ==> Without(q, k)[k] == q[k + 1];
  }

  // Send the k-th node of a level's list to its tail.
  method MoveToTail(slab: Slab, level: Level, slot: nat, ghost q: seq<nat>, ghost k: nat)
    returns (slab': Slab, level': Level)
    requires Chain(slab, q) && Ends(level, q)
    requires k < |q| && q[k] == slot
    ensures Chain(slab', Without(q, k) + [slot]) && Ends(level', Without(q, k) + [slot])
    ensures level'.orderCount == level.orderCount && level'.totalQty == level.totalQty
    ensures OnlyLinks(slab, slab', q)
  {
    slab', level' := slab, level;
    if level.tail == Some(slot) {
      assert k == |q| - 1;
      assert Without(q, k) + [slot] == q;
      return;
    }
    assert Linked(slab, q, k);
    var node := slab[slot].value;
    slab', level' := Unlink(slab, level, node.prev, node.next, q, k);
    ghost var slab1 := slab';
    assert LiveAt(slab, slot) && LiveAt(slab1, slot);
    slab' := slab'[slot := Some(slab'[slot].value.(prev := None, next := None))];
    forall i | 0 <= i < |Without(q, k)|
      ensures Linked(slab', Without(q, k), i)
    {
      assert Linked(slab1, Without(q, k), i);
    }
    slab', level' := LinkTail(slab', level', slot, Without(q, k));
  }
}
