// One side of a book as a single sequence in price-time order: best price first,
// and first-in first-out among orders at the same price.
module PriceTime {
  import opened Types

  // p has strictly higher priority than q among resting orders of this side.
  predicate Better(side: Side, p: Price, q: Price) {
    if side.Bid? then p > q else p < q
  }

  ghost predicate Sorted(side: Side, s: seq<Order>) {
    forall i, j :: 0 <= i < j < |s| ==> !Better(side, s[j].price, s[i].price)
  }

  ghost predicate Unique(s: seq<Order>) {
    forall i, j :: 0 <= i < j < |s| ==> s[i].id != s[j].id
  }

  ghost predicate HasId(s: seq<Order>, id: OrderId) {
    exists i :: 0 <= i < |s| && s[i].id == id
  }

  // The index of the first order with this id.
  ghost function Pos(s: seq<Order>, id: OrderId): (k: nat)
    requires HasId(s, id)
    ensures k < |s| && s[k].id == id
    ensures forall j :: 0 <= j < k ==> s[j].id != id
  {
    if s[0].id == id then
      0
    else
      assert HasId(s[1..], id) by {
        var i :| 0 <= i < |s| && s[i].id == id;
        assert s[1..][i - 1].id == id;
      }
      1 + Pos(s[1..], id)
  }

  // Where a newcomer at price p goes: behind every order that p is not better than.
  ghost function InsertPos(side: Side, s: seq<Order>, p: Price): (k: nat)
    ensures k <= |s|
    ensures forall j :: 0 <= j < k ==> !Better(side, p, s[j].price)
    ensures k < |s| ==> Better(side, p, s[k].price)
  {
    if s == [] || Better(side, p, s[0].price) then 0 else 1 + InsertPos(side, s[1..], p)
  }

  ghost function Insert(side: Side, s: seq<Order>, o: Order): seq<Order> {
    var k := InsertPos(side, s, o.price);
    s[..k] + [o] + s[k..]
  }

  ghost function RemoveAt(s: seq<Order>, k: nat): seq<Order>
    requires k < |s|
  {
    s[..k] + s[k + 1..]
  }

  ghost function ResizeAt(s: seq<Order>, k: nat, q: Qty): seq<Order>
    requires k < |s|
  {
    s[k := s[k].(qty := q)]
  }

  // Resize the order at k and send it behind every order at its price.
  ghost function RequeueAt(side: Side, s: seq<Order>, k: nat, q: Qty): seq<Order>
    requires k < |s|
  {
    Insert(side, RemoveAt(s, k), s[k].(qty := q))
  }

  lemma PosIs(s: seq<Order>, k: nat)
    requires Unique(s) && k < |s|
    ensures HasId(s, s[k].id) && Pos(s, s[k].id) == k
  {
  }

  lemma InsertPosIs(side: Side, s: seq<Order>, p: Price, k: nat)
    requires k <= |s|
    requires forall j :: 0 <= j < k ==> !Better(side, p, s[j].price)
    requires k < |s| ==> Better(side, p, s[k].price)
    ensures InsertPos(side, s, p) == k
  {
  }

  // Quantities

  ghost function Total(s: seq<Order>): nat {
    if s == [] then 0 else s[0].qty + Total(s[1..])
  }

  lemma TotalCons(o: Order, t: seq<Order>)
    ensures Total([o] + t) == o.qty + Total(t)
  {
    assert ([o] + t)[1..] == t;
  }

  lemma {:induction false} TotalConcat(a: seq<Order>, b: seq<Order>)
    ensures Total(a + b) == Total(a) + Total(b)
  {
    if a == [] {
      assert a + b == b;
    } else {
      assert a + b == [a[0]] + (a[1..] + b);
      TotalCons(a[0], a[1..] + b);
      TotalConcat(a[1..], b);
    }
  }

  lemma TotalSplit(s: seq<Order>, k: nat)
    requires k < |s|
    ensures Total(s) == Total(s[..k]) + s[k].qty + Total(s[k + 1..])
  {
    hide Total;
    assert s == s[..k] + ([s[k]] + s[k + 1..]);
    TotalConcat(s[..k], [s[k]] + s[k + 1..]);
    TotalCons(s[k], s[k + 1..]);
  }

  lemma TotalRemoveAt(s: seq<Order>, k: nat)
    requires k < |s|
    ensures Total(RemoveAt(s, k)) == Total(s) - s[k].qty
  {
    hide Total;
    TotalSplit(s, k);
    TotalConcat(s[..k], s[k + 1..]);
  }

  lemma TotalResizeAt(s: seq<Order>, k: nat, q: Qty)
    requires k < |s|
    ensures Total(ResizeAt(s, k, q)) == Total(s) - s[k].qty + q
  {
    hide Total;
    var t := ResizeAt(s, k, q);
    TotalSplit(s, k);
    TotalSplit(t, k);
    assert t[..k] == s[..k] && t[k + 1..] == s[k + 1..];
  }

  lemma TotalAppend(s: seq<Order>, o: Order)
    ensures Total(s + [o]) == Total(s) + o.qty
  {
    TotalConcat(s, [o]);
    TotalCons(o, []);
    assert [o] + [] == [o];
  }

  ghost predicate Positive(s: seq<Order>) {
    forall i :: 0 <= i < |s| ==> s[i].qty > 0
  }

  lemma {:induction false} CountAtMostTotal(s: seq<Order>)
    requires Positive(s)
    ensures |s| <= Total(s)
  {
    if s != [] {
      CountAtMostTotal(s[1..]);
    }
  }

  // The FIFO queue of one price level.

  ghost function LevelAt(s: seq<Order>, p: Price): seq<Order> {
    if s == [] then []
    else if s[0].price == p then [s[0]] + LevelAt(s[1..], p)
    else LevelAt(s[1..], p)
  }

  lemma LevelCons(o: Order, t: seq<Order>, p: Price)
    ensures LevelAt([o] + t, p) == if o.price == p then [o] + LevelAt(t, p) else LevelAt(t, p)
  {
    assert ([o] + t)[1..] == t;
  }

  lemma {:induction false} LevelConcat(a: seq<Order>, b: seq<Order>, p: Price)
    ensures LevelAt(a + b, p) == LevelAt(a, p) + LevelAt(b, p)
  {
    if a == [] {
      assert a + b == b;
    } else {
      var x, t := a[0], a[1..];
      assert a + b == [x] + (t + b) && a == [x] + t;
      LevelConcat(t, b, p);
      hide LevelAt;
      LevelCons(x, t + b, p);
      LevelCons(x, t, p);
    }
  }

  lemma {:induction false} LevelAll(s: seq<Order>, p: Price)
    requires forall i :: 0 <= i < |s| ==> s[i].price == p
    ensures LevelAt(s, p) == s
  {
    if s != [] {
      LevelAll(s[1..], p);
    }
  }

  lemma {:induction false} LevelNone(s: seq<Order>, p: Price)
    requires forall i :: 0 <= i < |s| ==> s[i].price != p
    ensures LevelAt(s, p) == []
  {
    if s != [] {
      LevelNone(s[1..], p);
    }
  }

  lemma LevelOne(o: Order, p: Price)
    ensures LevelAt([o], p) == if o.price == p then [o] else []
  {
    assert [o] + [] == [o];
    LevelCons(o, [], p);
  }

  lemma {:induction false} LevelPositive(s: seq<Order>, p: Price)
    requires Positive(s)
    ensures Positive(LevelAt(s, p))
  {
    if s != [] {
      LevelPositive(s[1..], p);
    }
  }

  lemma {:induction false} LevelPrices(s: seq<Order>, p: Price)
    ensures forall i :: 0 <= i < |LevelAt(s, p)| ==> LevelAt(s, p)[i].price == p
  {
    if s != [] {
      LevelPrices(s[1..], p);
    }
  }

  // Splitting a side around one of its orders splits that order's level too.
  lemma LevelSplit(s: seq<Order>, k: nat, p: Price)
    requires k < |s|
    ensures LevelAt(s, p) == LevelAt(s[..k], p) + LevelAt([s[k]], p) + LevelAt(s[k + 1..], p)
  {
    hide LevelAt;
    assert s == s[..k] + ([s[k]] + s[k + 1..]);
    LevelConcat(s[..k], [s[k]] + s[k + 1..], p);
    LevelConcat([s[k]], s[k + 1..], p);
  }

  // The order at index k of the side is at this index of its own level.
  ghost function LevelPos(s: seq<Order>, k: nat): nat
    requires k < |s|
  {
    |LevelAt(s[..k], s[k].price)|
  }

  lemma LevelPosIs(s: seq<Order>, k: nat)
    requires k < |s|
    ensures LevelPos(s, k) < |LevelAt(s, s[k].price)|
    ensures LevelAt(s, s[k].price)[LevelPos(s, k)] == s[k]
    ensures LevelAt(s, s[k].price)[..LevelPos(s, k)] == LevelAt(s[..k], s[k].price)
    ensures LevelAt(s, s[k].price)[LevelPos(s, k) + 1..] == LevelAt(s[k + 1..], s[k].price)
  {
    LevelSplit(s, k, s[k].price);
    LevelOne(s[k], s[k].price);
  }

  // What the four edits of a side do to each level: append, delete-at,
  // update-in-place and move-to-end.

  lemma BehindInsert(side: Side, s: seq<Order>, p: Price)
    requires Sorted(side, s)
    ensures LevelAt(s[InsertPos(side, s, p)..], p) == []
  {
    var k := InsertPos(side, s, p);
    forall i | 0 <= i < |s[k..]|
      ensures s[k..][i].price != p
    {
      assert !Better(side, s[k + i].price, s[k].price);
    }
    LevelNone(s[k..], p);
  }

  lemma InsertAppends(side: Side, s: seq<Order>, o: Order, p: Price)
    requires Sorted(side, s)
    ensures LevelAt(Insert(side, s, o), p) ==
            if p == o.price then LevelAt(s, p) + [o] else LevelAt(s, p)
  {
    hide LevelAt, Sorted;
    var k := InsertPos(side, s, o.price);
    var x, y := s[..k], s[k..];
    assert s == x + y;
    assert Insert(side, s, o) == x + ([o] + y);
    LevelConcat(x, y, p);
    LevelConcat(x, [o] + y, p);
    LevelCons(o, y, p);
    BehindInsert(side, s, o.price);
  }

  lemma RemoveDeletes(s: seq<Order>, k: nat, p: Price)
    requires k < |s|
    ensures p != s[k].price ==> LevelAt(RemoveAt(s, k), p) == LevelAt(s, p)
    ensures p == s[k].price ==>
              var j := LevelPos(s, k);
              j < |LevelAt(s, p)| && LevelAt(RemoveAt(s, k), p) == RemoveAt(LevelAt(s, p), j)
  {
    hide LevelAt;
    LevelSplit(s, k, p);
    LevelOne(s[k], p);
    LevelConcat(s[..k], s[k + 1..], p);
    if p == s[k].price {
      LevelPosIs(s, k);
    }
  }

  lemma ResizeMiddle(x: seq<Order>, o: Order, y: seq<Order>, q: Qty)
    ensures ResizeAt(x + [o] + y, |x|, q) == x + [o.(qty := q)] + y
  {
  }

  lemma ResizeUpdates(s: seq<Order>, k: nat, q: Qty, p: Price)
    requires k < |s|
    ensures p != s[k].price ==> LevelAt(ResizeAt(s, k, q), p) == LevelAt(s, p)
    ensures p == s[k].price ==>
              var j := LevelPos(s, k);
              j < |LevelAt(s, p)| && LevelAt(ResizeAt(s, k, q), p) == ResizeAt(LevelAt(s, p), j, q)
  {
    hide LevelAt;
    var t := ResizeAt(s, k, q);
    var x, y := LevelAt(s[..k], p), LevelAt(s[k + 1..], p);
    assert LevelAt(s, p) == x + LevelAt([s[k]], p) + y by {
      LevelSplit(s, k, p);
    }
    assert LevelAt(t, p) == x + LevelAt([t[k]], p) + y by {
      LevelSplit(t, k, p);
      assert t[..k] == s[..k] && t[k + 1..] == s[k + 1..];
    }
    LevelOne(s[k], p);
    LevelOne(t[k], p);
    ResizeMiddle(x, s[k], y, q);
  }

  lemma RequeueMovesToEnd(side: Side, s: seq<Order>, k: nat, q: Qty, p: Price)
    requires Sorted(side, s) && k < |s|
    ensures p != s[k].price ==> LevelAt(RequeueAt(side, s, k, q), p) == LevelAt(s, p)
    ensures p == s[k].price ==>
              var j := LevelPos(s, k);
              j < |LevelAt(s, p)| &&
              LevelAt(RequeueAt(side, s, k, q), p) == RemoveAt(LevelAt(s, p), j) + [s[k].(qty := q)]
  {
    hide LevelAt;
    InsertAppends(side, RemoveAt(s, k), s[k].(qty := q), p);
    RemoveDeletes(s, k, p);
  }

  // The edits keep a side in price-time order.

  lemma InsertSorted(side: Side, s: seq<Order>, o: Order)
    requires Sorted(side, s)
    ensures Sorted(side, Insert(side, s, o))
  {
    var k := InsertPos(side, s, o.price);
    var t := Insert(side, s, o);
    forall i, j | 0 <= i < j < |t|
      ensures !Better(side, t[j].price, t[i].price)
    {
      assert forall m :: 0 <= m < |t| ==>
        t[m] == if m < k then s[m] else if m == k then o else s[m - 1];
      if k < |s| && j > k && i == k {
        assert j == k + 1 || !Better(side, s[j - 1].price, s[k].price);
      }
    }
  }

  lemma RemoveSorted(side: Side, s: seq<Order>, k: nat)
    requires Sorted(side, s) && k < |s|
    ensures Sorted(side, RemoveAt(s, k))
  {
  }
}
