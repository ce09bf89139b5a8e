// A sorted map from price to level queue (the BTreeMap of src/book.rs) and the
// price-time sequence it stands for.
module LevelMap {
  import opened Types
  import opened PriceTime

  ghost predicate IsBest(side: Side, keys: set<Price>, p: Price) {
    p in keys && forall k <- keys :: !Better(side, k, p)
  }

  lemma {:induction false} HasBest(side: Side, keys: set<Price>)
    requires keys != {}
    ensures exists p :: IsBest(side, keys, p)
    decreases keys
  {
    var p :| p in keys;
    var rest := keys - {p};
    assert keys == rest + {p};
    if rest == {} {
      assert IsBest(side, keys, p);
    } else {
      HasBest(side, rest);
      var r :| IsBest(side, rest, r);
      assert IsBest(side, keys, if Better(side, r, p) then r else p);
    }
  }

  // The first key of the map: highest bid or lowest ask.
  function Best(side: Side, keys: set<Price>): (p: Price)
    requires keys != {}
    ensures p in keys
    ensures forall k <- keys :: !Better(side, k, p)
  {
    assert exists p :: p in keys && forall k <- keys :: !Better(side, k, p) by {
      HasBest(side, keys);
      var p :| IsBest(side, keys, p);
    }
    var p :| p in keys && forall k <- keys :: !Better(side, k, p);
    p
  }

  // All queues, best price first.
  ghost function Flat(side: Side, m: map<Price, seq<Order>>): seq<Order>
    decreases m.Keys
  {
    if m == map[] then []
    else
      var p := Best(side, m.Keys);
      m[p] + Flat(side, m - {p})
  }

  ghost function Get(m: map<Price, seq<Order>>, p: Price): seq<Order> {
    if p in m then m[p] else []
  }

  // Replace one queue; an empty queue is pruned.
  ghost function Put(m: map<Price, seq<Order>>, p: Price, q: seq<Order>): map<Price, seq<Order>> {
    if q == [] then m - {p} else m[p := q]
  }

  ghost predicate Priced(m: map<Price, seq<Order>>) {
    forall p <- m :: m[p] != [] && forall i :: 0 <= i < |m[p]| ==> m[p][i].price == p
  }

  ghost function Ahead(side: Side, m: map<Price, seq<Order>>, p: Price): map<Price, seq<Order>> {
    map r | r in m && Better(side, r, p) :: m[r]
  }

  ghost function Behind(side: Side, m: map<Price, seq<Order>>, p: Price): map<Price, seq<Order>> {
    map r | r in m && Better(side, p, r) :: m[r]
  }

  // Taking the best key off splits the same way while it is ahead of p.
  lemma SplitStep(side: Side, m: map<Price, seq<Order>>, p: Price)
    requires m != map[] && Better(side, Best(side, m.Keys), p)
    ensures var b := Best(side, m.Keys);
            && Get(m - {b}, p) == Get(m, p)
            && Behind(side, m - {b}, p) == Behind(side, m, p)
            && Flat(side, Ahead(side, m, p)) == m[b] + Flat(side, Ahead(side, m - {b}, p))
  {
    var b := Best(side, m.Keys);
    var a := Ahead(side, m, p);
    assert b in a;
    assert Best(side, a.Keys) == b;
    assert Ahead(side, m - {b}, p) == a - {b};
    assert Behind(side, m - {b}, p) == Behind(side, m, p);
  }

  lemma SplitStop(side: Side, m: map<Price, seq<Order>>, p: Price)
    requires m == map[] || !Better(side, Best(side, m.Keys), p)
    ensures Ahead(side, m, p) == map[]
    ensures Behind(side, m, p) == m - {p}
  {
  }

  lemma Regroup(x: seq<Order>, a: seq<Order>, g: seq<Order>, b: seq<Order>)
    ensures x + (a + g + b) == (x + a) + g + b
  {
  }

  lemma {:induction false} FlatSplit(side: Side, m: map<Price, seq<Order>>, p: Price)
    ensures Flat(side, m) == Flat(side, Ahead(side, m, p)) + Get(m, p) + Flat(side, Behind(side, m, p))
    decreases m.Keys
  {
    if m != map[] && Better(side, Best(side, m.Keys), p) {
      var b := Best(side, m.Keys);
      FlatSplit(side, m - {b}, p);
      SplitStep(side, m, p);
      Regroup(m[b], Flat(side, Ahead(side, m - {b}, p)), Get(m, p), Flat(side, Behind(side, m, p)));
    } else {
      SplitStop(side, m, p);
      if p !in m {
        assert m - {p} == m;
      }
    }
  }

  lemma {:induction false} FlatMember(side: Side, m: map<Price, seq<Order>>, i: nat)
    requires i < |Flat(side, m)|
    ensures exists p <- m :: Flat(side, m)[i] in m[p]
    decreases m.Keys
  {
    if m != map[] {
      var b := Best(side, m.Keys);
      if i < |m[b]| {
        assert Flat(side, m)[i] in m[b];
      } else {
        FlatMember(side, m - {b}, i - |m[b]|);
      }
    }
  }

  lemma PutElsewhere(side: Side, m: map<Price, seq<Order>>, p: Price, q: seq<Order>)
    ensures Ahead(side, Put(m, p, q), p) == Ahead(side, m, p)
    ensures Behind(side, Put(m, p, q), p) == Behind(side, m, p)
    ensures Get(Put(m, p, q), p) == q
  {
  }

  lemma AheadPrices(side: Side, m: map<Price, seq<Order>>, p: Price)
    requires Priced(m)
    ensures var a := Flat(side, Ahead(side, m, p));
            forall i :: 0 <= i < |a| ==> Better(side, a[i].price, p)
  {
    var a := Ahead(side, m, p);
    forall i | 0 <= i < |Flat(side, a)|
      ensures Better(side, Flat(side, a)[i].price, p)
    {
      FlatMember(side, a, i);
    }
  }

  lemma BehindPrices(side: Side, m: map<Price, seq<Order>>, p: Price)
    requires Priced(m)
    ensures var b := Flat(side, Behind(side, m, p));
            forall i :: 0 <= i < |b| ==> Better(side, p, b[i].price)
  {
    var b := Behind(side, m, p);
    forall i | 0 <= i < |Flat(side, b)|
      ensures Better(side, p, Flat(side, b)[i].price)
    {
      FlatMember(side, b, i);
    }
  }

  // A price-time sequence seen from one price level, and the effect of replacing
  // that level's queue.
  lemma FlatEdit(side: Side, m: map<Price, seq<Order>>, p: Price, q: seq<Order>)
    returns (a: seq<Order>, b: seq<Order>)
    requires Priced(m)
    ensures Flat(side, m) == a + Get(m, p) + b
    ensures Flat(side, Put(m, p, q)) == a + q + b
    ensures forall i :: 0 <= i < |a| ==> Better(side, a[i].price, p)
    ensures forall i :: 0 <= i < |b| ==> Better(side, p, b[i].price)
  {
    a := Flat(side, Ahead(side, m, p));
    b := Flat(side, Behind(side, m, p));
    FlatSplit(side, m, p);
    FlatSplit(side, Put(m, p, q), p);
    PutElsewhere(side, m, p, q);
    AheadPrices(side, m, p);
    BehindPrices(side, m, p);
  }

  lemma LevelOfFlat(side: Side, m: map<Price, seq<Order>>, p: Price)
    requires Priced(m)
    ensures LevelAt(Flat(side, m), p) == Get(m, p)
  {
    hide Flat, LevelAt;
    var a, b := FlatEdit(side, m, p, []);
    LevelConcat(a + Get(m, p), b, p);
    LevelConcat(a, Get(m, p), p);
    LevelNone(a, p);
    LevelNone(b, p);
    LevelAll(Get(m, p), p);
  }

  lemma FlatHead(side: Side, m: map<Price, seq<Order>>)
    requires Priced(m)
    ensures m == map[] <==> Flat(side, m) == []
    ensures m != map[] ==> Flat(side, m)[0].price == Best(side, m.Keys)
  {
  }

  // The four edits of one queue are the four edits of the whole side.

  lemma AppendIsInsert(side: Side, m: map<Price, seq<Order>>, o: Order)
    requires Priced(m)
    ensures Flat(side, Put(m, o.price, Get(m, o.price) + [o])) == Insert(side, Flat(side, m), o)
  {
    hide Flat, Put;
    var l := Get(m, o.price);
    assert forall i :: 0 <= i < |l| ==> l[i].price == o.price;
    hide Priced;
    var a, b := FlatEdit(side, m, o.price, l + [o]);
    var s := a + l + b;
    InsertPosIs(side, s, o.price, |a + l|);
    assert s[..|a + l|] == a + l && s[|a + l|..] == b;
  }

  lemma DeleteIsRemove(side: Side, m: map<Price, seq<Order>>, p: Price, k: nat)
    returns (i: nat)
    requires Priced(m) && p in m && k < |m[p]|
    ensures i < |Flat(side, m)| && Flat(side, m)[i] == m[p][k]
    ensures Flat(side, Put(m, p, RemoveAt(m[p], k))) == RemoveAt(Flat(side, m), i)
  {
    hide Flat, Priced, Put;
    var a, b := FlatEdit(side, m, p, RemoveAt(m[p], k));
    i := |a| + k;
    var s := a + m[p] + b;
    assert s[..i] == a + m[p][..k];
    assert s[i + 1..] == m[p][k + 1..] + b;
  }

  lemma UpdateIsResize(side: Side, m: map<Price, seq<Order>>, p: Price, k: nat, q: Qty)
    returns (i: nat)
    requires Priced(m) && p in m && k < |m[p]|
    ensures i < |Flat(side, m)| && Flat(side, m)[i] == m[p][k]
    ensures Flat(side, Put(m, p, ResizeAt(m[p], k, q))) == ResizeAt(Flat(side, m), i, q)
  {
    hide Flat, Priced, Put;
    var a, b := FlatEdit(side, m, p, ResizeAt(m[p], k, q));
    i := |a| + k;
    assert a + ResizeAt(m[p], k, q) + b == ResizeAt(a + m[p] + b, i, q);
  }

  lemma MoveIsRequeue(side: Side, m: map<Price, seq<Order>>, p: Price, k: nat, q: Qty)
    returns (i: nat)
    requires Priced(m) && p in m && k < |m[p]|
    ensures i < |Flat(side, m)| && Flat(side, m)[i] == m[p][k]
    ensures Flat(side, Put(m, p, RemoveAt(m[p], k) + [m[p][k].(qty := q)])) ==
            RequeueAt(side, Flat(side, m), i, q)
  {
    hide Flat, Insert;
    i := DeleteIsRemove(side, m, p, k);
    var o := m[p][k].(qty := q);
    var m1 := Put(m, p, RemoveAt(m[p], k));
    AppendIsInsert(side, m1, o);
    assert Put(m1, p, Get(m1, p) + [o]) == Put(m, p, RemoveAt(m[p], k) + [o]);
  }
}
