// Replacing the book by a snapshot, with or without the local synthetic orders.
module Snapshot {
  import opened Types
  import opened PriceTime
  import opened AbstractBook

  // Adding a list of orders, stopping at the first error.
  ghost function AddAll(b: Book, orders: seq<Order>): Effect<()>
    decreases |orders|
  {
    if orders == [] then Effect(b, Ok(()))
    else
      var e := AddEffect(b, orders[0]);
      if e.result.Err? then e else AddAll(e.book, orders[1..])
  }

  ghost function Synthetic(s: seq<Order>): seq<Order> {
    if s == [] then []
    else if IsSyntheticOrderId(s[0].id) then [s[0]] + Synthetic(s[1..])
    else Synthetic(s[1..])
  }

  // The synthetic orders of the book: bids then asks, each in price-time order.
  ghost function SyntheticOf(b: Book): seq<Order> {
    Synthetic(b.bids) + Synthetic(b.asks)
  }

  // Snapshot validation, order by order: zero quantity, clash with a preserved
  // order, synthetic id, repeated id.
  ghost function Validate(orders: seq<Order>, i: nat, preserved: seq<Order>): Result<()>
    requires i <= |orders|
    decreases |orders| - i
  {
    if i == |orders| then Ok(())
    else if orders[i].qty == 0 then Err(ZeroQty)
    else if HasId(preserved, orders[i].id) then Err(DuplicateOrderId(orders[i].id))
    else if IsSyntheticOrderId(orders[i].id) then Err(SyntheticOrderIdInSnapshot(orders[i].id))
    else if HasId(orders[..i], orders[i].id) then Err(DuplicateOrderId(orders[i].id))
    else Validate(orders, i + 1, preserved)
  }

  ghost function SnapshotEffect(b: Book, orders: seq<Order>, policy: SnapshotPolicy): Effect<SnapshotOutcome> {
    var preserved := if policy == Replace then [] else SyntheticOf(b);
    var valid := if policy == Replace then Ok(()) else Validate(orders, 0, preserved);
    if valid.Err? then Effect(b, Err(valid.error))
    else
      var e := AddAll(EMPTY, orders + preserved);
      Effect(e.book,
             if e.result.Err? then Err(e.result.error) else Ok(SnapshotOutcome(|orders|, |preserved|)))
  }

  // The orders of a list for one level, in the list's order.
  ghost function ForLevel(orders: seq<Order>, side: Side, p: Price): seq<Order> {
    if orders == [] then []
    else if orders[0].side == side && orders[0].price == p then [orders[0]] + ForLevel(orders[1..], side, p)
    else ForLevel(orders[1..], side, p)
  }

  // Adding a list

  ghost predicate Addable(b: Book, orders: seq<Order>) {
    && Positive(orders) && Unique(orders)
    && forall i :: 0 <= i < |orders| ==> !Live(b, orders[i].id)
  }

  lemma AddableTail(b: Book, orders: seq<Order>)
    requires Addable(b, orders) && orders != []
    ensures AddEffect(b, orders[0]) == Effect(Added(b, orders[0]), Ok(()))
    ensures Addable(Added(b, orders[0]), orders[1..])
  {
    var o := orders[0];
    InsertElements(o.side, b.On(o.side), o);
    forall i | 0 <= i < |orders[1..]|
      ensures !Live(Added(b, o), orders[1..][i].id)
    {
      assert orders[1..][i] == orders[i + 1] && orders[i + 1].id != o.id;
    }
  }

  // A list of fresh, distinct, non-empty orders is added whole: every level is
  // its old queue followed by the list's orders for it.
  lemma {:induction false} AddAllAppends(b: Book, orders: seq<Order>, side: Side, p: Price)
    requires WellFormed(b) && Addable(b, orders)
    ensures var e := AddAll(b, orders);
            && e.result == Ok(()) && WellFormed(e.book)
            && e.book.Count() == b.Count() + |orders|
            && LevelAt(e.book.On(side), p) == LevelAt(b.On(side), p) + ForLevel(orders, side, p)
    decreases |orders|
  {
    hide WellFormed, Addable, Added, Live, LevelAt, ForLevel, Book.Count, AddEffect;
    if orders == [] {
      ForNoLevel(side, p);
    } else {
      var o, t := orders[0], orders[1..];
      AddableTail(b, orders);
      FirstAddable(b, orders);
      AddedWellFormed(b, o);
      AddAllAppends(Added(b, o), t, side, p);
      AddedLevel(b, o, side, p);
      AddedCount(b, o);
      assert orders == [o] + t;
      ForLevelConcat([o], t, side, p);
    }
  }

  lemma ForNoLevel(side: Side, p: Price)
    ensures ForLevel([], side, p) == []
  {
  }

  lemma FirstAddable(b: Book, orders: seq<Order>)
    requires Addable(b, orders) && orders != []
    ensures orders[0].qty > 0 && !Live(b, orders[0].id)
  {
  }

  lemma AddedCount(b: Book, o: Order)
    ensures Added(b, o).Count() == b.Count() + 1
  {
  }

  lemma AddedLevel(b: Book, o: Order, side: Side, p: Price)
    requires WellFormed(b)
    ensures LevelAt(Added(b, o).On(side), p) == LevelAt(b.On(side), p) + ForLevel([o], side, p)
    ensures ForLevel([o], side, p) == if o.side == side && o.price == p then [o] else []
  {
    assert [o][1..] == [];
    AddAppends(b, o, side, p);
  }

  // Adding never shrinks a level, so a list whose result fits fits all along.
  lemma {:induction false} AddAllGrows(b: Book, orders: seq<Order>, side: Side, p: Price)
    requires WellFormed(b)
    ensures Total(LevelAt(b.On(side), p)) <= Total(LevelAt(AddAll(b, orders).book.On(side), p))
    decreases |orders|
  {
    hide WellFormed, Insert, Live, LevelAt;
    if orders != [] && AddEffect(b, orders[0]).result.Ok? {
      var o := orders[0];
      AddedWellFormed(b, o);
      AddedLevel(b, o, side, p);
      TotalConcat(LevelAt(b.On(side), p), ForLevel([o], side, p));
      AddAllGrows(Added(b, o), orders[1..], side, p);
    }
  }

  lemma FitsAllAlong(b: Book, orders: seq<Order>)
    requires WellFormed(b) && Fits(AddAll(b, orders).book)
    ensures Fits(b)
  {
    hide WellFormed, LevelAt, Total, AddAll;
    forall side, p
      ensures Total(LevelAt(b.On(side), p)) <= MAX_U64
    {
      AddAllGrows(b, orders, side, p);
    }
  }

  // The synthetic orders of a list

  lemma SyntheticCons(o: Order, t: seq<Order>)
    ensures Synthetic([o] + t) == if IsSyntheticOrderId(o.id) then [o] + Synthetic(t) else Synthetic(t)
  {
    assert ([o] + t)[1..] == t;
  }

  lemma {:induction false} SyntheticConcat(a: seq<Order>, b: seq<Order>)
    ensures Synthetic(a + b) == Synthetic(a) + Synthetic(b)
  {
    if a == [] {
      assert a + b == b;
    } else {
      var x, t := a[0], a[1..];
      assert a + b == [x] + (t + b) && a == [x] + t;
      SyntheticConcat(t, b);
      hide Synthetic;
      SyntheticCons(x, t + b);
      SyntheticCons(x, t);
    }
  }

  // Adding a list in two parts.
  lemma {:induction false} AddAllConcat(b: Book, xs: seq<Order>, ys: seq<Order>)
    ensures AddAll(b, xs + ys) == if AddAll(b, xs).result.Ok? then AddAll(AddAll(b, xs).book, ys) else AddAll(b, xs)
    decreases |xs|
  {
    hide AddEffect;
    if xs == [] {
      assert xs + ys == ys;
    } else {
      assert (xs + ys)[0] == xs[0] && (xs + ys)[1..] == xs[1..] + ys;
      AddAllConcat(AddEffect(b, xs[0]).book, xs[1..], ys);
    }
  }

  lemma {:induction false} SyntheticMember(s: seq<Order>, i: nat) returns (j: nat)
    requires i < |Synthetic(s)|
    ensures i <= j < |s| && s[j] == Synthetic(s)[i] && IsSyntheticOrderId(s[j].id)
  {
    var n := if IsSyntheticOrderId(s[0].id) then 1 else 0;
    if i < n {
      j := 0;
    } else {
      j := SyntheticMember(s[1..], i - n);
      j := j + 1;
    }
  }

  // Exactly the synthetic orders are kept, in their order: each stands behind the
  // synthetic orders before it.
  lemma {:induction false} SyntheticKept(s: seq<Order>, i: nat)
    requires i < |s| && IsSyntheticOrderId(s[i].id)
    ensures var j := |Synthetic(s[..i])|;
            j < |Synthetic(s)| && Synthetic(s)[j] == s[i]
  {
    if i > 0 {
      assert s[..i][0] == s[0] && s[..i][1..] == s[1..][..i - 1];
      SyntheticKept(s[1..], i - 1);
    }
  }

  lemma {:induction false} SyntheticUnique(s: seq<Order>)
    requires Unique(s) && Positive(s)
    ensures Unique(Synthetic(s)) && Positive(Synthetic(s))
  {
    if s != [] {
      var t := Synthetic(s[1..]);
      SyntheticUnique(s[1..]);
      forall i | 0 <= i < |t|
        ensures t[i].id != s[0].id
      {
        var j := SyntheticMember(s[1..], i);
        assert s[1..][j] == s[j + 1];
      }
    }
  }

  lemma {:induction false} SyntheticLevel(s: seq<Order>, side: Side, p: Price)
    requires forall i :: 0 <= i < |s| ==> s[i].side == side
    ensures ForLevel(Synthetic(s), side, p) == Synthetic(LevelAt(s, p))
    ensures ForLevel(Synthetic(s), Opposite(side), p) == []
  {
    if s != [] {
      SyntheticLevel(s[1..], side, p);
      var t := Synthetic(s[1..]);
      var l := LevelAt(s[1..], p);
      assert ([s[0]] + t)[1..] == t && ([s[0]] + l)[1..] == l;
      assert Synthetic(s) == if IsSyntheticOrderId(s[0].id) then [s[0]] + t else t;
      assert LevelAt(s, p) == if s[0].price == p then [s[0]] + l else l;
    }
  }

  lemma ForLevelCons(o: Order, t: seq<Order>, side: Side, p: Price)
    ensures ForLevel([o] + t, side, p) ==
            if o.side == side && o.price == p then [o] + ForLevel(t, side, p) else ForLevel(t, side, p)
  {
    assert ([o] + t)[1..] == t;
  }

  lemma {:induction false} ForLevelConcat(a: seq<Order>, b: seq<Order>, side: Side, p: Price)
    ensures ForLevel(a + b, side, p) == ForLevel(a, side, p) + ForLevel(b, side, p)
  {
    if a == [] {
      assert a + b == b;
    } else {
      var x, t := a[0], a[1..];
      assert a + b == [x] + (t + b) && a == [x] + t;
      ForLevelConcat(t, b, side, p);
      hide ForLevel;
      ForLevelCons(x, t + b, side, p);
      ForLevelCons(x, t, side, p);
    }
  }

  lemma SyntheticOfBook(b: Book, side: Side, p: Price)
    requires WellFormed(b)
    ensures ForLevel(SyntheticOf(b), side, p) == Synthetic(LevelAt(b.On(side), p))
  {
    hide Synthetic, ForLevel, LevelAt;
    ForLevelConcat(Synthetic(b.bids), Synthetic(b.asks), side, p);
    SyntheticLevel(b.bids, Bid, p);
    SyntheticLevel(b.asks, Ask, p);
  }

  lemma SyntheticOfDistinct(b: Book)
    requires WellFormed(b)
    ensures Positive(SyntheticOf(b)) && Unique(SyntheticOf(b))
    ensures forall i :: 0 <= i < |SyntheticOf(b)| ==> IsSyntheticOrderId(SyntheticOf(b)[i].id)
  {
    hide Synthetic;
    SyntheticUnique(b.bids);
    SyntheticUnique(b.asks);
    var x, y := Synthetic(b.bids), Synthetic(b.asks);
    forall i | 0 <= i < |x|
      ensures IsSyntheticOrderId(x[i].id)
    {
      var j := SyntheticMember(b.bids, i);
    }
    forall i | 0 <= i < |y|
      ensures IsSyntheticOrderId(y[i].id)
    {
      var j := SyntheticMember(b.asks, i);
    }
    forall i, j | 0 <= i < |x| && 0 <= j < |y|
      ensures x[i].id != y[j].id
    {
      var m := SyntheticMember(b.bids, i);
      var n := SyntheticMember(b.asks, j);
    }
  }

  // Validation

  // What a venue snapshot must be.
  ghost predicate VenueOrders(orders: seq<Order>) {
    && Positive(orders) && Unique(orders)
    && forall i :: 0 <= i < |orders| ==> !IsSyntheticOrderId(orders[i].id)
  }

  ghost predicate VenueFrom(orders: seq<Order>, i: nat) {
    && (forall j :: i <= j < |orders| ==> orders[j].qty > 0 && !IsSyntheticOrderId(orders[j].id))
    && forall k, j :: 0 <= k < j < |orders| && i <= j ==> orders[k].id != orders[j].id
  }

  lemma {:induction false} ValidateIsVenueFrom(orders: seq<Order>, i: nat, preserved: seq<Order>)
    requires i <= |orders|
    requires forall j :: 0 <= j < |preserved| ==> IsSyntheticOrderId(preserved[j].id)
    ensures Validate(orders, i, preserved).Ok? <==> VenueFrom(orders, i)
    decreases |orders| - i
  {
    if i < |orders| {
      ValidateIsVenueFrom(orders, i + 1, preserved);
      assert HasId(orders[..i], orders[i].id) <==> exists k :: 0 <= k < i && orders[k].id == orders[i].id by {
        assert forall k :: 0 <= k < i ==> orders[..i][k] == orders[k];
      }
    }
  }

  // Rejection, exactly: the orders before n are in order, and n commits this
  // offence, looked for in this sequence.
  ghost predicate RejectedAt(orders: seq<Order>, preserved: seq<Order>, n: nat, error: BookError) {
    && n < |orders|
    && VenueOrders(orders[..n])
    && (forall j :: 0 <= j < n ==> !HasId(preserved, orders[j].id))
    && if orders[n].qty == 0 then error == ZeroQty
       else if HasId(preserved, orders[n].id) then error == DuplicateOrderId(orders[n].id)
       else if IsSyntheticOrderId(orders[n].id) then error == SyntheticOrderIdInSnapshot(orders[n].id)
       else HasId(orders[..n], orders[n].id) && error == DuplicateOrderId(orders[n].id)
  }

  lemma {:induction false} ValidateStops(orders: seq<Order>, i: nat, preserved: seq<Order>) returns (n: nat)
    requires i <= |orders| && VenueOrders(orders[..i])
    requires forall j :: 0 <= j < i ==> !HasId(preserved, orders[j].id)
    requires Validate(orders, i, preserved).Err?
    ensures RejectedAt(orders, preserved, n, Validate(orders, i, preserved).error)
    decreases |orders| - i
  {
    var o := orders[i];
    if o.qty > 0 && !HasId(preserved, o.id) && !IsSyntheticOrderId(o.id) && !HasId(orders[..i], o.id) {
      VenueNext(orders, i);
      n := ValidateStops(orders, i + 1, preserved);
    } else {
      n := i;
    }
  }

  lemma VenueNext(orders: seq<Order>, i: nat)
    requires i < |orders| && VenueOrders(orders[..i])
    requires orders[i].qty > 0 && !IsSyntheticOrderId(orders[i].id) && !HasId(orders[..i], orders[i].id)
    ensures VenueOrders(orders[..i + 1])
  {
    var s, t := orders[..i], orders[..i + 1];
    assert t == s + [orders[i]];
    forall j, k | 0 <= j < k < |t|
      ensures t[j].id != t[k].id
    {
      assert s[j] == t[j];
    }
  }

  // The error of a rejected PreserveSynthetic is that of the first offending order.
  lemma PreserveStops(b: Book, orders: seq<Order>) returns (n: nat)
    requires WellFormed(b) && SnapshotEffect(b, orders, PreserveSynthetic).result.Err?
    ensures RejectedAt(orders, SyntheticOf(b), n, SnapshotEffect(b, orders, PreserveSynthetic).result.error)
  {
    hide WellFormed, SyntheticOf, AddAll, Validate, RejectedAt;
    PreserveSyntheticExact(b, orders, Bid, 0);
    ValidIsVenue(b, orders);
    assert orders[..0] == [];
    n := ValidateStops(orders, 0, SyntheticOf(b));
  }

  lemma VenueIsAddable(b: Book, orders: seq<Order>)
    requires WellFormed(b) && VenueOrders(orders)
    ensures Addable(EMPTY, orders + SyntheticOf(b))
  {
    hide WellFormed, SyntheticOf;
    SyntheticOfDistinct(b);
  }

  lemma ValidIsVenue(b: Book, orders: seq<Order>)
    requires WellFormed(b)
    ensures Validate(orders, 0, SyntheticOf(b)).Ok? <==> VenueOrders(orders)
  {
    hide WellFormed, SyntheticOf, Validate;
    SyntheticOfDistinct(b);
    ValidateIsVenueFrom(orders, 0, SyntheticOf(b));
    assert VenueFrom(orders, 0) <==> VenueOrders(orders);
  }

  // PreserveSynthetic is all or nothing: it succeeds exactly on venue orders, an
  // error leaves the book alone, and on success every level is the snapshot's
  // orders for it followed by its former synthetic orders.
  lemma PreserveSyntheticExact(b: Book, orders: seq<Order>, side: Side, p: Price)
    requires WellFormed(b)
    ensures var e := SnapshotEffect(b, orders, PreserveSynthetic);
            && (e.result.Ok? <==> VenueOrders(orders))
            && (e.result.Err? ==> e.book == b)
            && (e.result.Ok? ==>
                  && WellFormed(e.book)
                  && e.result.value == SnapshotOutcome(|orders|, |SyntheticOf(b)|)
                  && e.book.Count() == |orders| + |SyntheticOf(b)|
                  && LevelAt(e.book.On(side), p) ==
                     ForLevel(orders, side, p) + Synthetic(LevelAt(b.On(side), p)))
  {
    hide WellFormed, SyntheticOf, Addable, AddAll, Validate, LevelAt, ForLevel;
    ValidIsVenue(b, orders);
    if VenueOrders(orders) {
      VenueIsAddable(b, orders);
      EmptyLevels(side, p);
      AddAllAppends(EMPTY, orders + SyntheticOf(b), side, p);
      ForLevelConcat(orders, SyntheticOf(b), side, p);
      SyntheticOfBook(b, side, p);
    }
  }

  lemma EmptyLevels(side: Side, p: Price)
    ensures WellFormed(EMPTY) && LevelAt(EMPTY.On(side), p) == [] && EMPTY.Count() == 0
  {
  }

  // Replace forgets the old book and, on distinct non-empty orders, is the
  // snapshot level by level.
  lemma ReplaceExact(b: Book, orders: seq<Order>, side: Side, p: Price)
    ensures var e := SnapshotEffect(b, orders, Replace);
            && (e.result.Ok? <==> (Positive(orders) && Unique(orders)))
            && (e.result.Ok? ==>
                  && e.result.value == SnapshotOutcome(|orders|, 0)
                  && LevelAt(e.book.On(side), p) == ForLevel(orders, side, p))
  {
    assert orders + [] == orders;
    EmptyLevels(side, p);
    AddAllExact(EMPTY, orders);
    if Addable(EMPTY, orders) {
      AddAllAppends(EMPTY, orders, side, p);
    }
  }

  lemma {:induction false} AddAllExact(b: Book, orders: seq<Order>)
    requires WellFormed(b)
    ensures AddAll(b, orders).result.Ok? <==> Addable(b, orders)
    decreases |orders|
  {
    hide WellFormed, Insert, Live;
    if orders != [] && AddEffect(b, orders[0]).result.Ok? {
      var o, t := orders[0], orders[1..];
      AddedWellFormed(b, o);
      AddAllExact(Added(b, o), t);
      AddedLive(b, o);
      assert forall i :: 0 < i < |orders| ==> orders[i] == t[i - 1];
      assert forall i :: 0 <= i < |t| ==> t[i] == orders[i + 1];
    }
  }

  // Replace is not all or nothing: it has cleared the book before it meets the
  // first offending order.

  // Any book but the empty one is lost to a snapshot of one order without quantity.
  lemma ReplaceLosesBook(b: Book, o: Order)
    requires b != EMPTY && o.qty == 0
    ensures SnapshotEffect(b, [o], Replace) == Effect(EMPTY, Err(ZeroQty))
    ensures SnapshotEffect(b, [o], Replace).book != b
  {
  }

  // n orders go in, and the next one is rejected for this reason.
  ghost predicate StopsAt(b: Book, orders: seq<Order>, n: nat, error: BookError) {
    && n < |orders|
    && Addable(b, orders[..n])
    && if orders[n].qty == 0 then error == ZeroQty
       else error == DuplicateOrderId(orders[n].id) &&
            (Live(b, orders[n].id) || HasId(orders[..n], orders[n].id))
  }

  lemma {:induction false} AddAllStops(b: Book, orders: seq<Order>) returns (n: nat)
    requires WellFormed(b) && AddAll(b, orders).result.Err?
    ensures StopsAt(b, orders, n, AddAll(b, orders).result.error)
    ensures AddAll(b, orders).book == AddAll(b, orders[..n]).book
    decreases |orders|
  {
    hide WellFormed, Insert, Live;
    var o := orders[0];
    if AddEffect(b, o).result.Err? {
      n := 0;
    } else {
      AddedWellFormed(b, o);
      var m := AddAllStops(Added(b, o), orders[1..]);
      n := m + 1;
      AddedLive(b, o);
      assert orders[..n][0] == o && orders[..n][1..] == orders[1..][..m];
      StopsLater(b, orders, m, AddAll(b, orders).result.error);
    }
  }

  lemma StopsLater(b: Book, orders: seq<Order>, m: nat, error: BookError)
    requires orders != [] && orders[0].qty > 0 && !Live(b, orders[0].id)
    requires StopsAt(Added(b, orders[0]), orders[1..], m, error)
    ensures StopsAt(b, orders, m + 1, error)
  {
    hide Live;
    var o, t := orders[0], orders[1..][..m];
    AddedLive(b, o);
    assert orders[..m + 1] == [o] + t;
    HasIdCons(o, t, orders[m + 1].id);
    forall i | 0 <= i < |t|
      ensures t[i].id != o.id && !Live(b, t[i].id)
    {
      assert !Live(Added(b, o), t[i].id);
    }
  }

  lemma HasIdCons(o: Order, t: seq<Order>, id: OrderId)
    ensures HasId([o] + t, id) <==> o.id == id || HasId(t, id)
  {
    var s := [o] + t;
    assert s[0] == o;
    if HasId(t, id) {
      var i :| 0 <= i < |t| && t[i].id == id;
      assert s[i + 1].id == id;
    }
  }

  // What a rejected Replace leaves: the orders before the first offending one,
  // level by level, and that order's offence.
  lemma ReplaceStops(b: Book, orders: seq<Order>, side: Side, p: Price) returns (n: nat)
    requires SnapshotEffect(b, orders, Replace).result.Err?
    ensures var e := SnapshotEffect(b, orders, Replace);
            && StopsAt(EMPTY, orders, n, e.result.error)
            && WellFormed(e.book) && e.book.Count() == n
            && LevelAt(e.book.On(side), p) == ForLevel(orders[..n], side, p)
  {
    hide WellFormed, AddAll, LevelAt, ForLevel, StopsAt;
    assert orders + [] == orders;
    EmptyLevels(side, p);
    n := AddAllStops(EMPTY, orders);
    StopsAddable(EMPTY, orders, n, AddAll(EMPTY, orders).result.error);
    AddAllAppends(EMPTY, orders[..n], side, p);
  }

  lemma StopsAddable(b: Book, orders: seq<Order>, n: nat, error: BookError)
    requires StopsAt(b, orders, n, error)
    ensures n < |orders| && Addable(b, orders[..n])
  {
  }

  lemma AnotherBook(b: Book) returns (other: Book)
    ensures WellFormed(other) && other != b
  {
    other := if b == EMPTY then Book([Order(0, WalletId(0), Bid, 0, 1, 0)], []) else EMPTY;
  }

  // Replace is all or nothing on every book exactly for the snapshots it accepts.
  lemma ReplaceAtomic(orders: seq<Order>)
    ensures (forall b :: WellFormed(b) && SnapshotEffect(b, orders, Replace).result.Err? ==>
                           SnapshotEffect(b, orders, Replace).book == b)
            <==> Positive(orders) && Unique(orders)
  {
    hide AddAll, Positive, Unique, WellFormed;
    ReplaceExact(EMPTY, orders, Bid, 0);
    if !(Positive(orders) && Unique(orders)) {
      var left := SnapshotEffect(EMPTY, orders, Replace).book;
      var other := AnotherBook(left);
      assert SnapshotEffect(other, orders, Replace) == SnapshotEffect(EMPTY, orders, Replace);
    } else {
      forall b
        ensures SnapshotEffect(b, orders, Replace).result.Ok?
      {
        ReplaceExact(b, orders, Bid, 0);
      }
    }
  }

  lemma HasIdNext(orders: seq<Order>, i: nat)
    requires i < |orders|
    ensures forall id :: HasId(orders[..i + 1], id) <==> HasId(orders[..i], id) || id == orders[i].id
  {
    assert orders[..i + 1][i] == orders[i];
    assert forall k :: 0 <= k < i ==> orders[..i + 1][k] == orders[..i][k];
    forall id
      ensures HasId(orders[..i + 1], id) <==> HasId(orders[..i], id) || id == orders[i].id
    {
      if HasId(orders[..i], id) {
        var k :| 0 <= k < i && orders[..i][k].id == id;
        assert orders[..i + 1][k].id == id;
      }
    }
  }

  lemma {:induction false} AddAllWellFormed(b: Book, orders: seq<Order>)
    requires WellFormed(b)
    ensures WellFormed(AddAll(b, orders).book)
    decreases |orders|
  {
    hide WellFormed, Insert, Live;
    if orders != [] && AddEffect(b, orders[0]).result.Ok? {
      AddedWellFormed(b, orders[0]);
      AddAllWellFormed(Added(b, orders[0]), orders[1..]);
    }
  }

  lemma SnapshotWellFormed(b: Book, orders: seq<Order>, policy: SnapshotPolicy)
    requires WellFormed(b)
    ensures WellFormed(SnapshotEffect(b, orders, policy).book)
  {
    hide WellFormed, SyntheticOf, AddAll, Validate;
    var preserved := if policy == Replace then [] else SyntheticOf(b);
    EmptyLevels(Bid, 0);
    AddAllWellFormed(EMPTY, orders + preserved);
  }

  lemma AddKeepsCount(b: Book, o: Order)
    ensures AddEffect(b, o).book.Count() >= b.Count()
  {
  }

  // Where the whole list fits, so does the book after its first order.
  lemma NextFits(b: Book, orders: seq<Order>)
    requires WellFormed(b) && orders != [] && Fits(AddAll(b, orders).book)
    ensures Fits(AddEffect(b, orders[0]).book)
  {
    hide WellFormed, Fits, Insert, Live;
    if AddEffect(b, orders[0]).result.Ok? {
      AddedWellFormed(b, orders[0]);
      FitsAllAlong(Added(b, orders[0]), orders[1..]);
    }
  }
}
