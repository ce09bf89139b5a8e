// The adapter's per-message collapse of removals (src/dwellir.rs), from parsed
// diffs, and why replaying the collapsed operations means the same.
module Dwellir {
  import opened Types
  import opened PriceTime
  import opened AbstractBook
  import opened Replay

  // One book diff. A `new` diff carries its order if a status in the same message
  // resolved it.
  datatype Diff = Diff(oid: OrderId, raw: RawDiff)

  datatype RawDiff =
    | RemoveDiff
    | NewDiff(order: Option<Order>)
    | UpdateDiff(newQty: Qty)
    | ModifiedDiff(newQty: Qty)
    | UnknownDiff

  datatype UpdateBatch = UpdateBatch(
    ops: seq<BookOp>,
    collapsedCompleteFills: nat,
    droppedDuplicateRemoves: nat,
    unresolvedNew: nat)

  // A diff that ends its order: an explicit removal or a size of zero.
  predicate IsRemoval(d: Diff) {
    d.raw.RemoveDiff? || IsZeroSize(d)
  }

  predicate IsZeroSize(d: Diff) {
    (d.raw.UpdateDiff? || d.raw.ModifiedDiff?) && d.raw.newQty == 0
  }

  predicate IsUnresolved(d: Diff) {
    d.raw.NewDiff? && d.raw.order.None?
  }

  predicate IsUnknown(d: Diff) {
    d.raw.UnknownDiff?
  }

  // The operation of a diff that is neither dropped nor without meaning.
  function OpOf(d: Diff): Option<BookOp> {
    if IsRemoval(d) then Some(Remove(d.oid))
    else
      match d.raw
      case NewDiff(Some(order)) => Some(Add(order.(id := d.oid)))
      case UpdateDiff(q) => Some(UpdateSize(d.oid, q))
      case ModifiedDiff(q) => Some(AmendSize(d.oid, q))
      case _ => None
  }

  // Decode one message: one removal per order id, zero sizes read as removals.
  method DecodeUpdates(diffs: seq<Diff>) returns (batch: UpdateBatch)
    ensures batch.ops == Collapsed(diffs)
    ensures batch.collapsedCompleteFills == Count(diffs, IsZeroSize)
    ensures batch.unresolvedNew == Count(diffs, IsUnresolved)
    ensures batch.droppedDuplicateRemoves == Dropped(diffs)
    ensures |batch.ops| + batch.droppedDuplicateRemoves + batch.unresolvedNew + Count(diffs, IsUnknown) == |diffs|
  {
    hide Decoded, Collapsed, Dropped, Count, RemovedIn;
    NothingLost(diffs);
    DecodedNothing();
    var ops: seq<BookOp> := [];
    var removed: set<OrderId> := {};
    var collapsedCompleteFills, droppedDuplicateRemoves, unresolvedNew := 0, 0, 0;
    assert diffs[..0] == [];
    for i := 0 to |diffs|
      invariant Decoded(diffs[..i], ops, removed, collapsedCompleteFills, droppedDuplicateRemoves, unresolvedNew)
    {
      var d := diffs[i];
      assert diffs[..i + 1] == diffs[..i] + [d];
      ghost var ops0, removed0, collapsed0, dropped0, unresolved0 :=
        ops, removed, collapsedCompleteFills, droppedDuplicateRemoves, unresolvedNew;
      match d.raw {
        case RemoveDiff =>
          if d.oid !in removed {
            removed := removed + {d.oid};
            ops := ops + [Remove(d.oid)];
          } else {
            droppedDuplicateRemoves := droppedDuplicateRemoves + 1;
          }
        case NewDiff(None) =>
          unresolvedNew := unresolvedNew + 1;
        case NewDiff(Some(order)) =>
          ops := ops + [Add(order.(id := d.oid))];
        case UpdateDiff(q) =>
          if q == 0 {
            collapsedCompleteFills := collapsedCompleteFills + 1;
            if d.oid !in removed {
              removed := removed + {d.oid};
              ops := ops + [Remove(d.oid)];
            } else {
              droppedDuplicateRemoves := droppedDuplicateRemoves + 1;
            }
          } else {
            ops := ops + [UpdateSize(d.oid, q)];
          }
        case ModifiedDiff(q) =>
          if q == 0 {
            collapsedCompleteFills := collapsedCompleteFills + 1;
            if d.oid !in removed {
              removed := removed + {d.oid};
              ops := ops + [Remove(d.oid)];
            } else {
              droppedDuplicateRemoves := droppedDuplicateRemoves + 1;
            }
          } else {
            ops := ops + [AmendSize(d.oid, q)];
          }
        case UnknownDiff =>
      }
      DecodedNext(diffs[..i], d, ops0, removed0, collapsed0, dropped0, unresolved0, ops, removed);
    }
    assert diffs[..|diffs|] == diffs;
    DecodedCounts(diffs, ops, removed, collapsedCompleteFills, droppedDuplicateRemoves, unresolvedNew);
    batch := UpdateBatch(ops, collapsedCompleteFills, droppedDuplicateRemoves, unresolvedNew);
  }

  // The specification: what each prefix of the message has removed.
  ghost predicate RemovedIn(diffs: seq<Diff>, id: OrderId) {
    exists i :: 0 <= i < |diffs| && diffs[i].oid == id && IsRemoval(diffs[i])
  }

  ghost function Collapsed(diffs: seq<Diff>): seq<BookOp>
    decreases |diffs|
  {
    if diffs == [] then []
    else
      var front, d := diffs[..|diffs| - 1], diffs[|diffs| - 1];
      Collapsed(front) + Step(front, d)
  }

  // What one more diff contributes.
  ghost function Step(front: seq<Diff>, d: Diff): seq<BookOp> {
    if IsRemoval(d) && RemovedIn(front, d.oid) then []
    else if OpOf(d).Some? then [OpOf(d).value]
    else []
  }

  ghost function Dropped(diffs: seq<Diff>): nat
    decreases |diffs|
  {
    if diffs == [] then 0
    else
      var front, d := diffs[..|diffs| - 1], diffs[|diffs| - 1];
      Dropped(front) + if IsRemoval(d) && RemovedIn(front, d.oid) then 1 else 0
  }

  ghost function Count(diffs: seq<Diff>, p: Diff -> bool): nat
    decreases |diffs|
  {
    if diffs == [] then 0
    else Count(diffs[..|diffs| - 1], p) + if p(diffs[|diffs| - 1]) then 1 else 0
  }

  // What the decoder knows after a prefix of the message.
  ghost predicate Decoded(diffs: seq<Diff>, ops: seq<BookOp>, removed: set<OrderId>,
                          collapsed: nat, dropped: nat, unresolved: nat) {
    && ops == Collapsed(diffs)
    && (forall id :: id in removed <==> RemovedIn(diffs, id))
    && collapsed == Count(diffs, IsZeroSize)
    && dropped == Dropped(diffs)
    && unresolved == Count(diffs, IsUnresolved)
  }

  lemma DecodedNothing()
    ensures Decoded([], [], {}, 0, 0, 0)
  {
  }

  lemma DecodedCounts(diffs: seq<Diff>, ops: seq<BookOp>, removed: set<OrderId>,
                      collapsed: nat, dropped: nat, unresolved: nat)
    requires Decoded(diffs, ops, removed, collapsed, dropped, unresolved)
    ensures ops == Collapsed(diffs) && collapsed == Count(diffs, IsZeroSize)
    ensures dropped == Dropped(diffs) && unresolved == Count(diffs, IsUnresolved)
  {
  }

  lemma DecodedNext(front: seq<Diff>, d: Diff, ops: seq<BookOp>, removed: set<OrderId>,
                    collapsed: nat, dropped: nat, unresolved: nat, ops': seq<BookOp>, removed': set<OrderId>)
    requires Decoded(front, ops, removed, collapsed, dropped, unresolved)
    requires removed' == if IsRemoval(d) then removed + {d.oid} else removed
    requires ops' == if (IsRemoval(d) && d.oid in removed) || OpOf(d).None? then ops else ops + [OpOf(d).value]
    ensures Decoded(front + [d], ops', removed',
                    collapsed + if IsZeroSize(d) then 1 else 0,
                    dropped + if IsRemoval(d) && d.oid in removed then 1 else 0,
                    unresolved + if IsUnresolved(d) then 1 else 0)
  {
    hide Collapsed, RemovedIn, Count, Dropped;
    NextDiff(front, d);
  }

  lemma NextDiff(front: seq<Diff>, d: Diff)
    ensures Collapsed(front + [d]) == Collapsed(front) + Step(front, d)
    ensures forall id :: RemovedIn(front + [d], id) <==> RemovedIn(front, id) || (IsRemoval(d) && d.oid == id)
    ensures forall p :: Count(front + [d], p) == Count(front, p) + if p(d) then 1 else 0
    ensures Dropped(front + [d]) == Dropped(front) + if IsRemoval(d) && RemovedIn(front, d.oid) then 1 else 0
  {
    var all := front + [d];
    assert all[..|all| - 1] == front && all[|all| - 1] == d;
    forall id
      ensures RemovedIn(all, id) <==> RemovedIn(front, id) || (IsRemoval(d) && d.oid == id)
    {
      if RemovedIn(front, id) {
        var i :| 0 <= i < |front| && front[i].oid == id && IsRemoval(front[i]);
        assert all[i].oid == id && IsRemoval(all[i]);
      }
    }
  }

  // Every diff is an operation, a dropped removal, an unresolved new or unknown.
  lemma {:induction false} NothingLost(diffs: seq<Diff>)
    ensures |Collapsed(diffs)| + Dropped(diffs) + Count(diffs, IsUnresolved) + Count(diffs, IsUnknown) == |diffs|
    decreases |diffs|
  {
    if diffs != [] {
      var front, d := diffs[..|diffs| - 1], diffs[|diffs| - 1];
      NothingLost(front);
      hide RemovedIn;
    }
  }

  // What each diff becomes, read off the wire: it adds at most one operation behind
  // those of the diffs before it.
  lemma DiffDecoded(diffs: seq<Diff>, k: nat)
    requires k < |diffs|
    ensures var d := diffs[k];
            var zero := (d.raw.UpdateDiff? || d.raw.ModifiedDiff?) && d.raw.newQty == 0;
            var again := exists i :: 0 <= i < k && diffs[i].oid == d.oid &&
                                     (diffs[i].raw.RemoveDiff? ||
                                      ((diffs[i].raw.UpdateDiff? || diffs[i].raw.ModifiedDiff?) && diffs[i].raw.newQty == 0));
            Collapsed(diffs[..k + 1]) ==
            Collapsed(diffs[..k]) +
            match d.raw
            case RemoveDiff => if again then [] else [Remove(d.oid)]
            case NewDiff(order) => if order.Some? then [Add(order.value.(id := d.oid))] else []
            case UpdateDiff(q) => if !zero then [UpdateSize(d.oid, q)] else if again then [] else [Remove(d.oid)]
            case ModifiedDiff(q) => if !zero then [AmendSize(d.oid, q)] else if again then [] else [Remove(d.oid)]
            case UnknownDiff => []
  {
    var front, d := diffs[..k], diffs[k];
    assert diffs[..k + 1] == front + [d];
    NextDiff(front, d);
    assert RemovedIn(front, d.oid) <==> exists i :: 0 <= i < k && diffs[i].oid == d.oid && IsRemoval(diffs[i]) by {
      assert forall i :: 0 <= i < k ==> front[i] == diffs[i];
    }
    hide Collapsed, RemovedIn;
  }

  // No order id is removed twice.
  lemma {:induction false} OneRemovalEach(diffs: seq<Diff>, i: nat, j: nat)
    requires i < j < |Collapsed(diffs)|
    requires Collapsed(diffs)[i].Remove? && Collapsed(diffs)[j].Remove?
    ensures Collapsed(diffs)[i].id != Collapsed(diffs)[j].id
    decreases |diffs|
  {
    var front, d := diffs[..|diffs| - 1], diffs[|diffs| - 1];
    if j < |Collapsed(front)| {
      OneRemovalEach(front, i, j);
    } else {
      RemovalHasDiff(front, i);
    }
  }

  lemma {:induction false} RemovalHasDiff(diffs: seq<Diff>, i: nat)
    requires i < |Collapsed(diffs)| && Collapsed(diffs)[i].Remove?
    ensures RemovedIn(diffs, Collapsed(diffs)[i].id)
    decreases |diffs|
  {
    var front, d := diffs[..|diffs| - 1], diffs[|diffs| - 1];
    assert diffs == front + [d];
    NextDiff(front, d);
    if i < |Collapsed(front)| {
      RemovalHasDiff(front, i);
    }
  }

  // The naive stream: one operation per meaningful diff, zero sizes as they come
  // and every removal kept.

  ghost function NaiveStep(d: Diff): seq<BookOp> {
    match d.raw
    case RemoveDiff => [Remove(d.oid)]
    case NewDiff(Some(order)) => [Add(order.(id := d.oid))]
    case UpdateDiff(q) => [UpdateSize(d.oid, q)]
    case ModifiedDiff(q) => [AmendSize(d.oid, q)]
    case _ => []
  }

  ghost function Naive(diffs: seq<Diff>): seq<BookOp>
    decreases |diffs|
  {
    if diffs == [] then [] else Naive(diffs[..|diffs| - 1]) + NaiveStep(diffs[|diffs| - 1])
  }

  ghost function NaiveBook(b: Book, diffs: seq<Diff>): Book {
    ReplayAll(b, Naive(diffs), DWELLIR_TOLERANT)
  }

  ghost function CollapsedBook(b: Book, diffs: seq<Diff>): Book {
    ReplayAll(b, Collapsed(diffs), DWELLIR_TOLERANT)
  }

  // A diff that puts an order with this id on the book.
  predicate Readds(d: Diff, id: OrderId) {
    d.oid == id && d.raw.NewDiff? && d.raw.order.Some? && d.raw.order.value.qty > 0
  }

  // The id was added after having been removed.
  ghost predicate ReaddedIn(diffs: seq<Diff>, id: OrderId) {
    exists i, j :: 0 <= i < j < |diffs| && diffs[i].oid == id && IsRemoval(diffs[i]) && Readds(diffs[j], id)
  }

  // A removal that the collapse drops although its id was added back.
  ghost predicate LostAt(diffs: seq<Diff>, k: nat)
    requires k < |diffs|
  {
    IsRemoval(diffs[k]) && ReaddedIn(diffs[..k], diffs[k].oid)
  }

  // Some id is removed, added back, and removed again.
  ghost predicate Revives(diffs: seq<Diff>) {
    exists k :: 0 <= k < |diffs| && LostAt(diffs, k)
  }

  lemma ReaddedNext(front: seq<Diff>, d: Diff, id: OrderId)
    ensures ReaddedIn(front + [d], id) <==> ReaddedIn(front, id) || (RemovedIn(front, id) && Readds(d, id))
  {
    var all := front + [d];
    if ReaddedIn(front, id) {
      var i, j :| 0 <= i < j < |front| && front[i].oid == id && IsRemoval(front[i]) && Readds(front[j], id);
      assert all[i] == front[i] && all[j] == front[j];
    }
    if RemovedIn(front, id) && Readds(d, id) {
      var i :| 0 <= i < |front| && front[i].oid == id && IsRemoval(front[i]);
      assert all[i] == front[i] && all[|front|] == d;
    }
    if ReaddedIn(all, id) {
      var i, j :| 0 <= i < j < |all| && all[i].oid == id && IsRemoval(all[i]) && Readds(all[j], id);
      assert all[i] == front[i];
      assert j < |front| ==> all[j] == front[j];
    }
  }

  lemma RevivesNext(front: seq<Diff>, d: Diff)
    ensures Revives(front + [d]) <==> Revives(front) || (IsRemoval(d) && ReaddedIn(front, d.oid))
  {
    hide ReaddedIn;
    var all := front + [d];
    forall k | 0 <= k <= |front|
      ensures all[..k] == front[..k] && (k < |front| ==> all[k] == front[k])
    {
    }
    assert front[..|front|] == front && all[|front|] == d;
    if Revives(front) {
      var k :| 0 <= k < |front| && LostAt(front, k);
      assert LostAt(all, k);
    }
    if Revives(all) {
      var k :| 0 <= k < |all| && LostAt(all, k);
      assert k < |front| ==> LostAt(front, k);
    }
    if IsRemoval(d) && ReaddedIn(front, d.oid) {
      assert LostAt(all, |front|);
    }
  }

  // One more operation at the end of a stream.
  ghost function After(b: Book, ops: seq<BookOp>): Book
    requires |ops| <= 1
  {
    if ops == [] then b else EffectOf(b, ops[0], DWELLIR_TOLERANT).book
  }

  lemma ReplayLast(b: Book, ops: seq<BookOp>, more: seq<BookOp>)
    requires |more| <= 1
    ensures ReplayAll(b, ops + more, DWELLIR_TOLERANT) == After(ReplayAll(b, ops, DWELLIR_TOLERANT), more)
  {
    hide EffectOf;
    ReplayAllConcat(b, ops, more, DWELLIR_TOLERANT);
    if more != [] {
      assert more[1..] == [];
    }
  }

  lemma NaiveNext(b: Book, front: seq<Diff>, d: Diff)
    ensures NaiveBook(b, front + [d]) == After(NaiveBook(b, front), NaiveStep(d))
  {
    assert (front + [d])[..|front|] == front;
    ReplayLast(b, Naive(front), NaiveStep(d));
  }

  lemma CollapsedNext(b: Book, front: seq<Diff>, d: Diff)
    ensures CollapsedBook(b, front + [d]) == After(CollapsedBook(b, front), Step(front, d))
  {
    NextDiff(front, d);
    ReplayLast(b, Collapsed(front), Step(front, d));
  }

  lemma {:induction false} NaiveWellFormed(b: Book, diffs: seq<Diff>)
    requires WellFormed(b)
    ensures WellFormed(NaiveBook(b, diffs))
    decreases |diffs|
  {
    hide WellFormed, EffectOf;
    if diffs != [] {
      var front, d := diffs[..|diffs| - 1], diffs[|diffs| - 1];
      assert diffs == front + [d];
      NaiveWellFormed(b, front);
      NaiveNext(b, front, d);
      if NaiveStep(d) != [] {
        ReplayWellFormed(NaiveBook(b, front), NaiveStep(d)[0], DWELLIR_TOLERANT);
      }
    }
  }

  lemma {:induction false} CollapsedWellFormed(b: Book, diffs: seq<Diff>)
    requires WellFormed(b)
    ensures WellFormed(CollapsedBook(b, diffs))
    decreases |diffs|
  {
    hide WellFormed, EffectOf, Step;
    if diffs != [] {
      var front, d := diffs[..|diffs| - 1], diffs[|diffs| - 1];
      assert diffs == front + [d];
      CollapsedWellFormed(b, front);
      CollapsedNext(b, front, d);
      StepIsShort(front, d);
      if Step(front, d) != [] {
        ReplayWellFormed(CollapsedBook(b, front), Step(front, d)[0], DWELLIR_TOLERANT);
      }
    }
  }

  lemma StepIsShort(front: seq<Diff>, d: Diff)
    ensures |Step(front, d)| <= 1
  {
  }

  // A removal in either form takes the order out, if it is there.
  lemma RemovalEffect(b: Book, d: Diff)
    requires WellFormed(b) && IsRemoval(d)
    ensures After(b, NaiveStep(d)) == if Live(b, d.oid) then Removed(b, d.oid) else b
    ensures After(b, [Remove(d.oid)]) == After(b, NaiveStep(d))
    ensures !Live(After(b, NaiveStep(d)), d.oid)
  {
    hide WellFormed, Removed;
    if Live(b, d.oid) {
      FindPositive(b, d.oid);
      RemovedIsGone(b, d.oid);
    }
  }

  lemma RemovedIsGone(b: Book, id: OrderId)
    requires WellFormed(b) && Live(b, id)
    ensures !Live(Removed(b, id), id)
    ensures Removed(b, id) != b
    ensures forall other :: other != id ==> (Live(Removed(b, id), other) <==> Live(b, other))
  {
    var side, k := SideOf(b, id), IndexOf(b, id);
    var s := b.On(side);
    RemoveElements(s, k);
    forall other | other != id
      ensures HasId(RemoveAt(s, k), other) <==> HasId(s, other)
    {
      if HasId(s, other) {
        var i :| 0 <= i < |s| && s[i].id == other;
        assert RemoveAt(s, k)[if i < k then i else i - 1].id == other;
      }
    }
    assert |RemoveAt(s, k)| == |s| - 1;
  }

  // A diff that is no removal does the same in both streams and takes no order out.
  lemma OtherEffect(b: Book, front: seq<Diff>, d: Diff)
    requires WellFormed(b) && !IsRemoval(d)
    ensures Step(front, d) == NaiveStep(d)
    ensures forall id :: Live(After(b, NaiveStep(d)), id) <==> Live(b, id) || Readds(d, id)
  {
    hide WellFormed;
    match d.raw
    case NewDiff(Some(order)) =>
      var o := order.(id := d.oid);
      if !Live(b, o.id) && o.qty > 0 {
        AddedLive(b, o);
      }
    case UpdateDiff(q) =>
      if Live(b, d.oid) {
        ResizedIds(b, d.oid, q);
      }
    case ModifiedDiff(q) =>
      if Live(b, d.oid) {
        ResizedIds(b, d.oid, q);
      }
    case _ =>
  }

  lemma ResizedIds(b: Book, id: OrderId, q: Qty)
    requires Live(b, id)
    ensures forall other :: Live(Resized(b, id, q), other) <==> Live(b, other)
  {
    var s, k := b.On(SideOf(b, id)), IndexOf(b, id);
    var t := ResizeAt(s, k, q);
    forall other
      ensures HasId(t, other) <==> HasId(s, other)
    {
      assert forall i :: 0 <= i < |s| ==> t[i].id == s[i].id;
    }
  }

  // Once an id is removed, the collapsed replay has it live exactly if it was
  // added back at any time ...
  lemma {:induction false} CollapsedLiveness(b: Book, diffs: seq<Diff>, id: OrderId)
    requires WellFormed(b) && RemovedIn(diffs, id)
    ensures Live(CollapsedBook(b, diffs), id) <==> ReaddedIn(diffs, id)
    decreases |diffs|
  {
    hide WellFormed, ReaddedIn, EffectOf, Live, After, RemovedIn, CollapsedBook;
    NothingRemoved(id);
    var front, d := diffs[..|diffs| - 1], diffs[|diffs| - 1];
    assert diffs == front + [d];
    ReaddedNext(front, d, id);
    NextDiff(front, d);
    CollapsedNext(b, front, d);
    CollapsedWellFormed(b, front);
    var now := CollapsedBook(b, front);
    if RemovedIn(front, id) {
      CollapsedLiveness(b, front, id);
    } else {
      NotReadded(front, id);
    }
    if !IsRemoval(d) {
      OtherEffect(now, front, d);
    } else if RemovedIn(front, d.oid) {
      AfterNothing(now);
    } else {
      RemovalEffect(now, d);
      OthersStay(now, d);
    }
  }

  lemma AfterNothing(b: Book)
    ensures After(b, []) == b
  {
  }

  predicate Removes(d: Diff, id: OrderId) {
    IsRemoval(d) && d.oid == id
  }

  // The id was added and not removed after that.
  ghost predicate BackAgain(diffs: seq<Diff>, id: OrderId) {
    exists j :: 0 <= j < |diffs| && Readds(diffs[j], id) && forall i :: j < i < |diffs| ==> !Removes(diffs[i], id)
  }

  lemma BackNext(front: seq<Diff>, d: Diff, id: OrderId)
    ensures BackAgain(front + [d], id) <==> Readds(d, id) || (BackAgain(front, id) && !Removes(d, id))
  {
    var all := front + [d];
    assert all[|front|] == d;
    if BackAgain(front, id) && !Removes(d, id) {
      var j :| 0 <= j < |front| && Readds(front[j], id) && forall i :: j < i < |front| ==> !Removes(front[i], id);
      assert Readds(all[j], id) && forall i :: j < i < |all| ==> !Removes(all[i], id);
    }
    if BackAgain(all, id) {
      var j :| 0 <= j < |all| && Readds(all[j], id) && forall i :: j < i < |all| ==> !Removes(all[i], id);
      if j < |front| {
        assert !Removes(all[|front|], id);
        assert Readds(front[j], id) && forall i :: j < i < |front| ==> front[i] == all[i] && !Removes(front[i], id);
      }
    }
  }

  // ... and the naive one exactly if it was added back for good.
  lemma {:induction false} NaiveLiveness(b: Book, diffs: seq<Diff>, id: OrderId)
    requires WellFormed(b) && RemovedIn(diffs, id)
    ensures Live(NaiveBook(b, diffs), id) <==> BackAgain(diffs, id)
    decreases |diffs|
  {
    hide WellFormed, BackAgain, EffectOf, Live, After, RemovedIn, NaiveBook;
    NothingRemoved(id);
    var front, d := diffs[..|diffs| - 1], diffs[|diffs| - 1];
    assert diffs == front + [d];
    BackNext(front, d, id);
    NextDiff(front, d);
    NaiveNext(b, front, d);
    NaiveWellFormed(b, front);
    var now := NaiveBook(b, front);
    if RemovedIn(front, id) {
      NaiveLiveness(b, front, id);
    }
    if IsRemoval(d) {
      RemovalEffect(now, d);
      OthersStay(now, d);
    } else {
      OtherEffect(now, front, d);
    }
  }

  // An id that is never removed is live in both or in neither.
  lemma {:induction false} KeptLiveness(b: Book, diffs: seq<Diff>, id: OrderId)
    requires WellFormed(b) && !RemovedIn(diffs, id)
    ensures Live(NaiveBook(b, diffs), id) <==> Live(CollapsedBook(b, diffs), id)
    decreases |diffs|
  {
    if diffs != [] {
      hide WellFormed, EffectOf, Live, After, RemovedIn, NaiveBook, CollapsedBook;
      var front, d := diffs[..|diffs| - 1], diffs[|diffs| - 1];
      assert diffs == front + [d];
      NextDiff(front, d);
      NaiveNext(b, front, d);
      CollapsedNext(b, front, d);
      NaiveWellFormed(b, front);
      CollapsedWellFormed(b, front);
      KeptLiveness(b, front, id);
      var naive, collapsed := NaiveBook(b, front), CollapsedBook(b, front);
      if IsRemoval(d) {
        OthersStay(naive, d);
        OthersStay(collapsed, d);
        RemovalEffect(collapsed, d);
        AfterNothing(collapsed);
      } else {
        OtherEffect(naive, front, d);
        OtherEffect(collapsed, front, d);
      }
    }
  }

  lemma NothingRemoved(id: OrderId)
    ensures !RemovedIn([], id)
  {
  }

  lemma NotReadded(diffs: seq<Diff>, id: OrderId)
    requires !RemovedIn(diffs, id)
    ensures !ReaddedIn(diffs, id)
  {
  }

  lemma OthersStay(b: Book, d: Diff)
    requires WellFormed(b) && IsRemoval(d)
    ensures forall id :: id != d.oid ==> (Live(After(b, NaiveStep(d)), id) <==> Live(b, id))
  {
    hide WellFormed, Live, After;
    RemovalEffect(b, d);
    if Live(b, d.oid) {
      RemovedIsGone(b, d.oid);
    }
  }

  // The two replays agree after every diff of the message.
  ghost predicate Agree(b: Book, diffs: seq<Diff>) {
    forall n :: 0 <= n <= |diffs| ==> NaiveBook(b, diffs[..n]) == CollapsedBook(b, diffs[..n])
  }

  lemma AgreeNext(b: Book, front: seq<Diff>, d: Diff)
    ensures Agree(b, front + [d]) <==>
            Agree(b, front) && NaiveBook(b, front + [d]) == CollapsedBook(b, front + [d])
  {
    hide NaiveBook, CollapsedBook;
    var all := front + [d];
    assert all[..|all|] == all && front[..|front|] == front;
    assert forall n :: 0 <= n <= |front| ==> all[..n] == front[..n];
  }

  lemma AgreeNothing(b: Book)
    ensures Agree(b, []) && !Revives([])
  {
  }

  // The next diff keeps agreeing books in agreement unless it removes an id that
  // was removed and added back.
  lemma StepAgrees(b: Book, front: seq<Diff>, d: Diff)
    requires WellFormed(b) && !Revives(front) && NaiveBook(b, front) == CollapsedBook(b, front)
    ensures NaiveBook(b, front + [d]) == CollapsedBook(b, front + [d]) <==>
            !(IsRemoval(d) && ReaddedIn(front, d.oid))
  {
    hide WellFormed, Revives, ReaddedIn, EffectOf, Live, RemovedIn, NaiveBook, CollapsedBook, Removed;
    var now := NaiveBook(b, front);
    NaiveNext(b, front, d);
    CollapsedNext(b, front, d);
    NaiveWellFormed(b, front);
    if IsRemoval(d) {
      RemovalEffect(now, d);
      if RemovedIn(front, d.oid) {
        CollapsedLiveness(b, front, d.oid);
        if Live(now, d.oid) {
          RemovedIsGone(now, d.oid);
        }
      } else {
        NotReadded(front, d.oid);
      }
    } else {
      OtherEffect(now, front, d);
    }
  }

  // Collapsing preserves meaning: on every book, the collapsed message agrees with
  // the naive one after every diff, exactly if no id is removed, added back and
  // removed again within the message.
  lemma {:induction false} CollapseAgrees(b: Book, diffs: seq<Diff>)
    requires WellFormed(b)
    ensures Agree(b, diffs) <==> !Revives(diffs)
    decreases |diffs|
  {
    hide WellFormed, Revives, ReaddedIn, NaiveBook, CollapsedBook, Agree;
    if diffs == [] {
      AgreeNothing(b);
    } else {
      var front, d := diffs[..|diffs| - 1], diffs[|diffs| - 1];
      assert diffs == front + [d];
      CollapseAgrees(b, front);
      RevivesNext(front, d);
      AgreeNext(b, front, d);
      if !Revives(front) {
        AgreeAtEnd(b, front);
        StepAgrees(b, front, d);
      }
    }
  }

  lemma AgreeAtEnd(b: Book, diffs: seq<Diff>)
    requires Agree(b, diffs)
    ensures NaiveBook(b, diffs) == CollapsedBook(b, diffs)
  {
    assert diffs[..|diffs|] == diffs;
  }

  lemma RevivalReadds(diffs: seq<Diff>) returns (i: nat, j: nat)
    requires Revives(diffs)
    ensures i < j < |diffs| && IsRemoval(diffs[i]) && Readds(diffs[j], diffs[i].oid)
  {
    var k :| 0 <= k < |diffs| && LostAt(diffs, k);
    var front := diffs[..k];
    i, j :| 0 <= i < j < |front| && front[i].oid == diffs[k].oid && IsRemoval(front[i])
            && Readds(front[j], diffs[k].oid);
  }

  // No id that the message removes is ever added back in it.
  lemma CollapsePreservesMeaning(b: Book, diffs: seq<Diff>)
    requires WellFormed(b)
    requires forall i, j :: 0 <= i < j < |diffs| && IsRemoval(diffs[i]) ==> !Readds(diffs[j], diffs[i].oid)
    ensures CollapsedBook(b, diffs) == NaiveBook(b, diffs)
  {
    hide WellFormed, NaiveBook, CollapsedBook, Agree;
    if Revives(diffs) {
      var i, j := RevivalReadds(diffs);
    }
    CollapseAgrees(b, diffs);
    AgreeAtEnd(b, diffs);
  }

  // At the end of any message: every order the naive replay has live is live in
  // the collapsed one, which has an id too many exactly if that was added back
  // after a removal and removed again for good.
  lemma LivenessDiffers(b: Book, diffs: seq<Diff>, id: OrderId)
    requires WellFormed(b)
    ensures Live(NaiveBook(b, diffs), id) ==> Live(CollapsedBook(b, diffs), id)
    ensures Live(CollapsedBook(b, diffs), id) && !Live(NaiveBook(b, diffs), id) <==>
            ReaddedIn(diffs, id) && !BackAgain(diffs, id)
  {
    if RemovedIn(diffs, id) {
      BackIsReadded(diffs, id);
      hide WellFormed, Live, NaiveBook, CollapsedBook, ReaddedIn, BackAgain;
      CollapsedLiveness(b, diffs, id);
      NaiveLiveness(b, diffs, id);
    } else {
      NotReadded(diffs, id);
      KeptLiveness(b, diffs, id);
    }
  }

  lemma BackIsReadded(diffs: seq<Diff>, id: OrderId)
    requires RemovedIn(diffs, id)
    ensures BackAgain(diffs, id) ==> ReaddedIn(diffs, id)
  {
    var i :| 0 <= i < |diffs| && diffs[i].oid == id && IsRemoval(diffs[i]);
    assert Removes(diffs[i], id);
  }

  // Unless its id is added back once more, a lost removal leaves its order on the
  // book at the end of the message.
  lemma RevivedOrderSurvives(b: Book, diffs: seq<Diff>, k: nat)
    requires WellFormed(b) && k < |diffs| && LostAt(diffs, k)
    requires forall j :: k < j < |diffs| ==> !Readds(diffs[j], diffs[k].oid)
    ensures Live(CollapsedBook(b, diffs), diffs[k].oid) && !Live(NaiveBook(b, diffs), diffs[k].oid)
  {
    hide WellFormed, Live, NaiveBook, CollapsedBook;
    var id := diffs[k].oid;
    var i, j :| 0 <= i < j < k && diffs[..k][i].oid == id && IsRemoval(diffs[..k][i]) && Readds(diffs[..k][j], id);
    assert diffs[i].oid == id && IsRemoval(diffs[i]) && Readds(diffs[j], id);
    assert Removes(diffs[k], id);
    LivenessDiffers(b, diffs, id);
  }

  // So the two replays end in the same book exactly if no removal is lost, for
  // every message that adds no id back after losing its removal.
  lemma EndsAlikeUnlessRevived(b: Book, diffs: seq<Diff>)
    requires WellFormed(b)
    requires forall k, j :: 0 <= k < j < |diffs| && LostAt(diffs, k) ==> !Readds(diffs[j], diffs[k].oid)
    ensures NaiveBook(b, diffs) == CollapsedBook(b, diffs) <==> !Revives(diffs)
  {
    hide WellFormed, Live, NaiveBook, CollapsedBook, LostAt, Agree;
    if Revives(diffs) {
      var k :| 0 <= k < |diffs| && LostAt(diffs, k);
      RevivedOrderSurvives(b, diffs, k);
    } else {
      CollapseAgrees(b, diffs);
      AgreeAtEnd(b, diffs);
    }
  }

  // Where one is, the books can still end alike: after removing an order, adding
  // it back, removing it and adding it back once more.
  lemma RevivalMayHeal(b: Book, order: Order)
    requires WellFormed(b) && order.qty > 0
    ensures var remove, add := Diff(order.id, RemoveDiff), Diff(order.id, NewDiff(Some(order)));
            var twice := [remove] + [add] + [remove] + [add];
            Revives(twice) && NaiveBook(b, twice) == CollapsedBook(b, twice)
  {
    hide WellFormed, EffectOf, After, NaiveBook, CollapsedBook, Live, Revives, Removed, Added, RemovedIn, ReaddedIn;
    var id := order.id;
    var remove, add := Diff(id, RemoveDiff), Diff(id, NewDiff(Some(order)));
    var one := [remove];
    assert [] + one == one;
    var two := one + [add];
    var three := two + [remove];
    NothingRemoved(id);
    NothingReplayed(b);
    NextDiff([], remove);
    NextDiff(one, add);
    NextDiff(two, remove);
    ReaddedNext(one, add, id);
    RevivesNext(two, remove);
    RevivesNext(three, add);
    NaiveWellFormed(b, one);
    NaiveNext(b, [], remove);
    CollapsedNext(b, [], remove);
    RemovalEffect(NaiveBook(b, []), remove);
    AddAndUndo(NaiveBook(b, one), order);
    NaiveNext(b, one, add);
    CollapsedNext(b, one, add);
    NaiveWellFormed(b, two);
    RemovalEffect(NaiveBook(b, two), remove);
    NaiveNext(b, two, remove);
    CollapsedNext(b, two, remove);
    AfterNothing(CollapsedBook(b, two));
    NaiveNext(b, three, add);
    CollapsedNext(b, three, add);
  }

  lemma NothingReplayed(b: Book)
    ensures NaiveBook(b, []) == b && CollapsedBook(b, []) == b
  {
  }

  // Adding a fresh order, removing it again, and adding it twice.
  lemma AddAndUndo(b: Book, o: Order)
    requires WellFormed(b) && !Live(b, o.id) && o.qty > 0
    ensures After(b, [Add(o)]) == Added(b, o)
    ensures Live(Added(b, o), o.id) && Removed(Added(b, o), o.id) == b
    ensures After(Added(b, o), [Add(o)]) == Added(b, o)
  {
    hide WellFormed, Live, RemoveAt;
    var s := b.On(o.side);
    var k := InsertPos(o.side, s, o.price);
    AddedWellFormed(b, o);
    InsertElements(o.side, s, o);
    assert Added(b, o).On(o.side)[k] == o;
    FindIs(Added(b, o), o.side, k);
    RemoveInserted(o.side, s, o);
  }

  lemma RemoveInserted(side: Side, s: seq<Order>, o: Order)
    ensures RemoveAt(Insert(side, s, o), InsertPos(side, s, o.price)) == s
  {
    InsertElements(side, s, o);
  }
}
