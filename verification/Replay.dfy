// Applying operations under a replay policy.
module Replay {
  import opened Types
  import opened AbstractBook

  datatype ReplayEffect = ReplayEffect(book: Book, outcome: ReplayApplyOutcome)

  // The plain operation, reported as applied or failed.
  ghost function Plain(b: Book, op: BookOp): ReplayEffect {
    var e := ApplyEffect(b, op);
    ReplayEffect(e.book, if e.result.Ok? then Applied(op) else Failed(op, e.result.error))
  }

  ghost function Missing(b: Book, op: BookOp, id: OrderId, policy: ReplayPolicy): ReplayEffect {
    if policy.missingOrder == MissingSkip then ReplayEffect(b, Skipped(op, MissingOrder(id)))
    else ReplayEffect(b, Failed(op, UnknownOrderId(id)))
  }

  ghost function EffectOf(b: Book, op: BookOp, policy: ReplayPolicy): ReplayEffect {
    match op
    case Add(order) =>
      if !Live(b, order.id) then Plain(b, op)
      else if policy.duplicateAdd == DuplicateSkip then ReplayEffect(b, Skipped(op, DuplicateAdd(order.id)))
      else ReplayEffect(b, Failed(op, DuplicateOrderId(order.id)))
    case Remove(id) =>
      if !Live(b, id) then Missing(b, op, id, policy) else Plain(b, op)
    case UpdateSize(id, q) =>
      if !Live(b, id) then Missing(b, op, id, policy)
      else
        var current := Find(b, id).qty;
        if q >= current && policy.nonDecreasingUpdate == TreatAsAmend then
          var e := ApplyEffect(b, AmendSize(id, q));
          ReplayEffect(e.book,
                       if e.result.Ok? then
                         Coerced(op, AmendSize(id, q), NonDecreasingUpdate(id, current, q))
                       else
                         Failed(op, e.result.error))
        else
          Plain(b, op)
    case AmendSize(id, q) =>
      if !Live(b, id) then Missing(b, op, id, policy) else Plain(b, op)
  }

  lemma ReplayWellFormed(b: Book, op: BookOp, policy: ReplayPolicy)
    requires WellFormed(b)
    ensures WellFormed(EffectOf(b, op, policy).book)
  {
    hide WellFormed;
    ApplyWellFormed(b, op);
    if op.UpdateSize? {
      ApplyWellFormed(b, AmendSize(op.id, op.newQty));
    }
  }

  // STRICT does what the plain operation does, and reports what it reports, but
  // for one error value.
  lemma StrictMirrorsApply(b: Book, op: BookOp)
    ensures EffectOf(b, op, STRICT).book == ApplyEffect(b, op).book
    ensures EffectOf(b, op, STRICT).outcome.Applied? <==> ApplyEffect(b, op).result.Ok?
    ensures EffectOf(b, op, STRICT) == Plain(b, op) <==>
            !(op.Add? && op.order.qty == 0 && Live(b, op.order.id))
  {
  }

  // An operation that succeeds plainly does the same under every policy.
  lemma SuccessIsPolicyFree(b: Book, op: BookOp, policy: ReplayPolicy)
    requires ApplyEffect(b, op).result.Ok?
    ensures EffectOf(b, op, policy) == ReplayEffect(ApplyEffect(b, op).book, Applied(op))
  {
  }

  ghost function OpId(op: BookOp): OrderId {
    if op.Add? then op.order.id else op.id
  }

  // The error of an operation that is neither applied nor tolerated.
  ghost predicate IsFailure(b: Book, op: BookOp, error: BookError) {
    match op
    case Add(o) => if Live(b, o.id) then error == DuplicateOrderId(o.id) else error == ZeroQty && o.qty == 0
    case Remove(id) => error == UnknownOrderId(id) && !Live(b, id)
    case UpdateSize(id, q) =>
      if Live(b, id) then
        error.NonDecreasingSize? && error.current == Find(b, id).qty && error.proposed == q && q >= error.current
      else
        error == UnknownOrderId(id)
    case AmendSize(id, q) => error == UnknownOrderId(id) && !Live(b, id)
  }

  // When each outcome is reported, and with what in it. An operation that fails is
  // one that is neither applied, nor skipped, nor coerced.
  lemma OutcomeExact(b: Book, op: BookOp, policy: ReplayPolicy)
    requires WellFormed(b)
    ensures var r, id := EffectOf(b, op, policy).outcome, OpId(op);
            && (r.Applied? <==> ApplyEffect(b, op).result.Ok?)
            && (r.Applied? ==> r.op == op)
            && (r == Skipped(op, DuplicateAdd(id)) <==>
                op.Add? && Live(b, id) && policy.duplicateAdd == DuplicateSkip)
            && (r == Skipped(op, MissingOrder(id)) <==>
                !op.Add? && !Live(b, id) && policy.missingOrder == MissingSkip)
            && (r.Skipped? ==> r.op == op && (r.reason == DuplicateAdd(id) || r.reason == MissingOrder(id)))
            && (r.Coerced? <==>
                op.UpdateSize? && Live(b, id) && op.newQty >= Find(b, id).qty &&
                policy.nonDecreasingUpdate == TreatAsAmend)
            && (r.Coerced? ==>
                  && r.original == op && r.applied == AmendSize(id, op.newQty)
                  && r.reason.NonDecreasingUpdate? && r.reason.id == id
                  && r.reason.current == Find(b, id).qty && r.reason.proposed == op.newQty)
            && (r.Failed? ==> r.op == op && IsFailure(b, op, r.error))
  {
    hide WellFormed;
    if op.UpdateSize? && Live(b, op.id) {
      FindPositive(b, op.id);
    }
  }

  // Whatever is skipped or failed leaves the book alone.
  lemma OnlyAppliedChanges(b: Book, op: BookOp, policy: ReplayPolicy)
    requires WellFormed(b)
    ensures var r := EffectOf(b, op, policy);
            r.outcome.Skipped? || r.outcome.Failed? ==> r.book == b
  {
  }

  // When an update is coerced, and to what.
  lemma CoercedIsAmend(b: Book, op: BookOp, policy: ReplayPolicy)
    requires WellFormed(b)
    ensures var r := EffectOf(b, op, policy);
            && (r.outcome.Coerced? <==>
                (op.UpdateSize? && Live(b, op.id) && op.newQty >= Find(b, op.id).qty &&
                 policy.nonDecreasingUpdate == TreatAsAmend))
            && (r.outcome.Coerced? ==>
                  && r.book == Resized(b, op.id, op.newQty)
                  && r.book == AmendEffect(b, op.id, op.newQty, Preserve).book
                  && r.outcome.applied == AmendSize(op.id, op.newQty))
  {
    hide WellFormed;
    if op.UpdateSize? && Live(b, op.id) {
      FindPositive(b, op.id);
    }
  }

  lemma FindPositive(b: Book, id: OrderId)
    requires WellFormed(b) && Live(b, id)
    ensures Find(b, id).qty > 0
  {
  }

  // Under DWELLIR_TOLERANT nothing fails but the add of a fresh id with zero
  // quantity.
  lemma TolerantFailures(b: Book, op: BookOp)
    requires WellFormed(b)
    ensures var r := EffectOf(b, op, DWELLIR_TOLERANT);
            && (r.outcome.Failed? <==> (op.Add? && op.order.qty == 0 && !Live(b, op.order.id)))
            && (r.outcome.Failed? ==> r.outcome.error == ZeroQty)
  {
    hide WellFormed;
    if op.UpdateSize? && Live(b, op.id) {
      FindPositive(b, op.id);
    }
  }

  // Replaying a whole stream

  ghost function ReplayAll(b: Book, ops: seq<BookOp>, policy: ReplayPolicy): Book
    decreases |ops|
  {
    if ops == [] then b else ReplayAll(EffectOf(b, ops[0], policy).book, ops[1..], policy)
  }

  // Every book of the run fits.
  ghost predicate FitsThroughout(b: Book, ops: seq<BookOp>, policy: ReplayPolicy)
    decreases |ops|
  {
    ops != [] ==>
      var b1 := EffectOf(b, ops[0], policy).book;
      Fits(b1) && FitsThroughout(b1, ops[1..], policy)
  }

  // The largest number of live orders at any moment of the run.
  ghost function Peak(b: Book, ops: seq<BookOp>, policy: ReplayPolicy): (n: nat)
    ensures n >= b.Count()
    decreases |ops|
  {
    if ops == [] then b.Count()
    else
      var later := Peak(EffectOf(b, ops[0], policy).book, ops[1..], policy);
      if b.Count() > later then b.Count() else later
  }

  // How many operations of a stream were applied, skipped, coerced and failed.
  datatype Tally = Tally(applied: nat, skipped: nat, coerced: nat, failed: nat) {
    function Plus(t: Tally): Tally {
      Tally(applied + t.applied, skipped + t.skipped, coerced + t.coerced, failed + t.failed)
    }
  }

  function TallyOne(outcome: ReplayApplyOutcome): Tally {
    match outcome
    case Applied(_) => Tally(1, 0, 0, 0)
    case Skipped(_, _) => Tally(0, 1, 0, 0)
    case Coerced(_, _, _) => Tally(0, 0, 1, 0)
    case Failed(_, _) => Tally(0, 0, 0, 1)
  }

  ghost function TallyOf(b: Book, ops: seq<BookOp>, policy: ReplayPolicy): Tally
    decreases |ops|
  {
    if ops == [] then Tally(0, 0, 0, 0)
    else
      var e := EffectOf(b, ops[0], policy);
      TallyOne(e.outcome).Plus(TallyOf(e.book, ops[1..], policy))
  }

  // The outcomes of a stream, and how many satisfy a test.

  ghost function Outcomes(b: Book, ops: seq<BookOp>, policy: ReplayPolicy): (r: seq<ReplayApplyOutcome>)
    ensures |r| == |ops|
    decreases |ops|
  {
    if ops == [] then []
    else
      var e := EffectOf(b, ops[0], policy);
      [e.outcome] + Outcomes(e.book, ops[1..], policy)
  }

  ghost function HowMany(outcomes: seq<ReplayApplyOutcome>, p: ReplayApplyOutcome -> bool): nat {
    if outcomes == [] then 0 else (if p(outcomes[0]) then 1 else 0) + HowMany(outcomes[1..], p)
  }

  predicate IsApplied(o: ReplayApplyOutcome) { o.Applied? }

  predicate IsSkipped(o: ReplayApplyOutcome) { o.Skipped? }

  predicate IsCoerced(o: ReplayApplyOutcome) { o.Coerced? }

  predicate IsFailed(o: ReplayApplyOutcome) { o.Failed? }

  lemma {:induction false} OutcomesAt(b: Book, ops: seq<BookOp>, policy: ReplayPolicy, i: nat)
    requires i < |ops|
    ensures Outcomes(b, ops, policy)[i] == EffectOf(ReplayAll(b, ops[..i], policy), ops[i], policy).outcome
    decreases |ops|
  {
    hide EffectOf;
    if i > 0 {
      assert ops[..i][0] == ops[0] && ops[..i][1..] == ops[1..][..i - 1];
      OutcomesAt(EffectOf(b, ops[0], policy).book, ops[1..], policy, i - 1);
    }
  }

  lemma HowManyCons(o: ReplayApplyOutcome, t: seq<ReplayApplyOutcome>, p: ReplayApplyOutcome -> bool)
    ensures HowMany([o] + t, p) == (if p(o) then 1 else 0) + HowMany(t, p)
  {
    assert ([o] + t)[1..] == t;
  }

  // Each counter counts its own kind of outcome.
  lemma {:induction false} TallyCounts(b: Book, ops: seq<BookOp>, policy: ReplayPolicy)
    ensures var t, outcomes := TallyOf(b, ops, policy), Outcomes(b, ops, policy);
            && t.applied == HowMany(outcomes, IsApplied)
            && t.skipped == HowMany(outcomes, IsSkipped)
            && t.coerced == HowMany(outcomes, IsCoerced)
            && t.failed == HowMany(outcomes, IsFailed)
    decreases |ops|
  {
    hide EffectOf;
    if ops != [] {
      var e := EffectOf(b, ops[0], policy);
      TallyCounts(e.book, ops[1..], policy);
      var rest := Outcomes(e.book, ops[1..], policy);
      assert Outcomes(b, ops, policy) == [e.outcome] + rest;
      hide HowMany, Outcomes;
      HowManyCons(e.outcome, rest, IsApplied);
      HowManyCons(e.outcome, rest, IsSkipped);
      HowManyCons(e.outcome, rest, IsCoerced);
      HowManyCons(e.outcome, rest, IsFailed);
    }
  }

  // Every operation is tallied once; STRICT tolerates nothing, and
  // DWELLIR_TOLERANT fails on nothing but adds of zero quantity.
  lemma {:induction false} TallyExact(b: Book, ops: seq<BookOp>, policy: ReplayPolicy)
    requires WellFormed(b)
    ensures var t := TallyOf(b, ops, policy);
            && t.applied + t.skipped + t.coerced + t.failed == |ops|
            && (policy == STRICT ==> t.skipped == 0 && t.coerced == 0)
            && (policy == DWELLIR_TOLERANT && t.failed > 0 ==>
                  exists i :: 0 <= i < |ops| && ops[i].Add? && ops[i].order.qty == 0)
    decreases |ops|
  {
    hide WellFormed;
    if ops != [] {
      var e := EffectOf(b, ops[0], policy);
      StrictMirrorsApply(b, ops[0]);
      TolerantFailures(b, ops[0]);
      ReplayWellFormed(b, ops[0], policy);
      hide EffectOf;
      TallyExact(e.book, ops[1..], policy);
      if policy == DWELLIR_TOLERANT && TallyOf(e.book, ops[1..], policy).failed > 0 {
        var i :| 0 <= i < |ops[1..]| && ops[1..][i].Add? && ops[1..][i].order.qty == 0;
        assert ops[i + 1].Add? && ops[i + 1].order.qty == 0;
      }
    }
  }

  lemma {:induction false} ReplayAllConcat(b: Book, xs: seq<BookOp>, ys: seq<BookOp>, policy: ReplayPolicy)
    ensures ReplayAll(b, xs + ys, policy) == ReplayAll(ReplayAll(b, xs, policy), ys, policy)
    decreases |xs|
  {
    if xs == [] {
      assert xs + ys == ys;
    } else {
      assert (xs + ys)[0] == xs[0] && (xs + ys)[1..] == xs[1..] + ys;
      ReplayAllConcat(EffectOf(b, xs[0], policy).book, xs[1..], ys, policy);
    }
  }
}
