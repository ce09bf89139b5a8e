// Whole runs of a book: every public mutation as a command, the book a run of
// commands leaves, and the largest number of orders it has held.
module Runs {
  import opened Types
  import opened PriceTime
  import opened AbstractBook
  import opened Matching
  import opened Replay
  import opened Submit
  import opened Snapshot
  import opened Queues

  datatype Command =
    | Operate(op: BookOp)
    | Replayed(rop: BookOp, replay: ReplayPolicy)
    | Amend(id: OrderId, newQty: Qty, priority: AmendPriorityPolicy)
    | Take(taker: Side, qty: Qty, limit: Price)
    | SubmitOrder(order: Order, tif: LimitOrderPolicy)
    | Load(orders: seq<Order>, policy: SnapshotPolicy)
    | Reset

  ghost function Exec(b: Book, c: Command): Book {
    match c
    case Operate(op) => ApplyEffect(b, op).book
    case Replayed(op, replay) => EffectOf(b, op, replay).book
    case Amend(id, q, priority) => AmendEffect(b, id, q, priority).book
    case Take(taker, q, limit) => TakeEffect(b, taker, q, limit).book
    case SubmitOrder(o, tif) => SubmitEffect(b, o, tif).book
    case Load(orders, policy) => SnapshotEffect(b, orders, policy).book
    case Reset => EMPTY
  }

  // Whether the command forgets the book, slab included, before it adds anything:
  // a clear, and every snapshot but a rejected one that preserves.
  ghost predicate Resets(b: Book, c: Command) {
    c.Reset? || (c.Load? && (c.policy == Replace || SnapshotEffect(b, c.orders, c.policy).result.Ok?))
  }

  lemma ExecWellFormed(b: Book, c: Command)
    requires WellFormed(b)
    ensures WellFormed(Exec(b, c))
  {
    hide WellFormed, SnapshotEffect;
    match c
    case Operate(op) => ApplyWellFormed(b, op);
    case Replayed(op, replay) => ReplayWellFormed(b, op, replay);
    case Amend(id, q, priority) =>
      if Live(b, id) {
        RemovedWellFormed(b, id);
        if q > 0 {
          ResizedWellFormed(b, id, q);
          RequeuedWellFormed(b, id, q);
        }
      }
    case Take(taker, q, limit) => TakeWellFormed(b, taker, q, limit);
    case SubmitOrder(o, tif) => SubmitWellFormed(b, o, tif);
    case Load(orders, policy) => SnapshotWellFormed(b, orders, policy);
    case Reset => EmptyLevels(Bid, 0);
  }

  // What each command does to the queues. A command that its operation rejects
  // leaves the book alone, except for a snapshot that replaces.
  ghost predicate IsExec(b: Book, c: Command, b1: Book) {
    match c
    case Operate(op) => IsApply(b, op, b1, ApplyEffect(b, op).result)
    case Replayed(op, replay) =>
      var outcome := EffectOf(b, op, replay).outcome;
      if outcome.Applied? then IsApply(b, op, b1, Ok(()))
      else if outcome.Coerced? then Resizes(b, b1, OpId(op), op.newQty)
      else b1 == b
    case Amend(id, q, priority) => IsAmend(b, id, q, priority, b1, AmendEffect(b, id, q, priority).result)
    case Take(taker, q, limit) =>
      var s := b.On(Opposite(taker));
      b1.On(taker) == b.On(taker) && b1.On(Opposite(taker)) == Consume(s, Min(q, Liquidity(taker, s, limit)))
    case SubmitOrder(o, tif) =>
      var r := SubmitEffect(b, o, tif).result;
      if r.Ok? then IsSubmit(b, o, tif, b1, r.value) else b1 == b
    case Load(orders, policy) =>
      var kept := if policy == Replace then [] else SyntheticOf(b);
      if SnapshotEffect(b, orders, policy).result.Ok? then
        forall side, p :: LevelAt(b1.On(side), p) == ForLevel(orders + kept, side, p)
      else
        policy == PreserveSynthetic ==> b1 == b
    case Reset => b1 == EMPTY
  }

  lemma ExecExact(b: Book, c: Command)
    requires WellFormed(b)
    ensures IsExec(b, c, Exec(b, c))
  {
    hide WellFormed, IsApply, IsAmend, IsSubmit, SnapshotEffect, Consume, Liquidity, MatchOf;
    match c
    case Operate(op) => ApplyExact(b, op);
    case Replayed(op, replay) =>
      ApplyExact(b, op);
      OutcomeExact(b, op, replay);
      OnlyAppliedChanges(b, op, replay);
      CoercedIsAmend(b, op, replay);
      if EffectOf(b, op, replay).outcome.Coerced? {
        ResizedResizes(b, op.id, op.newQty);
      }
    case Amend(id, q, priority) => AmendExact(b, id, q, priority);
    case Take(taker, q, limit) =>
      FilledOfMatch(b, taker, q, limit);
      NothingShared(b.On(Opposite(taker)));
    case SubmitOrder(o, tif) => SubmitExact(b, o, tif);
    case Load(orders, policy) => LoadExact(b, orders, policy);
    case Reset =>
  }

  lemma LoadExact(b: Book, orders: seq<Order>, policy: SnapshotPolicy)
    requires WellFormed(b)
    ensures IsExec(b, Load(orders, policy), SnapshotEffect(b, orders, policy).book)
  {
    hide WellFormed, SnapshotEffect, LevelAt, ForLevel, SyntheticOf;
    forall side, p
      ensures var e := SnapshotEffect(b, orders, policy);
              var kept := if policy == Replace then [] else SyntheticOf(b);
              && (e.result.Ok? ==> LevelAt(e.book.On(side), p) == ForLevel(orders + kept, side, p))
              && (e.result.Err? && policy == PreserveSynthetic ==> e.book == b)
    {
      assert orders + [] == orders;
      ReplaceExact(b, orders, side, p);
      PreserveSyntheticExact(b, orders, side, p);
      ForLevelConcat(orders, SyntheticOf(b), side, p);
      SyntheticOfBook(b, side, p);
    }
    assert SnapshotEffect(b, orders, policy).result.Err? && policy == PreserveSynthetic ==>
        SnapshotEffect(b, orders, policy).book == b by {
      PreserveSyntheticExact(b, orders, Bid, 0);
    }
  }

  ghost function Run(b: Book, cs: seq<Command>): Book
    decreases |cs|
  {
    if cs == [] then b else Run(Exec(b, cs[0]), cs[1..])
  }

  lemma {:induction false} RunWellFormed(b: Book, cs: seq<Command>)
    requires WellFormed(b)
    ensures WellFormed(Run(b, cs))
    decreases |cs|
  {
    hide WellFormed, Exec;
    if cs != [] {
      ExecWellFormed(b, cs[0]);
      RunWellFormed(Exec(b, cs[0]), cs[1..]);
    }
  }

  // Every book of the run fits.
  ghost predicate RunFits(b: Book, cs: seq<Command>)
    decreases |cs|
  {
    cs != [] ==> Fits(Exec(b, cs[0])) && RunFits(Exec(b, cs[0]), cs[1..])
  }

  // The high-water mark of the live-order count: n so far, started over by every
  // reset.

  ghost function Mark(b: Book, n: nat, c: Command): nat {
    var count := Exec(b, c).Count();
    if Resets(b, c) then count else Max(n, count)
  }

  ghost function HighWater(b: Book, n: nat, cs: seq<Command>): nat
    decreases |cs|
  {
    if cs == [] then n else HighWater(Exec(b, cs[0]), Mark(b, n, cs[0]), cs[1..])
  }

  // The books of a run, before its first command and after each.
  ghost function Books(b: Book, cs: seq<Command>): (books: seq<Book>)
    ensures |books| == |cs| + 1 && books[0] == b && books[|cs|] == Run(b, cs)
    decreases |cs|
  {
    if cs == [] then [b] else [b] + Books(Exec(b, cs[0]), cs[1..])
  }

  ghost predicate ResetAt(b: Book, cs: seq<Command>, i: nat)
    requires i < |cs|
  {
    Resets(Books(b, cs)[i], cs[i])
  }

  // The run starts over at k and not after it.
  ghost predicate LastReset(b: Book, cs: seq<Command>, k: nat) {
    && k <= |cs|
    && (k > 0 ==> ResetAt(b, cs, k - 1))
    && forall i :: k <= i < |cs| ==> !ResetAt(b, cs, i)
  }

  // m is the largest of n and the counts of the books from k on.
  ghost predicate IsPeak(books: seq<Book>, k: nat, n: nat, m: nat) {
    && n <= m
    && (forall i :: k <= i < |books| ==> books[i].Count() <= m)
    && (m == n || exists i :: k <= i < |books| && books[i].Count() == m)
  }

  lemma BooksStep(b: Book, cs: seq<Command>, i: nat)
    requires i < |cs|
    ensures Books(b, cs)[i + 1] == Books(Exec(b, cs[0]), cs[1..])[i]
    ensures i > 0 ==> (ResetAt(b, cs, i) <==> ResetAt(Exec(b, cs[0]), cs[1..], i - 1))
  {
    hide Exec, Resets;
  }

  lemma PeakOfNext(books: seq<Book>, b: Book, k: nat, n: nat, m: nat)
    requires IsPeak(books, k, n, m)
    ensures IsPeak([b] + books, k + 1, n, m)
  {
    var all := [b] + books;
    if m != n {
      var i :| k <= i < |books| && books[i].Count() == m;
      assert all[i + 1].Count() == m;
    }
  }

  // Starting from the first book's own count is starting from the first book.
  lemma PeakFromFirst(books: seq<Book>, b: Book, n: nat, m: nat, reset: bool)
    requires books != [] && n >= b.Count()
    requires IsPeak(books, 0, if reset then books[0].Count() else Max(n, books[0].Count()), m)
    ensures if reset then IsPeak([b] + books, 1, 0, m) else IsPeak([b] + books, 0, n, m)
  {
    var all := [b] + books;
    if m == books[0].Count() {
      assert all[1].Count() == m;
    } else if m != n || reset {
      var i :| 0 <= i < |books| && books[i].Count() == m;
      assert all[i + 1].Count() == m;
    }
  }

  // The mark a run ends with is the peak of the counts since its last reset (and
  // of the mark it started with, if nothing was reset).
  lemma {:induction false} HighWaterIsPeak(b: Book, n: nat, cs: seq<Command>) returns (k: nat)
    requires n >= b.Count()
    ensures LastReset(b, cs, k)
    ensures IsPeak(Books(b, cs), k, if k == 0 then n else 0, HighWater(b, n, cs))
    decreases |cs|
  {
    hide Exec, Resets, IsPeak, LastReset, Book.Count;
    if cs == [] {
      k := 0;
      NothingYet(b, n);
    } else {
      var b1, rest := Exec(b, cs[0]), cs[1..];
      var j := HighWaterIsPeak(b1, Mark(b, n, cs[0]), rest);
      if j > 0 {
        PeakOfNext(Books(b1, rest), b, j, 0, HighWater(b, n, cs));
      } else {
        PeakFromFirst(Books(b1, rest), b, n, HighWater(b, n, cs), Resets(b, cs[0]));
      }
      k := if j > 0 || Resets(b, cs[0]) then j + 1 else 0;
      LastResetNext(b, cs, j);
    }
  }

  lemma NothingYet(b: Book, n: nat)
    requires n >= b.Count()
    ensures LastReset(b, [], 0) && IsPeak(Books(b, []), 0, n, n)
  {
  }

  lemma LastResetNext(b: Book, cs: seq<Command>, j: nat)
    requires cs != [] && LastReset(Exec(b, cs[0]), cs[1..], j)
    ensures LastReset(b, cs, if j > 0 || Resets(b, cs[0]) then j + 1 else 0)
  {
    hide Exec, Resets;
    forall i | 0 < i < |cs|
      ensures ResetAt(b, cs, i) <==> ResetAt(Exec(b, cs[0]), cs[1..], i - 1)
    {
      BooksStep(b, cs, i);
    }
  }
}
