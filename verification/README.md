# Verified model of the L4 order book

A Dafny 4.11 model of the `l4-book` crate: the order book engine, the matching
simulator built on it, and two cores of the Dwellir adapter. `dafny verify
dfyconfig.toml` checks the whole project.

## What is modelled

**The engine.** `OrderBooks.OrderBook` has the fields of the Rust struct: the slab
of optional nodes, the free list, the id index, one price map per side, the wallet
index. Its methods update them in place, step by step, with the doubly-linked FIFO
lists threaded through the slab (`Arena`). Two ghost fields name the slots of every
level in FIFO order. `Valid()` is the full representation invariant (`Layout`,
`Representation`): every list is a chain with matching `next` and `prev` and no
repeated slot; every level is non-empty with exact head, tail, count and total;
every live node is in the list of its own side and price; the id index, the wallet
index and the free list hold exactly the live orders, the live orders by wallet and
the vacant slots; slab length is live orders plus free slots; quantities are
positive and ids unique over both sides.

**What it stands for.** `Abs()` is an `AbstractBook.Book`: each side as one sequence
in price-time order. `LevelAt` reads off the FIFO queue of one price, and
`Standing.QueuesDetermineSide` shows that the queues determine the side, so the
sequence says neither more nor less than a map from price to queue. Every mutating
method's contract equates the new abstract book and the returned value with a
function of the old abstract book (`AddEffect`, `RemoveEffect`, `UpdateEffect`,
`AmendEffect`, `ApplyEffect`, `EffectOf`, `TakeEffect`, `SubmitEffect`,
`SnapshotEffect`), errors included. `Queues` states what those functions do and report
a second time, on the FIFO queues alone, and the other theorems build on them.

**The simulator.** `Matching`, `Standing`, `Submit`, `Replay` and `Snapshot` hold the
theorems about matching, queue positions, order submission, replay policies and
snapshots.

**Whole runs.** `Runs.Command` is any public mutation: a plain or replayed operation,
an amend, a taker order, a submission, a snapshot, a clear. `Runs.Run` is the book a
sequence of commands leaves, and `OrderBook.PerformAll` ties it to the class. `Runs`
and `Priority` hold the theorems over all runs: well-formedness, the slab as the
high-water mark of live orders, and time priority. A command resets the book
(`Runs.Resets`) if it is a clear or a snapshot that gets past validation. A snapshot
brings an order of its own (`Snapshot.ReplaceExact`), so the theorems on time priority
speak of commands and runs that do not reset.

**The adapter.** `Dwellir` is the per-message collapse of removals, from parsed
diffs. `Decimal` is the fixed-point parser and the printer of the live example.

Machine integers are explicit: `u64` and `u128` are subset types, so every stored
count, total, quantity and notional is proved to be in range. Level totals are added
unchecked in the source (src/book.rs:339, src/book.rs:468); operations that can
grow a level require that every level total of the resulting book fits a `u64`
(`AbstractBook.Fits`). No other precondition is placed on the public methods.

A `BTreeMap` is a map whose keys are visited best first (`LevelMap.Best`). Rust's
`?` and `Result` are the `Result` datatype.

## Main results

- Representation refinement of `add`, `remove`, `update_size` and
  `amend_size_with_policy`, with append, delete-at, update-in-place and move-to-end
  on the FIFO queues.
- Applying a taker order never fails half way, consumes exactly the filled prefix
  and conserves quantity; two applications compose into one.
- Greedy matching fills the acceptable liquidity up to the quantity asked, and no
  selection of as much is cheaper for a buyer or dearer for a seller.
- The walk over cached level totals gives what the walk over orders gives.
- A queue position predicts exactly what an order will receive.
- Two orders of a level never swap over any run between resets, unless the first grows
  under `LosePriorityOnIncrease`; for one command this is an equivalence.
- Over any run of commands the slab is exactly as large as the largest number of live
  orders since the last clear or accepted snapshot.
- No submission policy crosses an uncrossed book; FOK and PostOnly are characterised
  by the acceptable liquidity.
- `PreserveSynthetic` succeeds exactly on distinct, positive, non-synthetic orders,
  is then exact level by level, and otherwise leaves every field alone. `Replace` is
  all or nothing exactly on distinct, positive orders; a rejected `Replace` leaves the
  orders before the first offending one.
- Replaying the collapsed diffs of a message agrees with replaying all of them, after
  every diff and on every book, exactly when no id is removed, added back and removed
  again in that message. At the end of any message the collapsed replay has an id too
  many exactly when that id was added back after a removal and then removed for good,
  and never one too few.
- `parse_fixed` is floor division, accepts exactly the strings of
  `Decimal.AcceptedExactly`, and undoes `fmt_scaled` exactly for up to 19 digits.

## Where the code and its description differ

- `STRICT` is documented as mirroring `apply_op`; it does, except that adding a live
  id with zero quantity reports `DuplicateOrderId` instead of `ZeroQty`
  (`Replay.StrictMirrorsApply` states this as an equivalence).
- The comment on the adapter's collapse speaks of one removal per id per block; with a
  re-added id the second removal is lost (`Dwellir.RevivedOrderSurvives`).

## Behaviour worth knowing

- `SnapshotPolicy::Replace` is not atomic, and is not documented to be:
  `Snapshot.ReplaceLosesBook` is an input that loses a whole book, `Snapshot.ReplaceStops`
  says what an error leaves, and `Snapshot.ReplaceAtomic` is the exact condition.
- `parse_fixed` accepts a leading plus sign (`Decimal.PlusIgnored`) and ignores any
  characters after the fraction digits that count (`Decimal.ParsesText`).

## Model

| member | source | states |
|---|---|---|
| Types.SyntheticOrderId | src/types.rs:152-158 | None exactly for ids already in the synthetic namespace; otherwise an id in the namespace that still determines the local id |
| Arena.LinkTail | src/book.rs:1028-1036 | the list becomes the old list followed by the new node, doubly linked with the right ends; no order changes and no other node is touched |
| Arena.Unlink | src/book.rs:1038-1052 | the list becomes the old list without its k-th node, doubly linked with the right ends, even when that node is already vacated |
| Arena.MoveToTail | src/book.rs:1054-1069 | the k-th node moves to the end of its list, all others keep their order |
| OrderBooks.OrderBook.constructor | src/book.rs:120-129 | the empty book satisfies the full invariant and has an empty slab |
| OrderBooks.OrderBook.Clear | src/book.rs:201-208 | forgets everything, including slab slots, and is valid |
| OrderBooks.OrderBook.Len | src/book.rs:139-141 | the number of orders of the abstract book |
| OrderBooks.OrderBook.SlabLen | src/book.rs:150-152 | never less than the number of live orders |
| OrderBooks.OrderBook.AllocSlot | src/book.rs:938-945 | pops the last free slot, or grows the slab by one vacant slot |
| OrderBooks.OrderBook.Add | src/book.rs:316-342 | keeps the invariant; zero quantity and live ids are errors that change nothing; otherwise the order joins behind every order its price is not better than; the slab grows only when no slot is free |
| OrderBooks.OrderBook.Remove | src/book.rs:345-380 | keeps the invariant; an unknown id is an error that changes nothing; otherwise exactly that order leaves and is returned; the slab keeps its length |
| OrderBooks.OrderBook.UpdateSize | src/book.rs:385-417 | keeps the invariant; only strict decreases are accepted, zero removes, and the order keeps its place; needs no room |
| OrderBooks.OrderBook.AmendSizeWithPolicy | src/book.rs:434-476 | keeps the invariant; zero removes, any other size is set in place, except that growth under LosePriorityOnIncrease sends the order to the tail |
| OrderBooks.OrderBook.AmendSize | src/book.rs:423-425 | amends in place in both directions |
| Representation.AddStep | src/book.rs:324-341 | the field updates of an add carry the whole invariant over and stand for the abstract insertion |
| Representation.RemoveStep | src/book.rs:346-379 | the field updates of a removal, with pruning of an empty level, carry the whole invariant over and stand for the abstract deletion |
| Representation.ResizeStep | src/book.rs:453-474 | the field updates of a size change, with or without the move to the tail, carry the whole invariant over and stand for the abstract change |
| Representation.Indexed | src/book.rs:554-557 | the id index finds exactly the orders of the abstract book |
| Representation.WalletExact | src/book.rs:903-906 | the wallet index holds an id exactly when that live order has that wallet |
| Representation.SlabAddsUp | src/book.rs:105-112 | the free list is exactly the vacant slots without repeats, and slab length is live orders plus free slots |
| Representation.LevelQueue | src/book.rs:911-932 | a level's list, head, tail, count and total are those of the abstract FIFO queue at its price, and a level exists exactly where the queue is non-empty |
| Representation.ValidFits | src/book.rs:339 | every level total of a valid book is a machine integer |
| LevelMap.FlatSplit | src/book.rs:868-873 | seen from any price, a side is the better levels, the level, and the worse levels |
| LevelMap.AppendIsInsert | src/book.rs:337-340 | appending to one level's queue is inserting into the price-time sequence |
| LevelMap.DeleteIsRemove | src/book.rs:362-372 | deleting from one level's queue, pruning it when empty, is removing one order from the price-time sequence |
| LevelMap.MoveIsRequeue | src/book.rs:467-471 | moving to the end of one level's queue is the corresponding move in the price-time sequence |
| AbstractBook.AddAppends | src/book.rs:316-342 | adding appends to one FIFO queue and leaves all others on both sides alone |
| Standing.RemoveDeletesAt | src/book.rs:345-380 | removing deletes at the order's position in its queue and leaves all others alone |
| Standing.ResizeUpdatesInPlace | src/book.rs:419-425 | resizing updates the queue entry in place and leaves all others alone |
| Standing.RequeueMoves | src/book.rs:427-433 | growth under LosePriorityOnIncrease moves the entry to the end of its queue and leaves all others alone |
| Standing.QueuesDetermineSide | src/book.rs:91-104 | two sorted sides with the same FIFO queue at every price are equal |
| Queues.AddExact | src/book.rs:316-342 | appends to one FIFO queue and changes no other, or reports ZeroQty or DuplicateOrderId and changes nothing |
| Queues.RemoveExact | src/book.rs:345-380 | deletes from the one queue that holds the order, changes no other, and returns the order as it stood; UnknownOrderId otherwise |
| Queues.UpdateExact | src/book.rs:385-417 | strict decreases set the queue entry in place, zero deletes it; NonDecreasingSize names current and proposed size |
| Queues.AmendExact | src/book.rs:434-476 | Ok exactly on live ids: zero deletes the entry, growth under LosePriorityOnIncrease moves it to the end, every other size sets it in place; no other queue changes |
| Queues.ApplyExact | src/book.rs:211-218 | each operation does and reports what add, remove, update and the priority-preserving amend do, queue by queue |
| Queues.TakeExact | src/book.rs:762-780 | the first orders leave, every later one keeps its place with what its share of the acceptable liquidity leaves; ZeroQty exactly on zero |
| Queues.SubmitExact | src/book.rs:786-864 | for every policy: the match, the reason of a rejection, what is consumed from the opposite side, and the order appended to its own queue and to no other |
| AbstractBook.AddedLive | src/book.rs:325-327 | an add makes exactly its own id live |
| AbstractBook.ApplyWellFormed | src/book.rs:211-218 | every operation keeps price-time order, unique ids over both sides, side tags and positive quantities |
| OrderBooks.OrderBook.BestPrice | src/book.rs:559-566 | the price of the first order in price-time order |
| Matching.BestOfIsBest | src/book.rs:559-566 | None exactly on an empty side; otherwise some order has that price and none a better one |
| OrderBooks.OrderBook.Get | src/book.rs:554-557 | the live order with the id, or None exactly when there is none |
| OrderBooks.OrderBook.Depth | src/book.rs:868-873 | every non-empty level exactly once, strictly best first, with the exact total and count |
| OrderBooks.OrderBook.LevelSummary | src/book.rs:879-887 | the exact total and count of a level, None exactly where no order rests |
| OrderBooks.OrderBook.OrdersAt | src/book.rs:889-899 | following the list yields the FIFO queue |
| OrderBooks.OrderBook.OrdersByWallet | src/book.rs:903-906 | exactly the live orders of the wallet |
| OrderBooks.OrderBook.QueuePosition | src/book.rs:479-528 | UnknownOrderId exactly on ids that are not live; otherwise every field by the order's index in its FIFO queue: orders and quantity before it, after it, and in all |
| Standing.StandingExact | src/book.rs:479-528 | all nine fields of the position, by the order's index in its FIFO queue |
| OrderBooks.OrderBook.QueuePositionForNewOrder | src/book.rs:532-552 | the whole level is ahead and nothing behind |
| Standing.JoinsTail | src/book.rs:530-552 | an order that is added then stands exactly where the hypothetical position said |
| Standing.QueuePredictsFill | src/book.rs:479-528 | an order at an acceptable price receives min of its quantity and what the taker has left after better prices and the quantity ahead, and is among the fills exactly when that is positive |
| OrderBooks.OrderBook.MatchTakerOrder | src/book.rs:689-757 | the loop over levels and lists computes the price-time walk: fills, quantities, exact u128 notional, reference price and both flags |
| OrderBooks.OrderBook.WalkTotals | src/book.rs:616-637 | the loop over cached level totals ends with the quantities, notional and stop flag of the order-by-order walk |
| OrderBooks.OrderBook.EstimateSlippage | src/book.rs:601-682 | agrees with the taker match on every shared field; the slippage notional is the exact difference to filling all at the best price, never clipped by the saturating subtraction |
| Matching.LevelStep | src/book.rs:621-637 | one level taken by its total has the effect of its orders taken one by one |
| Matching.FilledIsLiquidity | src/book.rs:711-738 | the filled quantity is the minimum of the quantity asked and all acceptable resting quantity |
| Matching.StopReason | src/book.rs:714-756 | limit_stopped exactly when liquidity ran short with an unacceptable order left; exhausted_book exactly when the whole side was acceptable and too small |
| Matching.MatchExact | src/book.rs:739-756 | the match's flags by liquidity, total and blocked orders; quantities add up to the request; fills sum to quantity and notional; the reference price is the best one, None exactly on an empty side |
| Matching.MatchFills | src/book.rs:711-731 | the i-th order of the side is filled exactly when acceptable and reached, and then every field of the fill |
| Matching.FillsAreShares | src/book.rs:711-736 | the i-th order of the side is filled exactly when acceptable and reached, by exactly what the orders before it leave |
| Matching.FillsAddUp | src/book.rs:728-730 | the fills sum to the filled quantity and to the notional |
| Matching.OnlyLastPartial | src/book.rs:715-727 | every fill is positive and for its own maker, and every fill but the last removes its maker |
| Matching.FillsConsume | src/book.rs:772-778 | applying all fills leaves the side with exactly the filled quantity taken off the front |
| Matching.ConsumeConserves | src/book.rs:762-780 | resting quantity before is resting quantity after plus what was consumed |
| Matching.TakeConserves | src/book.rs:762-780 | an error exactly for zero quantity; the taker's own side untouched; quantity conserved |
| Matching.TakeSplits | src/book.rs:762-780 | taking q1 then q2 leaves the book of taking q1+q2; quantities and notionals add up; the last flags are those of the combined call |
| Matching.MatchIsOptimal | src/book.rs:699-736 | fills exactly min(qty, acceptable liquidity), and no selection of as much from acceptable orders costs a buyer less or brings a seller more |
| Matching.WalkIsSelection | src/book.rs:711-736 | the walk is itself such a selection, so the optimum is attained |
| Matching.NotionalBounds | src/book.rs:711-730 | the notional lies between best price and limit per unit filled, on the taker's side |
| Matching.NotionalFits | src/book.rs:712-730 | the notional of any walk fits u128 |
| Matching.SlippageFits | src/book.rs:655-664 | the slippage notional is non-negative and fits u128, so neither product nor subtraction overflows |
| OrderBooks.OrderBook.ApplyTakerOrder | src/book.rs:762-780 | keeps the invariant; on positive quantity always Ok, returns the match, and the book is the old one with exactly the filled quantity consumed from the front |
| Submit.FillMeetsFront | src/book.rs:772-778 | when a fill is applied its maker is the front of the side, so removing or shrinking it succeeds and is the next step of the walk |
| OrderBooks.OrderBook.LimitOrderWouldCross | src/book.rs:976-981 | true exactly when the best opposite price is acceptable |
| OrderBooks.OrderBook.SubmitLimitOrder | src/book.rs:786-864 | keeps the invariant and does, reports and leaves exactly what the policy says, errors included |
| Submit.SubmitWellFormed | src/book.rs:786-864 | every policy keeps the abstract book well-formed |
| Submit.RemainderClears | src/book.rs:799-812 | a taker left with something has cleared every acceptable order from the opposite side |
| Submit.RestedDoesNotCross | src/book.rs:799-862 | from any book, an order that comes to rest crosses no opposite order |
| Submit.SubmitNeverCrosses | src/book.rs:786-864 | from an uncrossed book every policy ends uncrossed |
| Submit.FillOrKill | src/book.rs:828-844 | executes exactly when acceptable liquidity covers the quantity, and then fills it all |
| Submit.PostOnlyRejects | src/book.rs:845-862 | rejects exactly when a match would produce a fill, that is when there is acceptable liquidity |
| Submit.RejectedOrRested | src/book.rs:786-864 | errors exactly for zero quantity and live ids; errors and rejections change nothing; what rests is requested minus filled, and GTC rests exactly when that is positive |
| Priority.ExecKeepsOrder | src/book.rs:211-864 | one command that does not reset the book keeps the relative order of two orders that live through it, unless it makes the first give up its place |
| Priority.SwapsExactlyWhenGivenUp | src/book.rs:427-476 | one command that does not reset the book swaps two orders of a level exactly when it grows the first under LosePriorityOnIncrease |
| Priority.TimePriority | src/book.rs:211-864 | over any run of operations, replays, amends, takes, submissions and rejected snapshots, two orders that stay live never swap unless the first gave up its place |
| Runs.RunWellFormed | src/book.rs:155-864 | every book reachable by a run, snapshots and clears included, is well-formed |
| Runs.ExecExact | src/book.rs:155-864 | what each command does, queue by queue and side by side |
| Runs.HighWaterIsPeak | src/book.rs:147-152 | the mark a run ends with is the largest number of live orders at any moment since its last reset, and of the mark it began with if nothing was reset |
| OrderBooks.OrderBook.Perform | src/book.rs:155-864 | every public mutation keeps the invariant, does what its command says, and leaves the slab at the larger of its old length and the live orders, or at the live orders after a reset |
| OrderBooks.OrderBook.PerformAll | src/book.rs:155-864 | over any run the slab ends exactly as large as the high-water mark of live orders since the last reset |
| OrderBooks.OrderBook.ApplyOp | src/book.rs:211-218 | dispatches to the four operations with strict errors and keeps the invariant |
| OrderBooks.OrderBook.ApplyOpWithPolicy | src/book.rs:226-313 | keeps the invariant; applies, skips, coerces or fails exactly as the policy says |
| OrderBooks.OrderBook.ReplayOps | examples/replay_capture.rs:63-84 | replays a stream and counts its outcomes; the slab ends as large as the larger of its old length and the peak number of live orders on the way |
| Replay.StrictMirrorsApply | src/book.rs:222-225 | STRICT gives the plain result on book and success, and the plain report exactly unless a live id is added with zero quantity |
| Replay.SuccessIsPolicyFree | src/book.rs:226-313 | an operation that succeeds plainly does the same under every policy |
| Replay.OnlyAppliedChanges | src/book.rs:226-313 | skipped and failed operations leave the book unchanged |
| Replay.OutcomeExact | src/book.rs:226-313 | when an operation is applied, skipped (and for which reason), coerced (from and to which sizes) and failed (with which error), under every policy |
| Replay.CoercedIsAmend | src/book.rs:270-289 | when an update is coerced, and that it then equals the priority-preserving amend |
| Replay.TolerantFailures | src/types.rs:311-315 | under DWELLIR_TOLERANT only the add of a fresh id with zero quantity fails, with ZeroQty |
| Replay.TallyExact | examples/replay_capture.rs:63-84 | every operation is counted once; STRICT skips and coerces none, and DWELLIR_TOLERANT fails none unless the stream adds a zero quantity |
| Replay.TallyCounts | examples/replay_capture.rs:72-77 | each counter is the number of outcomes of its own kind |
| Replay.OutcomesAt | examples/replay_capture.rs:69-77 | the i-th outcome is that of the i-th operation on the book the earlier ones leave |
| OrderBooks.OrderBook.ApplySnapshot | src/book.rs:155-161 | Ok exactly on distinct positive orders; book and error are those of the Replace policy; no free slot is left, even on an error |
| OrderBooks.OrderBook.ApplySnapshotWithPolicy | src/book.rs:170-199 | keeps the invariant; both policies, their counts and their errors; a rejected PreserveSynthetic leaves every field alone, and otherwise no free slot is left, even on an error |
| OrderBooks.OrderBook.SyntheticOrdersInBookOrder | src/book.rs:983-995 | the synthetic orders, bids then asks, each in price-time order |
| Snapshot.SyntheticKept | src/book.rs:983-995 | every synthetic order of a side is kept, behind exactly the synthetic orders before it |
| OrderBooks.ValidatePreserveSyntheticSnapshot | src/book.rs:1005-1026 | reports the first offending order and its first offence |
| Snapshot.ValidateIsVenueFrom | src/book.rs:1005-1026 | accepts exactly distinct, positive, non-synthetic orders |
| Snapshot.ValidateStops | src/book.rs:1005-1026 | the error names the first offending order, with the offences looked for in the order zero quantity, clash with a preserved order, synthetic id, repeated id |
| Snapshot.PreserveStops | src/book.rs:170-186 | a rejected PreserveSynthetic reports that error against the book's own synthetic orders |
| Snapshot.PreserveSyntheticExact | src/book.rs:170-199 | succeeds exactly on such orders; an error changes nothing; on success each level is the snapshot's orders for it followed by its former synthetic orders |
| Snapshot.ReplaceExact | src/book.rs:155-168 | Ok exactly on distinct positive orders, and then each level is the snapshot's orders for it |
| Snapshot.ReplaceLosesBook | src/book.rs:184-190 | a snapshot of one order without quantity empties any book and fails |
| Snapshot.ReplaceStops | src/book.rs:184-190 | a rejected Replace leaves exactly the orders before the first offending one, level by level, and reports that order's offence |
| Snapshot.ReplaceAtomic | src/book.rs:165-190 | an error leaves every book unchanged exactly for the snapshots that are distinct and positive, on which there is none |
| Snapshot.AddAllAppends | src/book.rs:187-194 | a list of fresh distinct positive orders is added whole, appended level by level in list order |
| Dwellir.DecodeUpdates | src/dwellir.rs:265-410 | the decoded operations and the three counters; operations, dropped, unresolved and unknown diffs add up to the message |
| Dwellir.DiffDecoded | src/dwellir.rs:270-403 | each diff adds the operation its kind and size call for, or nothing if it is a repeated removal, unresolved or unknown |
| Dwellir.OneRemovalEach | src/dwellir.rs:265-284 | no id is removed twice in one decoded message |
| Dwellir.CollapseAgrees | src/dwellir.rs:265-403 | under DWELLIR_TOLERANT the collapsed and the naive replay agree after every diff, on any book, exactly when no id is removed, re-added and removed again |
| Dwellir.CollapsePreservesMeaning | src/dwellir.rs:265-268 | without re-adding a removed id, both replays end in the same book |
| Dwellir.LivenessDiffers | src/dwellir.rs:265-403 | at the end of any message the collapsed replay lacks no live id of the naive one, and has an id too many exactly if it was added back after a removal and removed again for good |
| Dwellir.RevivedOrderSurvives | src/dwellir.rs:274-286 | in any message, a removal lost to the collapse and not followed by another add of its id leaves the order live in the collapsed replay and gone in the naive one |
| Dwellir.EndsAlikeUnlessRevived | src/dwellir.rs:265-403 | where no lost removal is followed by another add of its id, both replays end in the same book exactly if no removal is lost |
| Dwellir.RevivalMayHeal | src/dwellir.rs:265-403 | that proviso is needed: after remove, new, remove, new of one order both replays end alike although a removal was lost |
| Decimal.ParseFixed | src/dwellir.rs:484-514 | computes the scaled prefix of the fraction or None; the unchecked digit arithmetic and the padding never overflow |
| Decimal.ReadDigit | src/dwellir.rs:505 | one more fraction digit stays a u64 |
| Decimal.PadDigit | src/dwellir.rs:508-511 | the checked padding multiplication never fails |
| Decimal.ParsesFloor | src/dwellir.rs:482-514 | on a plain decimal the result is floor(value times 10^digits) when that and 10^digits fit u64, and None otherwise |
| Decimal.RestIgnored | src/dwellir.rs:498-501 | anything after the fraction digits that count is ignored |
| Decimal.PlusIgnored | src/dwellir.rs:484-491 | one leading plus sign changes no result, accepted or not |
| Decimal.ParsesText | src/dwellir.rs:484-514 | with an optional plus and arbitrary text after the point: the floor of the digits that count if they are digits and all fits, None otherwise |
| Decimal.AcceptedExactly | src/dwellir.rs:484-514 | the accepted strings are exactly an optional plus, digits, and optionally a point whose first digits up to the scale are digits, where the power of ten and the floor fit u64 |
| Decimal.FmtScaled | examples/dwellir_live_sp500.rs:253-269 | prints integer part, and the fraction without trailing zeros and without a dangling point |
| Decimal.PrintsPlain | examples/dwellir_live_sp500.rs:253-269 | what is printed is a plain decimal of the same value with no more fraction digits than the scale, no leading or trailing zero to spare, and a point only before a fraction |
| Decimal.ParseUndoesFmt | examples/dwellir_live_sp500.rs:253-269 | parsing what was printed gives the value back exactly for at most 19 digits |

## Left out

- Floating-point fields of matches and estimates (average price, slippage, percentage): derived by one division from the exact integers that are modelled.
- JSON decoding, file loading, live clients, loggers, the capture script and the benchmark: input, output and library plumbing. The adapter model starts from parsed diffs, so its malformed-input errors (missing fields, bad sizes, prices, sides and wallets) are not modelled; size and price strings are covered by `Decimal` alone.
- Cause metadata and status strings of decoded operations: carried along, never read by the book.
- Wallet hex parsing, display text and capacity reservation: independent of the book. A wallet is an opaque value with equality.
- Overflow of a level's total: excluded by `AbstractBook.Fits` rather than modelled as a panic or a wrap-around.
- Iteration order of the wallet index and hashing: `OrdersByWallet` returns a set.
- The owned top-of-book snapshots: a prefix of `Depth` with `OrdersAt`.
- The debug check of the book's invariants (src/book.rs:911-936): everything it inspects is part of `Valid()`.
- EndsAlikeUnlessRevived: leaves out messages that add an id back after losing its removal; there the final books may agree (`Dwellir.RevivalMayHeal`) or differ in the place and contents of that order, while `Dwellir.LivenessDiffers` and `Dwellir.CollapseAgrees` hold for every message.
- ReplayOps: the printed samples of anomalies are left out.
- `ParseFixed`: text is a sequence of characters, where the source reads bytes; they differ only past the first non-digit, where both give None.
- `FmtScaled`: requires the power of ten to fit u128, where the source panics otherwise.
