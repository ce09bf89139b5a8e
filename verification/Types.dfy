// Value types shared by the book, the simulator and the adapter (src/types.rs).
module Types {

  const MAX_U64: int := 0xFFFF_FFFF_FFFF_FFFF
  const MAX_U128: int := 0xFFFF_FFFF_FFFF_FFFF_FFFF_FFFF_FFFF_FFFF

  // Machine integers: every value of these types is proved to be in range.
  type u64 = x: int | 0 <= x <= MAX_U64
  type u128 = x: int | 0 <= x <= MAX_U128

  type OrderId = u64
  type Price = u64
  type Qty = u64
  type Ts = u64

  datatype WalletId = WalletId(address: nat)

  datatype Option<+T> = None | Some(value: T)

  datatype Result<+T> = Ok(value: T) | Err(error: BookError)

  datatype Side = Bid | Ask

  function Opposite(side: Side): Side {
    if side.Bid? then Ask else Bid
  }

  datatype Order = Order(id: OrderId, wallet: WalletId, side: Side, price: Price, qty: Qty, ts: Ts)

  datatype BookOp =
    | Add(order: Order)
    | Remove(id: OrderId)
    | UpdateSize(id: OrderId, newQty: Qty)
    | AmendSize(id: OrderId, newQty: Qty)

  datatype BookError =
    | DuplicateOrderId(id: OrderId)
    | UnknownOrderId(id: OrderId)
    | ZeroQty
    | SyntheticOrderIdInSnapshot(id: OrderId)
    | NonDecreasingSize(current: Qty, proposed: Qty)

  datatype AmendPriorityPolicy = Preserve | LosePriorityOnIncrease

  // Replay policies

  datatype MissingOrderPolicy = MissingError | MissingSkip
  datatype DuplicateAddPolicy = DuplicateError | DuplicateSkip
  datatype NonDecreasingUpdatePolicy = NonDecreasingError | TreatAsAmend

  datatype ReplayPolicy = ReplayPolicy(
    missingOrder: MissingOrderPolicy,
    duplicateAdd: DuplicateAddPolicy,
    nonDecreasingUpdate: NonDecreasingUpdatePolicy)

  const STRICT := ReplayPolicy(MissingError, DuplicateError, NonDecreasingError)
  const DWELLIR_TOLERANT := ReplayPolicy(MissingSkip, DuplicateSkip, TreatAsAmend)

  datatype ToleratedReplayReason =
    | MissingOrder(id: OrderId)
    | DuplicateAdd(id: OrderId)
    | NonDecreasingUpdate(id: OrderId, current: Qty, proposed: Qty)

  datatype ReplayApplyOutcome =
    | Applied(op: BookOp)
    | Skipped(op: BookOp, reason: ToleratedReplayReason)
    | Coerced(original: BookOp, applied: BookOp, reason: ToleratedReplayReason)
    | Failed(op: BookOp, error: BookError)

  // Matching

  datatype FillDelta = FillDelta(
    makerOrderId: OrderId,
    makerWallet: WalletId,
    makerSide: Side,
    price: Price,
    filledQty: Qty,
    makerQtyBefore: Qty,
    makerQtyAfter: Qty,
    makerRemoved: bool)

  datatype TakerMatch = TakerMatch(
    takerSide: Side,
    requestedQty: Qty,
    filledQty: Qty,
    unfilledQty: Qty,
    filledNotional: u128,
    limitPrice: Price,
    referencePrice: Option<Price>,
    fills: seq<FillDelta>,
    limitStopped: bool,
    exhaustedBook: bool)

  datatype SlippageEstimate = SlippageEstimate(
    takerSide: Side,
    requestedQty: Qty,
    filledQty: Qty,
    unfilledQty: Qty,
    filledNotional: u128,
    limitPrice: Price,
    referencePrice: Option<Price>,
    slippageNotional: Option<u128>,
    limitStopped: bool,
    exhaustedBook: bool)

  datatype LimitOrderPolicy = Gtc | Ioc | Fok | PostOnly

  datatype SubmitRejectReason = PostOnlyWouldCross | FillOrKillWouldNotFill

  datatype SubmitLimitOrderOutcome = SubmitLimitOrderOutcome(
    policy: LimitOrderPolicy,
    rejected: Option<SubmitRejectReason>,
    takerMatch: TakerMatch,
    restedOrder: Option<Order>)

  datatype QueuePosition = QueuePosition(
    id: Option<OrderId>,
    side: Side,
    price: Price,
    ordersAhead: u64,
    qtyAhead: Qty,
    ordersBehind: u64,
    qtyBehind: Qty,
    levelOrderCount: u64,
    levelTotalQty: Qty)

  // Snapshots

  datatype SnapshotPolicy = Replace | PreserveSynthetic

  datatype SnapshotOutcome = SnapshotOutcome(inserted: nat, preserved: nat)

  const SYNTHETIC_ORDER_ID_FLAG: int := 0x8000_0000_0000_0000

  // Bit 63 of the id. It is the top bit, so the namespace is the upper half.
  predicate IsSyntheticOrderId(id: OrderId): (r: bool)
    ensures r <==> id >= SYNTHETIC_ORDER_ID_FLAG
  {
    id / SYNTHETIC_ORDER_ID_FLAG % 2 == 1
  }

  // Setting bit 63 of an id that has it clear is an addition.
  function SyntheticOrderId(localId: u64): (r: Option<OrderId>)
    ensures r.None? <==> IsSyntheticOrderId(localId)
    ensures r.Some? ==> IsSyntheticOrderId(r.value) && r.value % SYNTHETIC_ORDER_ID_FLAG == localId
  {
    if IsSyntheticOrderId(localId) then None else Some(localId + SYNTHETIC_ORDER_ID_FLAG)
  }
}
