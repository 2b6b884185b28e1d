/** Every run of the order manager: index, lifecycle and fill quantities. */
module OrderRuns {
  import opened Decimals
  import opened Folds
  import opened OrderStatuses
  import opened Orders

  /** One call, with what the exchange answers to it. */
  datatype Op =
    | Place(order: OrderValue, reply: Result<Reply>, now: int)
    | Update(id: string, status: OrderStatus, now: int)
    | Sync(id: string, reply: Result<Reply>, now: int)
    | Cancel(id: string, accepted: bool, now: int)
    | CancelAll(symbol: string, accepts: set<string>, now: int)

  function Step(validate: bool, s: Store, op: Op): Store {
    match op
    case Place(order, reply, now) =>
      if Accepted(validate, order, reply) then AfterPlace(s, Placed(order, reply.value, now)) else s
    case Update(id, status, now) => AfterUpdate(s, id, status, now)
    case Sync(id, reply, now) => AfterSync(s, id, reply, now)
    case Cancel(id, accepted, now) => AfterCancel(s, id, accepted, now)
    case CancelAll(symbol, accepts, now) => AfterCancelAll(s, symbol, accepts, now)
  }

  function Run(validate: bool, ops: seq<Op>): Store {
    if ops == [] then Store(map[], map[])
    else Step(validate, Run(validate, ops[..|ops| - 1]), ops[|ops| - 1])
  }

  lemma RunSnoc(validate: bool, ops: seq<Op>, op: Op)
    ensures Run(validate, ops + [op]) == Step(validate, Run(validate, ops), op)
  {
    assert (ops + [op])[..|ops|] == ops;
  }

  /** The order that a call starts tracking, if any. */
  function PlacedBy(validate: bool, op: Op): Option<OrderValue> {
    if op.Place? && Accepted(validate, op.order, op.reply) then Some(Placed(op.order, op.reply.value, op.now)) else None
  }

  /** Every placement that goes through gets a non-empty ID that is not in use. */
  predicate FreshIDs(validate: bool, ops: seq<Op>) {
    ops == [] ||
    var before, placed := ops[..|ops| - 1], PlacedBy(validate, ops[|ops| - 1]);
    && FreshIDs(validate, before)
    && (placed.Some? ==> placed.value.id != "" && placed.value.id !in Run(validate, before).orders)
  }

  // ----- the index

  /** In every run, an order is tracked under the ID it carries. */
  lemma {:induction false} TrackedUnderOwnID(validate: bool, ops: seq<Op>, id: string)
    requires id in Run(validate, ops).orders
    ensures Run(validate, ops).orders[id].id == id
    decreases |ops|
  {
    var before := ops[..|ops| - 1];
    if id in Run(validate, before).orders {
      TrackedUnderOwnID(validate, before, id);
    }
  }

  /** The ID of the last order placed with a client ID. */
  function LastPlaced(validate: bool, ops: seq<Op>, clientID: string): Option<string> {
    if ops == [] then None
    else
      var placed := PlacedBy(validate, ops[|ops| - 1]);
      if placed.Some? && placed.value.clientOrderID == clientID then Some(placed.value.id)
      else LastPlaced(validate, ops[..|ops| - 1], clientID)
  }

  /** A call other than its own placement keeps an order tracked, moves its status along
      the graph, and leaves its identity and quantity alone. */
  lemma StepOnTracked(validate: bool, s: Store, op: Op, id: string)
    requires id in s.orders
    requires var placed := PlacedBy(validate, op); placed.Some? ==> placed.value.id != id
    ensures var t := Step(validate, s, op);
            && id in t.orders
            && IsValidTransition(s.orders[id].status, t.orders[id].status)
            && t.orders[id].clientOrderID == s.orders[id].clientOrderID
            && t.orders[id].quantity == s.orders[id].quantity
  {
    if op.CancelAll? {
      assert Step(validate, s, op).orders[id] == Swept(s.orders[id], id, op.symbol, op.accepts, op.now);
    }
  }

  /** The client index points at the last order placed with the ID, if there is one. */
  ghost predicate IndexedByClient(s: Store, clientID: string, last: Option<string>) {
    if last.None? then clientID !in s.clientIDs
    else
      && clientID in s.clientIDs && s.clientIDs[clientID] == last.value
      && last.value in s.orders && s.orders[last.value].clientOrderID == clientID
  }

  lemma StepKeepsClientIndex(validate: bool, s: Store, op: Op, clientID: string, last: Option<string>)
    requires clientID != "" && IndexedByClient(s, clientID, last)
    requires var placed := PlacedBy(validate, op); placed.Some? ==> placed.value.id !in s.orders
    ensures var placed := PlacedBy(validate, op);
            var newest := placed.Some? && placed.value.clientOrderID == clientID;
            IndexedByClient(Step(validate, s, op), clientID, if newest then Some(placed.value.id) else last)
  {
    if last.Some? {
      StepOnTracked(validate, s, op, last.value);
    }
  }

  lemma {:induction false} ClientIndexed(validate: bool, ops: seq<Op>, clientID: string)
    requires FreshIDs(validate, ops) && clientID != ""
    ensures IndexedByClient(Run(validate, ops), clientID, LastPlaced(validate, ops, clientID))
    decreases |ops|
  {
    if ops != [] {
      var before, op := ops[..|ops| - 1], ops[|ops| - 1];
      ClientIndexed(validate, before, clientID);
      StepKeepsClientIndex(validate, Run(validate, before), op, clientID, LastPlaced(validate, before, clientID));
    }
  }

  /** GetOrderByClientID finds the last order placed with that client ID, and nothing if
      there was none. */
  lemma ClientLookupFindsLastPlaced(validate: bool, ops: seq<Op>, clientID: string)
    requires FreshIDs(validate, ops) && clientID != ""
    ensures var s, last := Run(validate, ops), LastPlaced(validate, ops, clientID);
            && (last.None? ==> LookupClient(s, clientID) == None)
            && (last.Some? ==>
                  && last.value in s.orders
                  && LookupClient(s, clientID) == Some(s.orders[last.value])
                  && s.orders[last.value].clientOrderID == clientID)
  {
    ClientIndexed(validate, ops, clientID);
    LastPlacedNotEmpty(validate, ops, clientID);
  }

  lemma {:induction false} LastPlacedNotEmpty(validate: bool, ops: seq<Op>, clientID: string)
    requires FreshIDs(validate, ops)
    ensures LastPlaced(validate, ops, clientID) != Some("")
    decreases |ops|
  {
    if ops != [] {
      LastPlacedNotEmpty(validate, ops[..|ops| - 1], clientID);
    }
  }

  // ----- the lifecycle

  function StatusOf(s: Store, id: string): OrderStatus {
    if id in s.orders then s.orders[id].status else New
  }

  /** The statuses an order goes through from the moment it is tracked after `i` calls. */
  function StatusHistory(validate: bool, ops: seq<Op>, id: string, i: nat): (history: seq<OrderStatus>)
    requires i <= |ops|
    ensures |history| == |ops| - i + 1
    ensures history[0] == StatusOf(Run(validate, ops[..i]), id)
    ensures history[|history| - 1] == StatusOf(Run(validate, ops), id)
    decreases |ops|
  {
    if i == |ops| then
      assert ops[..i] == ops;
      [StatusOf(Run(validate, ops), id)]
    else
      var before := ops[..|ops| - 1];
      assert before[..i] == ops[..i];
      StatusHistory(validate, before, id, i) + [StatusOf(Run(validate, ops), id)]
  }

  lemma WalkExtended(history: seq<OrderStatus>, to: OrderStatus)
    requires history != [] && IsWalk(history) && IsValidTransition(history[|history| - 1], to)
    ensures IsWalk(history + [to])
  {
  }

  lemma {:induction false} StaysTracked(validate: bool, ops: seq<Op>, id: string, i: nat)
    requires FreshIDs(validate, ops)
    requires i <= |ops| && id in Run(validate, ops[..i]).orders
    ensures id in Run(validate, ops).orders
    decreases |ops|
  {
    if i == |ops| {
      assert ops[..i] == ops;
    } else {
      var n := |ops| - 1;
      assert ops[..n][..i] == ops[..i];
      StaysTracked(validate, ops[..n], id, i);
      StepOnTracked(validate, Run(validate, ops[..n]), ops[n], id);
    }
  }

  lemma LastCallMovesStatus(validate: bool, ops: seq<Op>, id: string, i: nat)
    requires FreshIDs(validate, ops)
    requires i < |ops| && id in Run(validate, ops[..i]).orders
    ensures IsValidTransition(StatusOf(Run(validate, ops[..|ops| - 1]), id), StatusOf(Run(validate, ops), id))
  {
    var n := |ops| - 1;
    assert ops[..n][..i] == ops[..i];
    StaysTracked(validate, ops[..n], id, i);
    StepOnTracked(validate, Run(validate, ops[..n]), ops[n], id);
  }

  /** From placement on, an order stays tracked, and its status history is a walk on the
      status graph. */
  lemma {:induction false} StatusHistoryIsWalk(validate: bool, ops: seq<Op>, id: string, i: nat)
    requires FreshIDs(validate, ops)
    requires i <= |ops| && id in Run(validate, ops[..i]).orders
    ensures id in Run(validate, ops).orders
    ensures IsWalk(StatusHistory(validate, ops, id, i))
    decreases |ops|
  {
    StaysTracked(validate, ops, id, i);
    if i < |ops| {
      var n := |ops| - 1;
      assert ops[..n][..i] == ops[..i];
      StatusHistoryIsWalk(validate, ops[..n], id, i);
      LastCallMovesStatus(validate, ops, id, i);
      WalkExtended(StatusHistory(validate, ops[..n], id, i), StatusOf(Run(validate, ops), id));
    }
  }

  /** However a run goes on after `i` calls: terminal statuses are never left, and an order
      that was partially filled or canceling never becomes new, rejected or expired. */
  lemma OrderLifecycle(validate: bool, ops: seq<Op>, id: string, i: nat)
    requires FreshIDs(validate, ops)
    requires i <= |ops| && id in Run(validate, ops[..i]).orders
    ensures id in Run(validate, ops).orders
    ensures var before, after := Run(validate, ops[..i]).orders[id].status, Run(validate, ops).orders[id].status;
            && CanLeadTo(before, after)
            && (IsTerminal(before) ==> after == before)
            && (before in {PartiallyFilled, Canceling} ==> after !in {New, Rejected, Expired})
  {
    StatusHistoryIsWalk(validate, ops, id, i);
    var history := StatusHistory(validate, ops, id, i);
    WalkLeads(history, 0, |history| - 1);
  }

  /** In every run, a status update takes effect exactly if it is a valid transition, and
      touches nothing but status and time. */
  lemma UpdateMovesStatus(validate: bool, ops: seq<Op>, id: string, status: OrderStatus, now: int)
    requires id != "" && id in Run(validate, ops).orders
    ensures var s, t := Run(validate, ops), Run(validate, ops + [Update(id, status, now)]);
            if IsValidTransition(s.orders[id].status, status)
            then t == s.(orders := s.orders[id := s.orders[id].(status := status, updatedAt := now)])
            else t == s
  {
    RunSnoc(validate, ops, Update(id, status, now));
  }

  // ----- how many orders are tracked

  /** The IDs under which placements went through. */
  function PlacedIDs(validate: bool, ops: seq<Op>): set<string> {
    if ops == [] then {}
    else
      var placed := PlacedBy(validate, ops[|ops| - 1]);
      PlacedIDs(validate, ops[..|ops| - 1]) + if placed.Some? then {placed.value.id} else {}
  }

  /** How many placements went through. */
  function Placements(validate: bool, ops: seq<Op>): nat {
    if ops == [] then 0
    else Placements(validate, ops[..|ops| - 1]) + if PlacedBy(validate, ops[|ops| - 1]).Some? then 1 else 0
  }

  /** Every order ever placed stays tracked, and nothing else is. */
  lemma {:induction false} TrackedIsPlaced(validate: bool, ops: seq<Op>)
    ensures Run(validate, ops).orders.Keys == PlacedIDs(validate, ops)
    decreases |ops|
  {
    if ops != [] {
      TrackedIsPlaced(validate, ops[..|ops| - 1]);
    }
  }

  lemma {:induction false} TrackedCount(validate: bool, ops: seq<Op>)
    requires FreshIDs(validate, ops)
    ensures |Run(validate, ops).orders| == Placements(validate, ops)
    decreases |ops|
  {
    if ops != [] {
      var before := ops[..|ops| - 1];
      TrackedCount(validate, before);
      TrackedIsPlaced(validate, before);
      TrackedIsPlaced(validate, ops);
    }
  }

  /** Whether at most `maximum` orders are tracked at all times. */
  predicate KeepsMaximum(validate: bool, ops: seq<Op>, maximum: int) {
    && |Run(validate, ops).orders| <= maximum
    && (ops != [] ==> KeepsMaximum(validate, ops[..|ops| - 1], maximum))
  }

  /** A maximum on the tracked orders is kept exactly by the runs in which no more
      placements than that go through: nothing else keeps it. */
  lemma {:induction false} MaximumKeptIff(validate: bool, ops: seq<Op>, maximum: int)
    requires FreshIDs(validate, ops)
    ensures KeepsMaximum(validate, ops, maximum) <==> Placements(validate, ops) <= maximum
    decreases |ops|
  {
    TrackedCount(validate, ops);
    if ops != [] {
      MaximumKeptIff(validate, ops[..|ops| - 1], maximum);
    }
  }

  /** A valid market order. */
  const SOME_ORDER := OrderValue("", "", "BTC/USDT", SIDE_BUY, TYPE_MARKET, ZERO, Decimal(1, 0), ZERO, ZERO, New, 0, 0)

  function PlaceNth(n: nat): Op {
    Place(SOME_ORDER, Ok(Reply(seq(n + 1, _ => '0'), New, ZERO, Decimal(1, 0), ZERO, ZERO)), 0)
  }

  function PlaceMany(n: nat): seq<Op> {
    if n == 0 then [] else PlaceMany(n - 1) + [PlaceNth(n - 1)]
  }

  lemma NthGoesThrough(validate: bool, n: nat)
    ensures var placed := PlacedBy(validate, PlaceNth(n)); placed.Some? && |placed.value.id| == n + 1
  {
  }

  /** `n` placements went through, under IDs of at most `n` characters. */
  ghost predicate Placing(validate: bool, ops: seq<Op>, n: nat) {
    && FreshIDs(validate, ops) && Placements(validate, ops) == n
    && forall id :: id in PlacedIDs(validate, ops) ==> |id| <= n
  }

  lemma PlaceAnother(validate: bool, ops: seq<Op>, op: Op, n: nat)
    requires Placing(validate, ops, n)
    requires var placed := PlacedBy(validate, op); placed.Some? && |placed.value.id| == n + 1
    ensures Placing(validate, ops + [op], n + 1)
  {
    var all, id := ops + [op], PlacedBy(validate, op).value.id;
    assert all[..|ops|] == ops && all[|ops|] == op;
    TrackedIsPlaced(validate, ops);
    assert id !in PlacedIDs(validate, ops);
    assert PlacedIDs(validate, all) == PlacedIDs(validate, ops) + {id};
  }

  lemma {:induction false} ManyPlaced(validate: bool, n: nat)
    ensures Placing(validate, PlaceMany(n), n)
  {
    if n > 0 {
      ManyPlaced(validate, n - 1);
      NthGoesThrough(validate, n - 1);
      PlaceAnother(validate, PlaceMany(n - 1), PlaceNth(n - 1), n - 1);
    }
  }

  /** No maximum is kept by every run, whether or not orders are validated. */
  lemma NoMaximumEnforced(validate: bool, maximum: nat) returns (ops: seq<Op>)
    ensures FreshIDs(validate, ops) && !KeepsMaximum(validate, ops, maximum)
  {
    ops := PlaceMany(maximum + 1);
    ManyPlaced(validate, maximum + 1);
    MaximumKeptIff(validate, ops, maximum);
  }

  // ----- cancelling everything

  /** One cancel request after the other. */
  function CancelEach(ids: seq<string>, accepts: set<string>, now: int): seq<Op> {
    seq(|ids|, k requires 0 <= k < |ids| => Cancel(ids[k], ids[k] in accepts, now))
  }

  lemma CancelIsSweep(s: Store, t: Store, id: string, symbol: string, accepts: set<string>, now: int)
    requires id in s.orders && id in t.orders && t.orders[id] == s.orders[id]
    requires IsPending(s.orders[id], symbol)
    ensures AfterCancel(t, id, id in accepts, now) ==
            t.(orders := t.orders[id := Swept(t.orders[id], id, symbol, accepts, now)])
  {
    assert t.orders == t.orders[id := t.orders[id]];
  }

  predicate AllPending(s: Store, ids: seq<string>, symbol: string) {
    forall k :: 0 <= k < |ids| ==> ids[k] in s.orders && IsPending(s.orders[ids[k]], symbol)
  }

  /** The last of several cancel requests. */
  lemma CancelLast(validate: bool, ops: seq<Op>, ids: seq<string>, accepts: set<string>, now: int)
    requires ids != []
    ensures var front, last := ids[..|ids| - 1], ids[|ids| - 1];
            Run(validate, ops + CancelEach(ids, accepts, now)) ==
            AfterCancel(Run(validate, ops + CancelEach(front, accepts, now)), last, last in accepts, now)
  {
    var front, last := ids[..|ids| - 1], ids[|ids| - 1];
    var cancel := Cancel(last, last in accepts, now);
    assert CancelEach(ids, accepts, now) == CancelEach(front, accepts, now) + [cancel];
    assert ops + CancelEach(ids, accepts, now) == ops + CancelEach(front, accepts, now) + [cancel];
    RunSnoc(validate, ops + CancelEach(front, accepts, now), cancel);
  }

  lemma SweepLast(s: Store, ids: seq<string>, symbol: string, accepts: set<string>, now: int)
    requires ids != [] && AllDifferent(ids) && AllPending(s, ids, symbol)
    ensures var front, last := ids[..|ids| - 1], ids[|ids| - 1];
            AfterCancel(SweptInTurn(s, front, symbol, accepts, now), last, last in accepts, now) ==
            SweptInTurn(s, ids, symbol, accepts, now)
  {
    var front, last := ids[..|ids| - 1], ids[|ids| - 1];
    assert last !in front;
    SweptInTurnAt(s, front, symbol, accepts, now, last);
    CancelIsSweep(s, SweptInTurn(s, front, symbol, accepts, now), last, symbol, accepts, now);
  }

  lemma {:induction false} CancelEachSweeps(validate: bool, ops: seq<Op>, ids: seq<string>,
      symbol: string, accepts: set<string>, now: int)
    requires AllDifferent(ids) && AllPending(Run(validate, ops), ids, symbol)
    ensures Run(validate, ops + CancelEach(ids, accepts, now)) ==
            SweptInTurn(Run(validate, ops), ids, symbol, accepts, now)
    decreases |ids|
  {
    if ids == [] {
      assert ops + CancelEach(ids, accepts, now) == ops;
    } else {
      CancelEachSweeps(validate, ops, ids[..|ids| - 1], symbol, accepts, now);
      CancelLast(validate, ops, ids, accepts, now);
      SweepLast(Run(validate, ops), ids, symbol, accepts, now);
    }
  }

  /** Cancelling everything is cancelling each pending matching order, in any order. */
  lemma CancelAllIsCancelEach(validate: bool, ops: seq<Op>, ids: seq<string>, symbol: string, accepts: set<string>,
                              now: int)
    requires AllDifferent(ids)
    requires var s := Run(validate, ops); forall id :: id in ids <==> id in s.orders && IsPending(s.orders[id], symbol)
    ensures Run(validate, ops + [CancelAll(symbol, accepts, now)]) == Run(validate, ops + CancelEach(ids, accepts, now))
  {
    RunSnoc(validate, ops, CancelAll(symbol, accepts, now));
    CancelEachSweeps(validate, ops, ids, symbol, accepts, now);
    SweepComplete(Run(validate, ops), ids, symbol, accepts, now);
  }

  /** No tracked order has the empty ID. */
  lemma {:induction false} TrackedIDsNotEmpty(validate: bool, ops: seq<Op>)
    requires FreshIDs(validate, ops)
    ensures "" !in Run(validate, ops).orders
    decreases |ops|
  {
    if ops != [] {
      TrackedIDsNotEmpty(validate, ops[..|ops| - 1]);
    }
  }

  /** In every run, cancelling everything moves the pending matching orders whose requests are
      accepted to CANCELING and changes nothing else about any order; when all requests are
      accepted, no matching order is left pending. */
  lemma CancelAllEffect(validate: bool, ops: seq<Op>, symbol: string, accepts: set<string>, now: int, id: string)
    requires FreshIDs(validate, ops) && id in Run(validate, ops).orders
    ensures var s, t := Run(validate, ops), Run(validate, ops + [CancelAll(symbol, accepts, now)]);
            var before := s.orders[id];
            && t.orders.Keys == s.orders.Keys && t.clientIDs == s.clientIDs
            && t.orders[id] == (if IsPending(before, symbol) && id in accepts
                                then before.(status := Canceling, updatedAt := now) else before)
            && (s.orders.Keys <= accepts ==> !IsPending(t.orders[id], symbol))
  {
    RunSnoc(validate, ops, CancelAll(symbol, accepts, now));
    TrackedIDsNotEmpty(validate, ops);
    var s := Run(validate, ops);
    assert AfterCancelAll(s, symbol, accepts, now).orders[id] == Swept(s.orders[id], id, symbol, accepts, now);
  }

  // ----- fill quantities

  /** Filled and remaining make up the quantity. */
  ghost predicate Conserves(o: OrderValue) {
    Decimals.Value(o.filled) + Decimals.Value(o.remaining) == Decimals.Value(o.quantity)
  }

  ghost predicate MakesUp(reply: Reply, quantity: Decimal) {
    Decimals.Value(reply.filled) + Decimals.Value(reply.remaining) == Decimals.Value(quantity)
  }

  lemma NormalizedMakesUp(id: string, status: OrderStatus, price: Decimal, origQty: Decimal, executedQty: Decimal)
    ensures MakesUp(NormalizeOrder(id, status, price, origQty, executedQty), origQty)
    ensures var reply := NormalizeOrder(id, status, price, origQty, executedQty);
            && reply.id == id && reply.status == status && reply.price == price && reply.quantity == origQty
            && reply.filled == executedQty
  {
    SubValue(origQty, executedQty);
  }

  /** The answers to a placement after which the tracked order adds up: those with a
      non-zero remainder that add up themselves, and those without fill and remainder. */
  ghost predicate PlacementAddsUp(reply: Reply, quantity: Decimal) {
    if IsZero(reply.remaining) then IsZero(reply.filled) else MakesUp(reply, quantity)
  }

  lemma PlacedConservesIff(o: OrderValue, reply: Reply, now: int)
    ensures Conserves(Placed(o, reply, now)) <==> PlacementAddsUp(reply, o.quantity)
  {
    ValueSign(reply.filled);
    ValueSign(reply.remaining);
    ValueSign(ZERO);
  }

  /** For a normalized answer about the same quantity, placement loses conservation exactly
      when the order was completely filled at once: the zero remainder is not copied. */
  lemma CompleteFillIsMiscounted(o: OrderValue, id: string, status: OrderStatus, price: Decimal, executedQty: Decimal,
                                 now: int)
    ensures var placed := Placed(o, NormalizeOrder(id, status, price, o.quantity, executedQty), now);
            Conserves(placed) <==> IsZero(executedQty) || Decimals.Value(executedQty) != Decimals.Value(o.quantity)
  {
    var reply := NormalizeOrder(id, status, price, o.quantity, executedQty);
    SubValue(o.quantity, executedQty);
    ValueSign(reply.remaining);
    PlacedConservesIff(o, reply, now);
  }

  /** After a synchronisation the tracked order adds up exactly when the answer does. */
  lemma SyncedConservesIff(o: OrderValue, reply: Reply, now: int)
    ensures Conserves(Synced(o, reply, now)) <==> MakesUp(reply, o.quantity)
  {
  }

  /** In every run, after a successful synchronisation with a normalized answer the tracked fill
      is what the exchange executed and the remainder is the rest; every other order, and the
      order's own identity and terms, are as before. */
  lemma SyncTracksExecution(validate: bool, ops: seq<Op>, id: string, status: OrderStatus, price: Decimal,
                            origQty: Decimal, executedQty: Decimal, now: int)
    requires id != "" && id in Run(validate, ops).orders
    requires IsValidTransition(Run(validate, ops).orders[id].status, status)
    ensures var answer := NormalizeOrder(id, status, price, origQty, executedQty);
            var s, t := Run(validate, ops), Run(validate, ops + [Sync(id, Ok(answer), now)]);
            && t.orders.Keys == s.orders.Keys && t.clientIDs == s.clientIDs
            && t.orders[id].filled == executedQty && t.orders[id].status == status
            && Decimals.Value(t.orders[id].remaining) == Decimals.Value(origQty) - Decimals.Value(executedQty)
            && t.orders[id].price == (if IsZero(price) then s.orders[id].price else price)
            && SameTerms(t.orders[id], s.orders[id]) && t.orders[id].id == s.orders[id].id
            && forall other :: other in s.orders && other != id ==> t.orders[other] == s.orders[other]
  {
    RunSnoc(validate, ops, Sync(id, Ok(NormalizeOrder(id, status, price, origQty, executedQty)), now));
    SubValue(origQty, executedQty);
  }

  /** The exchange's answers add up with the quantities of the orders they are about. */
  ghost predicate AnswersAddUp(validate: bool, ops: seq<Op>) {
    ops == [] ||
    var before, op := ops[..|ops| - 1], ops[|ops| - 1];
    && AnswersAddUp(validate, before)
    && AnswerAddsUp(validate, Run(validate, before), op)
  }

  ghost predicate AnswerAddsUp(validate: bool, s: Store, op: Op) {
    && (PlacedBy(validate, op).Some? ==> PlacementAddsUp(op.reply.value, op.order.quantity))
    && (op.Sync? && op.reply.Ok? && op.id in s.orders ==> MakesUp(op.reply.value, s.orders[op.id].quantity))
  }

  lemma StepConserves(validate: bool, s: Store, op: Op)
    requires forall id :: id in s.orders ==> Conserves(s.orders[id])
    requires AnswerAddsUp(validate, s, op)
    ensures var t := Step(validate, s, op); forall id :: id in t.orders ==> Conserves(t.orders[id])
  {
    if PlacedBy(validate, op).Some? {
      PlacedConservesIff(op.order, op.reply.value, op.now);
    } else if op.Sync? && op.reply.Ok? && op.id in s.orders {
      SyncedConservesIff(s.orders[op.id], op.reply.value, op.now);
    }
  }

  /** In every run whose answers add up, every tracked order adds up at all times. */
  lemma {:induction false} FillsConserved(validate: bool, ops: seq<Op>)
    requires AnswersAddUp(validate, ops)
    ensures forall id :: id in Run(validate, ops).orders ==> Conserves(Run(validate, ops).orders[id])
    decreases |ops|
  {
    if ops != [] {
      var n := |ops| - 1;
      FillsConserved(validate, ops[..n]);
      StepConserves(validate, Run(validate, ops[..n]), ops[n]);
    }
  }
}
