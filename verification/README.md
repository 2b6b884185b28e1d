# Verification of the trading library's core

A Dafny model of the parts of the library whose correctness is not visible from one
function body: multi-exchange aggregation, the circuit breaker and the session that drives
it, the order manager, the API key ring, reconnect backoff, and symbol conversion.
`dafny verify dfyconfig.toml` checks all of it.

## Layout

| file | content |
|---|---|
| `Folds.dfy`, `Sorting.dfy`, `Roundings.dfy` | folds that do not depend on input order; the library sort, known only as "a sorted permutation"; order-preserving rounding |
| `Decimals.dfy` | decimals as coefficient and exponent, with the number each one stands for |
| `OrderBooks.dfy`, `MergedBook.dfy`, `Pushdown.dfy` | the merged order book: loops, conservation, arrival order, lossless limits |
| `Tickers.dfy`, `Arbitrage.dfy`, `Vwap.dfy` | best price, arbitrage list, volume-weighted average |
| `CircuitBreaker.dfy`, `CircuitBreakerHistory.dfy`, `CircuitBreakerThreads.dfy`, `CircuitBreakerWindows.dfy` | the breaker as a class, its sequential runs, its interleavings step by step, and when an open window holds against them |
| `Sessions.dfy` | the gate in front of every exchange method, the trade iterator, and calls that overlap |
| `OrderStatuses.dfy`, `Orders.dfy`, `OrderRuns.dfy` | the status graph, the manager with its shared order objects, and all its runs |
| `KeyRings.dfy`, `KeyRotation.dfy` | the key ring and its fairness |
| `Backoffs.dfy`, `Symbols.dfy` | the two backoff formulas; wire and internal symbols |

## How the code is represented

- The aggregator is modelled from the moment the per-exchange results have been received:
  a sequence of results, in any order, each a value or an error.
- A decimal is a signed coefficient and an exponent. Addition, subtraction, multiplication
  and comparison are exact, and lemmas tie them to the numbers they stand for. The price
  maps of the merged book are keyed by the printed decimal; printing a finite decimal is
  one-to-one, so the key is the representation itself, and `50000` and `50000.0` are two
  keys.
- Division is a parameter that may fail. The code divides in the decimal library's base
  context, which sets no precision. Theorems about quotients say which quotients they take
  to be exact; `NoQuotientNoArbitrage` says what follows if division always fails.
- Clock readings, replies of the exchange, errors of the rate limiter and the patience of
  an iterator's consumer are parameters. Time is an integer number of nanoseconds.
- An object whose methods update its fields is a class. Its methods are proved against
  functions on values, and the theorems about whole runs are about those functions.
- The breaker's counters are compared with the thresholds as 32-bit integers, so they wrap.
- The shift form of the backoff is computed in wrapping 64-bit arithmetic. The loop form
  goes through 64-bit floating point: its theorems hold for every rounding that keeps
  order, leaves representable integers alone and yields only these from 2^53 on, as
  rounding to nearest does. Converting a number of 2^63 or more back to an integer gives
  what the platform gives, the largest or the smallest integer.
- What the consumer of the trade iterator calls between two items is a parameter, as the
  breaker sees it.
- In `CircuitBreakerThreads` every atomic load, store and clock reading of `Allow`,
  `Record` and `Reset` is one step. Reading the clock and storing the reading are two
  steps. `AloneIsSequential` shows that these steps, undisturbed, compute what the
  sequential specification says.

## What the code does differently from what one might expect

- An opener that stores its clock reading late can overwrite a newer one. For an Allow that
  loaded that opener's Open, the window then shrinks by that delay, and not by more. For
  every breaker that can open, some interleaving loses that much: such an Allow respects the
  window in every interleaving exactly when no opener delays its store
  (`OpenWindowRespected`, `DelayIsLost`, `WorstLoss`).
- The states are stored without comparing. An Allow that pauses before it stores HalfOpen
  can end the window of a later opening for everyone, even if no opener delays its store: an
  Allow that begins after that opening is let through at once (`StaleStoreEndsWindow`). A
  window holds against every interleaving, until its end or a new Reset, when no thread
  holds a pending store of HalfOpen or Closed, is on the way to one, or holds a time from
  before the opening (`WindowHolds`). It is respected in all runs without Reset exactly when
  at most one of the breaker's methods is in progress at a time
  (`WindowRespectedIffOneAtATime`).
- Validation accepts every positive threshold, but a failure threshold above 2^31 - 1 never
  opens the breaker, and with a success threshold above 2^31 - 1 an open breaker never
  closes except by Reset (`OpensIffThresholdFits`, `ClosesIffThresholdFits`).
- A call made while another one is under way, such as a call in the loop body of an
  iteration, can open the breaker before the first one reports; that report is then dropped
  and missing from the metrics. With at most one call under way nothing is ever dropped
  (`NothingDroppedIffOneAtATime`, `GateAccounting`).
- The success counter is documented as the count in half-open state. With a success
  threshold of one, a late success leaves its count behind in the closed state
  (`SuccessesClearedIffThresholdAboveOne`).
- An order that is completely filled when it is placed is tracked with its whole quantity
  still remaining, because a zero remainder in the reply is not copied
  (`CompleteFillIsMiscounted`).
- The websocket client's retry count is not bounded. Its wait is the doubled base, capped,
  exactly as long as base * 2^n is below 2^63; the first attempt for which it is not gets a
  negative wait. With the default base and cap that is attempt 34, counted from 0. From the
  65th attempt on the wait is zero for every base (`ShiftIsCappedDoublingIff`,
  `FirstOverflowIsNegative`, `DefaultShiftBackoff`, `ShiftCollapses`).
- The stream's backoff, with multiplier 2, waits min(base * 2^n, cap) on every attempt
  exactly when the base does not exceed the cap (the first wait is not capped), floating
  point holds the base exactly or the cap hides its rounding, and the platform's conversion
  saturates or no wait leaves the 64-bit range (`LoopIsCappedDoublingIff`). For a base below
  2^53 and a cap below 2^62 only the first condition remains (`ModestBackoffDoubles`).
- With some multiplier above or equal to one the stream's wait shrinks from one attempt to
  the next, exactly when the base exceeds the cap, the base is rounded down, or the
  platform's conversion does not saturate (`NeverShrinksIff`). With a base of 60 seconds and
  a cap of 30, attempt 0 waits 60 seconds and attempt 1 waits 30 (`UncappedFirstWait`).
- The configured maximum of tracked orders is documented, but nothing enforces it: the
  tracked orders are all those ever placed, so a maximum is kept exactly by the runs in
  which no more placements go through (`MaximumKeptIff`, `NoMaximumEnforced`).
- Removing a key at or before the ring's position changes which key is at the position, except
  when it is the first of two and the position is on the second
  (`RemoveKeepsKeyAtPositionIff`).

## Model

| member | source | states |
|---|---|---|
| Decimals.AddValue | pkg/aggregate/aggregator.go:459-459 | adding two decimals adds the numbers they stand for, at the smaller exponent |
| Decimals.SubValue | pkg/aggregate/aggregator.go:203-203 | subtracting two decimals subtracts the numbers, at the smaller exponent |
| Decimals.MulValue | pkg/aggregate/aggregator.go:316-316 | multiplying two decimals multiplies the numbers and adds the exponents |
| Decimals.CmpValue | pkg/aggregate/aggregator.go:183-188 | comparison orders by number, whatever the representations |
| Decimals.AddReorder | pkg/aggregate/aggregator.go:459-473 | sums are the same down to the representation in whatever order they are formed |
| Sorting.SortSlice | pkg/aggregate/aggregator.go:517-523 | sorting yields a sorted permutation, with no promise about ties |
| OrderBooks.AddLevels | pkg/aggregate/aggregator.go:456-468 | one book's side extends the map accumulated from all earlier levels |
| OrderBooks.ListEntries | pkg/aggregate/aggregator.go:489-501 | the map is read out completely, each entry once, in any order |
| OrderBooks.RankSide | pkg/aggregate/aggregator.go:489-532 | a side has distinct prices with accumulated quantities, best first, cut to depth, and nothing cut is better than anything kept |
| OrderBooks.GetMergedOrderBook | pkg/aggregate/aggregator.go:440-544 | an error exactly when no level was contributed; otherwise bids fall and asks rise in price, every kept price is quoted, no quoted bid left out is higher and no quoted ask left out is lower than one kept, and the timestamp is the latest of the usable books |
| OrderBooks.NamesOfUsable | pkg/aggregate/aggregator.go:445-450 | the exchanges named are those that answered with a book and without an error, in the order of arrival |
| MergedBook.MergedQuantity | pkg/aggregate/aggregator.go:456-482 | a price representation is in the merged map exactly when some level quotes it, with the sum of all quantities quoted at it |
| MergedBook.KeptQuantities | pkg/aggregate/aggregator.go:456-482 | every kept bid carries what all exchanges' books together bid at its price, and every kept ask what they ask |
| MergedBook.MergedBookConserves | pkg/aggregate/aggregator.go:440-532 | without a depth limit the merged side holds the total quantity contributed |
| MergedBook.ArrivalOrderIrrelevant | pkg/aggregate/aggregator.go:445-483 | for every permutation of the results the merged map is the same, down to the representation of each quantity |
| MergedBook.LabelsArrivalOrderIrrelevant | pkg/aggregate/aggregator.go:450-454 | for every permutation of the results the timestamp and the contributing exchanges are the same |
| MergedBook.MergedBookDeterministic | pkg/aggregate/aggregator.go:445-532 | if no two keys are numerically equal, the merged side is one fixed sequence for every arrival order, map order and sort |
| MergedBook.SharedExponentIsDistinct | pkg/aggregate/aggregator.go:457-457 | prices written with one common exponent satisfy that condition |
| Pushdown.LimitPushdown | pkg/aggregate/aggregator.go:403-406 | when every book is best first and quotes no price twice, merging every exchange's best `depth` levels and cutting to depth gives exactly the possible results of merging the full books and cutting |
| PushdownBoundary.LosslessIffBestFirst | pkg/core/types.go:313-316 | for one book of positive quantities the limit is lossless at every depth exactly when the book is best first and quotes no price twice |
| Pushdown.LimitKeepsError | pkg/aggregate/aggregator.go:485-487 | the limit never turns data into the "no data" error or back |
| PushdownBoundary.RepeatedPriceLosesQuantity | pkg/core/types.go:313-316 | if a book quoted one price twice, the limit would lose quantity |
| Tickers.GetBestPrice | pkg/aggregate/aggregator.go:160-231 | the first highest bid and first lowest ask of the valid tickers with their exchanges, the latest timestamp, the spread, and the percentage; an error exactly when no ticker is valid or the percentage cannot be divided |
| Tickers.FindArbitrage | pkg/aggregate/aggregator.go:633-698 | an error below two valid tickers; otherwise exactly the opportunities that buy at one ticker's ask and exchange, sell at another one's bid and exchange, and whose percentage (times 100) reaches the minimum, each as often as pairs of tickers yield it, best percentage first |
| Tickers.PlacesOfValid | pkg/aggregate/aggregator.go:636-641 | the valid tickers are the error-free results with a ticker, in the order of arrival |
| Tickers.PairReports | pkg/aggregate/aggregator.go:649-690 | a pair of tickers yields an opportunity exactly if it names their exchanges and prices the right way round and qualifies |
| Tickers.AppendOpportunity | pkg/aggregate/aggregator.go:649-690 | a pair contributes its opportunity unless the positions coincide, the ask is zero, the division fails or the percentage is below the minimum |
| Tickers.ListedIffSomePair | pkg/aggregate/aggregator.go:647-692 | an opportunity is listed exactly when some ordered pair of different valid tickers yields it |
| Arbitrage.ArbitrageAgreesWithBestPrice | pkg/aggregate/aggregator.go:644-696 | with exact quotients a profitable opportunity is listed exactly when the best bid is above the best ask, the first one buys at the best ask and sells at the best bid, and trading between the exchanges named by the best price is listed |
| Arbitrage.RoundedArbitrageLeadsWithBest | pkg/aggregate/aggregator.go:644-696 | with quotients rounded to any precision the same equivalence holds, and trading at the best ask and bid, on the exchanges that the best price names, is listed with the leading percentage |
| Arbitrage.NoQuotientNoArbitrage | pkg/aggregate/aggregator.go:673-676 | if the base context's division fails, nothing is ever listed |
| Arbitrage.BestPriceArrivalOrderIrrelevant | pkg/aggregate/aggregator.go:167-196 | best prices, spread and timestamp are the same for every arrival order |
| Arbitrage.ArbitrageArrivalOrderIrrelevant | pkg/aggregate/aggregator.go:633-696 | every opportunity is listed equally often, and the leading percentage is the same, for every arrival order |
| Vwap.GetVWAP | pkg/aggregate/aggregator.go:302-369 | an error exactly when the total volume is zero or the division fails; otherwise the quotient, volume, level count and exchanges |
| Vwap.TotalsOfAllBooks | pkg/aggregate/aggregator.go:307-347 | the totals are the worth, the volume and the number of all bids and asks in the exchanges' books |
| Vwap.TotalsAreSums | pkg/aggregate/aggregator.go:314-346 | the running totals are the sum of price times quantity and the sum of quantities |
| Vwap.TotalsWithinPrices | pkg/aggregate/aggregator.go:302-347 | the total value lies between lowest and highest price times the total volume |
| Vwap.VwapWithinPrices | pkg/aggregate/aggregator.go:353-357 | an exact average lies between the lowest and the highest price |
| Vwap.VwapRoundedWithinPrices | pkg/aggregate/aggregator.go:353-357 | an average rounded in any order-preserving way lies between two bounds of the prices that the rounding keeps |
| Vwap.ZeroVolumeMeansNoQuantity | pkg/aggregate/aggregator.go:349-351 | with non-negative quantities the "no data" error means that every quantity is zero |
| Vwap.VwapArrivalOrderIrrelevant | pkg/aggregate/aggregator.go:307-347 | the totals are the same, down to the representation, for every arrival order |
| CircuitBreaker.Breaker.constructor | internal/circuitbreaker/breaker.go:68-77 | a new breaker is closed with all counters at zero |
| CircuitBreaker.Breaker.Allow | internal/circuitbreaker/breaker.go:81-99 | the answer and the whole new state |
| CircuitBreaker.Breaker.Record | internal/circuitbreaker/breaker.go:103-155 | the whole new state in each of the three states |
| CircuitBreaker.Breaker.TransitionTo | internal/circuitbreaker/breaker.go:157-160 | the state changes and is counted |
| CircuitBreaker.Breaker.Reset | internal/circuitbreaker/breaker.go:168-172 | closed, both counters cleared, everything else kept |
| CircuitBreakerHistory.HistoryRefinement | internal/circuitbreaker/breaker.go:81-155 | in every run: closed means the failure counter is the number of trailing failures and below the threshold; half-open means fewer successes than needed since entry; lastFailTime is when the breaker last opened |
| CircuitBreakerHistory.MetricsFollow | internal/circuitbreaker/breaker.go:81-155 | in every run the metrics count the requests and, by kind, the results that did not arrive inside an open window |
| CircuitBreakerHistory.ChangesFollow | internal/circuitbreaker/breaker.go:157-160 | in every run the number of state changes is that of the moves between states, a late result that counts half-opening first |
| CircuitBreakerHistory.ClosedExit | internal/circuitbreaker/breaker.go:107-118 | closed is left exactly on the failThreshold-th consecutive failure |
| CircuitBreakerHistory.HalfOpenExit | internal/circuitbreaker/breaker.go:139-153 | half-open closes exactly on the successThreshold-th success since entry (or Reset) and opens exactly on a failure |
| CircuitBreakerHistory.OpenExit | internal/circuitbreaker/breaker.go:88-94 | open is left exactly by Reset or by a call at or after opening time plus timeout |
| CircuitBreakerHistory.QuietWindow | internal/circuitbreaker/breaker.go:119-138 | until the timeout has passed every Allow refuses and every result is dropped |
| CircuitBreakerHistory.OpensIffThresholdFits | internal/circuitbreaker/breaker.go:112-117 | the breaker can ever open exactly when the threshold fits the 32-bit counter |
| CircuitBreakerHistory.ClosesIffThresholdFits | internal/circuitbreaker/breaker.go:139-147 | a breaker that can open can ever close without a Reset exactly when the success threshold fits the 32-bit counter |
| CircuitBreakerHistory.SuccessesClearedIffThresholdAboveOne | internal/circuitbreaker/breaker.go:126-131 | the success counter is zero outside half-open in every run exactly when the success threshold is above one |
| CircuitBreakerThreads.OpenWindowRespected | internal/circuitbreaker/breaker.go:81-94 | in every interleaving, an Allow that loaded an opener's Open returns true no earlier than that opener's fail time plus timeout, less the longest delay between an opener's clock reading and its store |
| CircuitBreakerThreads.StepKeepsInvariant | internal/circuitbreaker/breaker.go:81-172 | every single load, store or clock reading of any thread keeps the stored fail time at most that delay behind every visible opener |
| CircuitBreakerThreads.DelayIsLost | internal/circuitbreaker/breaker.go:111-118 | the bound is attained by two concurrent openers, for every failure threshold that a breaker can reach and every delay up to the timeout |
| CircuitBreakerThreads.WorstLoss | internal/circuitbreaker/breaker.go:81-118 | over all interleavings with stores at most `delay` late, an Allow that loaded an opener's Open returns true at most `loss` before that opener's window ends exactly when `loss` is at least the delay or the whole timeout |
| CircuitBreakerWindows.WindowHolds | internal/circuitbreaker/breaker.go:81-172 | once the breaker is open and no thread is about to change that, no interleaving without a new Reset lets an Allow through before the window is over |
| CircuitBreakerWindows.StepKeepsHeld | internal/circuitbreaker/breaker.go:81-172 | every single load, store or clock reading of any thread keeps that condition until the window is over |
| CircuitBreakerWindows.StaleStoreEndsWindow | internal/circuitbreaker/breaker.go:91-93 | with two threads and no delayed store of a fail time, a late store of HalfOpen lets an Allow through that began in the window of a later opening |
| CircuitBreakerWindows.WindowRespectedIffOneAtATime | internal/circuitbreaker/breaker.go:81-172 | no Allow begun in a window is let through before its end, in any run without Reset and with at most `limit` of the methods in progress, exactly when the limit is one or less |
| CircuitBreakerThreads.LateResultsExclude | internal/circuitbreaker/breaker.go:119-138 | in every interleaving the lock is taken exactly while one thread, and no other, handles a late result |
| CircuitBreakerThreads.AloneIsSequential | internal/circuitbreaker/breaker.go:81-172 | undisturbed, the steps of each operation compute the sequential specification |
| Sessions.Session.Request | pkg/session/session.go:287-313 | the answer and the breaker's new state, from the breaker, the limiter's error and the reply alone: refused inside the window, the limiter's error, or the reply with success recorded exactly for an error-free one |
| Sessions.Session.GetTrades | pkg/session/session.go:345-384 | the delivered items, and the breaker's new state: success is recorded exactly for a finished iteration without an error item, whatever the loop body calls between the items |
| Sessions.ResultCountsOnce | pkg/session/session.go:293-311 | from any state a call that is let through and gets past the limiter adds one to the successes exactly on success and one to the failures exactly on failure |
| Sessions.FromIsHistory | pkg/session/session.go:369-378 | the calls of a loop body go on the breaker's history |
| Sessions.QuietIterationIsCall | pkg/session/session.go:345-384 | for a consumer whose loop body leaves the session alone, an iteration is one call |
| Sessions.SessionAccounting | pkg/session/session.go:293-311 | with calls made one after the other, total minus success minus failed requests is refusals plus limiter errors plus abandoned iterations, for every sequence of calls |
| Sessions.GateAccounting | pkg/session/session.go:293-384 | however calls overlap, total minus success minus failed requests is refusals plus limiter errors plus abandoned iterations plus calls under way plus dropped reports |
| Sessions.NothingDroppedIffOneAtATime | pkg/session/session.go:369-382 | reports are never dropped in all runs with at most `limit` calls under way exactly when the limit is one or less |
| Sessions.CallsInTurn | pkg/session/session.go:287-384 | calls made one after the other are such a run with one call under way, so none of their reports is dropped |
| Sessions.CallsAreHistory | pkg/session/session.go:293-311 | every run of session calls is a run of the breaker |
| Sessions.NoCallInsideWindow | pkg/session/session.go:293-300 | with calls made one after the other, no exchange method runs inside an open window |
| OrderStatuses.DirectMoves | pkg/order/manager.go:424-455 | the valid direct moves: from NEW to everything but CANCELED, from the other open statuses to everything but NEW, REJECTED and EXPIRED, and staying |
| OrderStatuses.ReachableIffWalk | pkg/order/manager.go:424-455 | which status can follow which, over histories of any length |
| OrderStatuses.HistoriesNeverGoBack | pkg/order/manager.go:424-455 | terminal statuses are final; a partially filled or canceling order never becomes new, rejected or expired |
| OrderStatuses.CancelingFromEveryOpenStatus | pkg/order/manager.go:429-447 | every non-terminal status, and no other, may move to CANCELING |
| Orders.Manager.constructor | pkg/order/manager.go:51-63 | nothing is tracked, and the maximum defaults to 10000 |
| Orders.ValidationAccepts | pkg/order/builder.go:164-188 | exactly the orders with a symbol, a positive quantity, a known side and type, and a positive price for the limit types are valid |
| Orders.Manager.PlaceOrder | pkg/order/manager.go:66-126 | the error cases, every field of the caller's order object, both indexes, and the tracked orders after the call |
| Orders.Manager.GetOrder | pkg/order/manager.go:160-176 | the tracked object under the ID, nothing for the empty or an unknown ID |
| Orders.Manager.GetOrderByClientID | pkg/order/manager.go:179-195 | the order found through the client index |
| Orders.Manager.UpdateOrderStatus | pkg/order/manager.go:199-215 | exactly the valid transitions succeed, set status and update time, and change nothing else |
| Orders.Manager.SyncOrder | pkg/order/manager.go:218-252 | exactly the valid transitions are taken over: status, fill and remainder are the reply's, the price unless it is zero, identity and terms stay, and no other order changes |
| Orders.Manager.CancelOrder | pkg/order/manager.go:130-157 | succeeds exactly for a known, non-terminal, accepted order, which ends CANCELING |
| Orders.Manager.GetOrders | pkg/order/manager.go:255-272 | exactly the orders that agree with every field the filter sets, each once |
| Orders.Manager.CancelAllOrders | pkg/order/manager.go:295-315 | in whatever order the map is visited, the loop over the shared objects moves exactly the open orders with the symbol whose requests are accepted to CANCELING |
| Orders.SweepComplete | pkg/order/manager.go:301-312 | cancelling the matching orders one after the other, in any order, is cancelling all of them |
| OrderRuns.TrackedUnderOwnID | pkg/order/manager.go:118-118 | in every run an order is tracked under the ID it carries |
| OrderRuns.ClientLookupFindsLastPlaced | pkg/order/manager.go:179-195 | the client lookup returns the last order placed with that client ID, and nothing if there was none |
| OrderRuns.StatusHistoryIsWalk | pkg/order/manager.go:199-252 | from placement on, the statuses of an order form a walk on the status graph in every run |
| OrderRuns.OrderLifecycle | pkg/order/manager.go:424-455 | in every run terminal statuses are never left and live orders never fall back |
| OrderRuns.UpdateMovesStatus | pkg/order/manager.go:199-215 | in every run a status update takes effect exactly if the transition is valid, and touches nothing but status and time |
| OrderRuns.TrackedIsPlaced | pkg/order/manager.go:118-118 | in every run the tracked IDs are exactly those under which placements went through |
| OrderRuns.MaximumKeptIff | pkg/order/manager.go:30-31 | a maximum on the tracked orders is kept throughout a run exactly when no more placements than that go through |
| OrderRuns.NoMaximumEnforced | pkg/order/manager.go:51-54 | for every maximum some run exceeds it |
| OrderRuns.CancelAllIsCancelEach | pkg/order/manager.go:295-315 | in every run, cancelling everything is the same as cancelling each pending matching order, in any order |
| OrderRuns.CancelAllEffect | pkg/order/manager.go:295-315 | in every run, pending matching orders end CANCELING if accepted and all others keep their whole value; if all are accepted no matching order stays pending |
| OrderRuns.NormalizedMakesUp | pkg/exchange/binance/normalizer.go:143-148 | filled plus remaining is the quantity in a normalized order |
| OrderRuns.PlacedConservesIff | pkg/order/manager.go:87-116 | after placement filled plus remaining is the quantity exactly for the stated replies |
| OrderRuns.CompleteFillIsMiscounted | pkg/order/manager.go:111-116 | for a normalized reply about the same quantity this fails exactly on a complete fill |
| OrderRuns.SyncTracksExecution | pkg/order/manager.go:240-246 | in every run, after a synchronisation with a normalized answer the tracked fill is the executed quantity, the remainder is the rest, and nothing else but status, price and time changes |
| OrderRuns.FillsConserved | pkg/order/manager.go:240-242 | in every run whose replies add up, every tracked order adds up at all times |
| KeyRings.KeyRing.constructor | internal/keyring/keyring.go:53-80 | the ring holds fresh copies of the keys and starts at position 0 |
| KeyRings.KeyRing.Current | internal/keyring/keyring.go:84-100 | the first enabled key at cyclic distance 0 to n - 1, none exactly when all are disabled |
| KeyRings.KeyRing.Rotate | internal/keyring/keyring.go:103-121 | ends, and moves to the next enabled key or once round |
| KeyRings.Distance | internal/keyring/keyring.go:112-120 | the number of steps is at most n, only disabled keys are passed over, and the search stops at an enabled key or after a full turn |
| KeyRings.KeyRing.Add | internal/keyring/keyring.go:179-195 | nothing changes exactly if the ID is known; a new key is appended with its own credentials, enabled, with its counters reset |
| KeyRings.KeyRing.Remove | internal/keyring/keyring.go:198-211 | the first key with the ID is cut out and an overrun position goes back to 0 |
| KeyRings.KeyRing.Disable | internal/keyring/keyring.go:152-162 | exactly the first key with the ID becomes disabled |
| KeyRings.KeyRing.Enable | internal/keyring/keyring.go:165-176 | exactly the first key with the ID becomes enabled, with its error count cleared |
| KeyRotation.RoundRobinFair | internal/keyring/keyring.go:103-121 | with m keys enabled, m consecutive rotations from any position visit each of them exactly once |
| KeyRotation.RotateLandsOnCurrent | internal/keyring/keyring.go:112-116 | after a rotation with some key enabled, Current returns the key at the position |
| KeyRotation.RotateFromDisabled | internal/keyring/keyring.go:92-120 | rotating away from a disabled key does not change what Current returns |
| KeyRotation.DisableTakesOut | internal/keyring/keyring.go:152-162 | disabling takes exactly the first key with the ID out of the enabled ones and leaves every other key and field alone |
| KeyRotation.EnablePutsIn | internal/keyring/keyring.go:165-176 | enabling puts it in, clears its error count, and leaves the rest alone |
| KeyRotation.DisabledIsNotCurrent | internal/keyring/keyring.go:84-100 | after disabling an ID, Current returns a key with another ID, and nothing if no other key is enabled |
| KeyRotation.RunsKeepRing | internal/keyring/keyring.go:179-211 | every sequence of operations keeps the position inside the ring and the IDs distinct |
| KeyRotation.RemoveKeepsKeyAtPositionIff | internal/keyring/keyring.go:204-207 | when a removal leaves the same key at the position |
| Backoffs.LoopBackoff | pkg/stream/ticker.go:259-268 | the loop with its early exit computes the grown wait, for every rounding, conversion, multiplier and attempt |
| Backoffs.ConversionTruncates | pkg/stream/ticker.go:262-262 | inside the 64-bit range conversion cuts the fraction off, towards zero |
| Backoffs.LoopIsCappedDoublingIff | pkg/stream/ticker.go:259-268 | with multiplier 2 it is min(base * 2^n, max) on every attempt exactly under the stated condition on base, cap and platform, for all positive 64-bit bases and all caps |
| Backoffs.ModestBackoffDoubles | pkg/stream/ticker.go:259-268 | for a base below 2^53 and a cap below 2^62 that condition is base <= max |
| Backoffs.LoopNeverShrinks | pkg/stream/ticker.go:259-268 | for every multiplier of at least one, waits never shrink and stay between base and cap, when the base is not rounded down and no product is lost |
| Backoffs.NeverShrinksIff | pkg/stream/ticker.go:259-268 | no multiplier of at least one ever lets the wait shrink exactly when the base does not exceed the cap and is not rounded down, and the platform saturates |
| Backoffs.ShiftedProduct | internal/ws/websocket.go:421-421 | the wrapped shift and product are the product with 2^n in a 64-bit word |
| Backoffs.WrapIsCongruent | internal/ws/websocket.go:421-421 | the wrapped word is in the 64-bit range and differs from the number by a multiple of 2^64 |
| Backoffs.ShiftIsCappedDoublingIff | internal/ws/websocket.go:420-423 | for every positive base and every cap that is not negative, the shift form is min(base * 2^k, max) on all attempts up to n exactly when base * 2^n is below 2^63 |
| Backoffs.FirstOverflowIsNegative | internal/ws/websocket.go:420-423 | for every base and cap, the first attempt whose product leaves the 64-bit word waits a negative time |
| Backoffs.ShiftAgreesIff | internal/ws/websocket.go:420-423 | where the loop form doubles exactly, both forms agree on all attempts up to n exactly when base * 2^n is below 2^63 |
| Backoffs.ShiftCollapses | internal/ws/websocket.go:420-423 | for every positive base and every cap that is not negative, the shift form waits 0 from the 65th attempt on, where capped doubling waits the cap |
| Backoffs.DefaultShiftBackoff | internal/ws/websocket.go:62-67 | with the default base and cap attempts 0 to 33 are right and attempt 34 is negative |
| Symbols.SplitSymbol | pkg/exchange/binance/protocol.go:425-438 | the search loop finds the split at the first listed quote that leaves a base, or returns the symbol |
| Symbols.BinanceSymbols | pkg/exchange/binance/protocol.go:426-435 | a base and a quote are split exactly for USDT, BUSD, USDC, BTC, ETH and BNB |
| Symbols.BybitSymbols | pkg/exchange/bybit/protocol.go:478-487 | a base and a quote are split exactly for USDT, USDC, BTC and ETH |
| Symbols.ListedQuotesAreSuffixFree | pkg/exchange/binance/protocol.go:426-426 | no listed quote ends another, on either exchange |
| Symbols.SymbolRoundTripIff | pkg/exchange/binance/protocol.go:421-438 | base/quote survives formatting and parsing exactly when the base is not empty and the quote is listed |
| Symbols.ExchangeSymbolsRoundTrip | pkg/exchange/bybit/protocol.go:473-490 | the round trip for the lists of both exchanges |
| Symbols.WireRoundTrip | pkg/exchange/binance/protocol.go:421-438 | parsing and formatting gives a slash-free wire symbol back |
| Symbols.QuoteOrderIrrelevant | pkg/exchange/binance/protocol.go:426-435 | parsing does not depend on the order in which the quotes are listed |

## Left out

- The fetch phase of the aggregator (goroutines, channels, contexts), its session registry and its last-update time: the model starts from the received results.
- `ComparePrices`, `GetStats` and the never assigned `PotentialProfit`.
- Decimal library internals: negative zero, NaN, exponent limits, the printed form and its parser (a printed finite decimal always parses back to itself), and rounding.
- ArbitrageAgreesWithBestPrice: takes the quotients of the search to be exact, because with rounded ones several pairs may tie at the head of the list; RoundedArbitrageLeadsWithBest covers rounding that keeps order and sign.
- VwapWithinPrices: takes the final quotient to be exact; VwapRoundedWithinPrices covers rounded ones.
- The 64-bit and 32-bit wrap-around of the breaker's metrics, and the states outside the three named ones.
- HistoryRefinement: assumes thresholds that fit the 32-bit counters; OpensIffThresholdFits and ClosesIffThresholdFits say what happens otherwise.
- SessionAccounting: is about calls made one after the other; GateAccounting lets calls overlap, with each of the breaker's methods as one step. The single loads and stores of CircuitBreakerThreads leave the metrics out.
- NoCallInsideWindow: is about calls made one after the other; StaleStoreEndsWindow lets an exchange method run inside a window, and WindowRespectedIffOneAtATime says when none does.
- Session lifecycle (`SetExchange`, `Close`, `Config`), the cache, the stream subscriptions, and the rate limiter's own arithmetic.
- Order callbacks and subscriber channels, time in force, and the order builder; user callbacks are taken not to change orders.
- CancelAllOrders: uses one clock reading for all orders it touches, where the code reads the clock for each.
- PlaceOrder: promises a valid index only for an order object that is not tracked yet, because placing a tracked object again would change it under its old ID.
- `OnError` of the key ring under the rotating strategies takes a lock it already holds; `MarkUsed`, key masking and the locks themselves are not modelled.
- LoopBackoff: takes the multiplier to be a finite number; NaN and infinite multipliers, which the configuration's type admits, are not modelled.
- The connection state machines around the two backoff formulas; `trade.go` and `orderbook.go` of the streams, whose backoff is the one modelled for tickers.
- Decoding of messages, request builders, normalizers other than the order's quantities, enum and error tables, configuration builders, logging.
