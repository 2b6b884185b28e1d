/** The order manager: tracked orders are shared mutable objects, indexed by the exchange's
    ID and, through a second map, by the client's ID. */
module Orders {
  import opened Decimals
  import opened Folds
  import opened OrderStatuses

  const SIDE_BUY := 0
  const SIDE_SELL := 1
  const TYPE_MARKET := 0
  const TYPE_LIMIT := 1
  const TYPE_STOP_LOSS_LIMIT := 3
  const TYPE_TAKE_PROFIT_LIMIT := 5

  /** The value of an order object.  An unset creation time is 0. */
  datatype OrderValue = OrderValue(
    id: string, clientOrderID: string, symbol: string, side: int, kind: int,
    price: Decimal, quantity: Decimal, filled: Decimal, remaining: Decimal,
    status: OrderStatus, createdAt: int, updatedAt: int)

  /** What the exchange answers about an order. */
  datatype Reply = Reply(
    id: string, status: OrderStatus, price: Decimal, quantity: Decimal, filled: Decimal, remaining: Decimal)

  datatype OrderFilter = OrderFilter(symbol: string, side: int, status: OrderStatus, kind: int)

  const NO_FILTER := OrderFilter("", 0, New, 0)

  function NormalizeOrder(id: string, status: OrderStatus, price: Decimal, origQty: Decimal,
                          executedQty: Decimal): Reply
  {
    Reply(id, status, price, origQty, executedQty, Sub(origQty, executedQty))
  }

  function ValidateOrder(o: OrderValue): Option<string> {
    if o.symbol == "" then Some("symbol is required")
    else if o.quantity.coeff <= 0 then Some("quantity must be positive")
    else if o.kind in {TYPE_LIMIT, TYPE_STOP_LOSS_LIMIT, TYPE_TAKE_PROFIT_LIMIT} && o.price.coeff <= 0
    then Some("price must be positive for limit orders")
    else if o.side != SIDE_BUY && o.side != SIDE_SELL then Some("invalid order side")
    else if o.kind < TYPE_MARKET || o.kind > TYPE_TAKE_PROFIT_LIMIT then Some("invalid order type")
    else None
  }

  /** A zero field of the filter does not filter. */
  predicate Matches(f: OrderFilter, o: OrderValue) {
    && (f.symbol == "" || o.symbol == f.symbol)
    && (f.side == 0 || o.side == f.side)
    && (f.status == New || o.status == f.status)
    && (f.kind == 0 || o.kind == f.kind)
  }

  /** The order as it is when it is sent to the exchange. */
  function Prepared(o: OrderValue, now: int): OrderValue {
    o.(createdAt := if o.createdAt == 0 then now else o.createdAt, updatedAt := now,
       remaining := o.quantity, filled := ZERO)
  }

  /** The order after the exchange accepted it. */
  function Placed(o: OrderValue, reply: Reply, now: int): OrderValue {
    var p := Prepared(o, now);
    p.(id := if reply.id != "" then reply.id else p.id,
       status := if reply.status != New then reply.status else p.status,
       filled := if !IsZero(reply.filled) then reply.filled else p.filled,
       remaining := if !IsZero(reply.remaining) then reply.remaining else p.remaining)
  }

  /** Whether a placement goes through. */
  predicate Accepted(validate: bool, o: OrderValue, reply: Result<Reply>) {
    (validate ==> ValidateOrder(o).None?) && reply.Ok?
  }

  /** The caller's order object after PlaceOrder, whether it went through or not. */
  function AfterAttempt(validate: bool, o: OrderValue, reply: Result<Reply>, now: int): OrderValue {
    if validate && ValidateOrder(o).Some? then o
    else if reply.Err? then Prepared(o, now)
    else Placed(o, reply.value, now)
  }

  function Synced(o: OrderValue, reply: Reply, now: int): OrderValue {
    o.(status := reply.status, filled := reply.filled, remaining := reply.remaining, updatedAt := now,
       price := if !IsZero(reply.price) then reply.price else o.price)
  }

  function WithStatus(o: OrderValue, status: OrderStatus, now: int): OrderValue {
    o.(status := status, updatedAt := now)
  }

  /** Validation accepts exactly the orders with a symbol, a positive quantity, a known side
      and type, and a positive price where the type (1, 3 or 5) has a limit. */
  lemma ValidationAccepts(o: OrderValue)
    ensures ValidateOrder(o).None? <==>
              && o.symbol != "" && Decimals.Value(o.quantity) > 0.0
              && (o.kind == 1 || o.kind == 3 || o.kind == 5 ==> Decimals.Value(o.price) > 0.0)
              && 0 <= o.side <= 1 && 0 <= o.kind <= 5
  {
    ValueSign(o.quantity);
    ValueSign(o.price);
  }

  /** The terms of an order, which only its owner sets. */
  predicate SameTerms(o: OrderValue, p: OrderValue) {
    && o.clientOrderID == p.clientOrderID && o.symbol == p.symbol && o.side == p.side && o.kind == p.kind
    && o.quantity == p.quantity
  }

  /** An order value that the filter asks for; NEW, side 0 and type 0 ask for nothing. */
  ghost predicate AskedFor(f: OrderFilter, symbol: string, side: int, status: OrderStatus, kind: int) {
    && (f.symbol == "" || symbol == f.symbol) && (f.side == 0 || side == f.side)
    && (f.status == New || status == f.status) && (f.kind == 0 || kind == f.kind)
  }

  /** `o` is as the exchange last said. */
  predicate TookOver(o: OrderValue, reply: Reply, now: int) {
    o.status == reply.status && o.filled == reply.filled && o.remaining == reply.remaining && o.updatedAt == now
  }

  // ----- the manager's state as a value

  datatype Store = Store(orders: map<string, OrderValue>, clientIDs: map<string, string>)

  function Lookup(s: Store, id: string): Option<OrderValue> {
    if id == "" || id !in s.orders then None else Some(s.orders[id])
  }

  function LookupClient(s: Store, clientID: string): Option<OrderValue> {
    if clientID == "" || clientID !in s.clientIDs then None else Lookup(s, s.clientIDs[clientID])
  }

  function AfterPlace(s: Store, placed: OrderValue): Store {
    Store(s.orders[placed.id := placed],
          if placed.clientOrderID != "" then s.clientIDs[placed.clientOrderID := placed.id] else s.clientIDs)
  }

  function AfterUpdate(s: Store, id: string, status: OrderStatus, now: int): Store {
    if Lookup(s, id).None? || !IsValidTransition(s.orders[id].status, status) then s
    else s.(orders := s.orders[id := WithStatus(s.orders[id], status, now)])
  }

  function AfterSync(s: Store, id: string, reply: Result<Reply>, now: int): Store {
    if Lookup(s, id).None? || reply.Err? || !IsValidTransition(s.orders[id].status, reply.value.status) then s
    else s.(orders := s.orders[id := Synced(s.orders[id], reply.value, now)])
  }

  /** Whether cancelling an order with this value ends in CANCELING. */
  predicate Cancelable(o: OrderValue, id: string, accepted: bool) {
    id != "" && !IsTerminal(o.status) && accepted
  }

  function AfterCancel(s: Store, id: string, accepted: bool, now: int): Store {
    if id in s.orders && Cancelable(s.orders[id], id, accepted)
    then s.(orders := s.orders[id := WithStatus(s.orders[id], Canceling, now)])
    else s
  }

  /** One order under CancelAllOrders. */
  function Swept(o: OrderValue, id: string, symbol: string, accepts: set<string>, now: int): OrderValue {
    if Matches(NO_FILTER.(symbol := symbol), o) && o.status != Canceling && Cancelable(o, id, id in accepts)
    then WithStatus(o, Canceling, now)
    else o
  }

  predicate AllDifferent(ids: seq<string>) {
    forall j, k :: 0 <= j < k < |ids| ==> ids[j] != ids[k]
  }

  /** The matching orders swept one after the other. */
  function SweptInTurn(s: Store, ids: seq<string>, symbol: string, accepts: set<string>, now: int): (t: Store)
    requires forall k :: 0 <= k < |ids| ==> ids[k] in s.orders
    ensures t.orders.Keys == s.orders.Keys
  {
    if ids == [] then s
    else
      var t, id := SweptInTurn(s, ids[..|ids| - 1], symbol, accepts, now), ids[|ids| - 1];
      t.(orders := t.orders[id := Swept(t.orders[id], id, symbol, accepts, now)])
  }

  /** When no ID comes twice, each is swept from its original value and no other is touched. */
  lemma {:induction false} SweptInTurnAt(s: Store, ids: seq<string>, symbol: string, accepts: set<string>, now: int,
                                         id: string)
    requires forall k :: 0 <= k < |ids| ==> ids[k] in s.orders
    requires AllDifferent(ids)
    requires id in s.orders
    ensures var t := SweptInTurn(s, ids, symbol, accepts, now);
            t.orders[id] == if id in ids then Swept(s.orders[id], id, symbol, accepts, now) else s.orders[id]
    decreases |ids|
  {
    if ids != [] {
      var front, last := ids[..|ids| - 1], ids[|ids| - 1];
      assert ids == front + [last] && last !in front;
      SweptInTurnAt(s, front, symbol, accepts, now, id);
    }
  }

  /** The next of several different IDs is swept from its original value. */
  lemma SweptNext(s: Store, ids: seq<string>, k: nat, symbol: string, accepts: set<string>, now: int)
    requires forall i :: 0 <= i < |ids| ==> ids[i] in s.orders
    requires AllDifferent(ids) && k < |ids|
    ensures var t := SweptInTurn(s, ids[..k], symbol, accepts, now);
            && t.orders[ids[k]] == s.orders[ids[k]]
            && SweptInTurn(s, ids[..k + 1], symbol, accepts, now) ==
               t.(orders := t.orders[ids[k] := Swept(t.orders[ids[k]], ids[k], symbol, accepts, now)])
  {
    assert ids[..k + 1][..k] == ids[..k];
    SweptInTurnAt(s, ids[..k], symbol, accepts, now, ids[k]);
  }

  /** A matching order that is neither final nor being canceled. */
  predicate IsPending(o: OrderValue, symbol: string) {
    Matches(NO_FILTER.(symbol := symbol), o) && !IsTerminal(o.status) && o.status != Canceling
  }

  /** The order in which the matching orders are visited does not matter, and passing over
      those that are not pending makes no difference. */
  lemma SweepComplete(s: Store, ids: seq<string>, symbol: string, accepts: set<string>, now: int)
    requires forall k :: 0 <= k < |ids| ==> ids[k] in s.orders
    requires AllDifferent(ids)
    requires forall id :: id in s.orders && IsPending(s.orders[id], symbol) ==> id in ids
    ensures SweptInTurn(s, ids, symbol, accepts, now) == AfterCancelAll(s, symbol, accepts, now)
  {
    var t, after := SweptInTurn(s, ids, symbol, accepts, now), AfterCancelAll(s, symbol, accepts, now);
    forall id | id in s.orders
      ensures t.orders[id] == after.orders[id]
    {
      SweptInTurnAt(s, ids, symbol, accepts, now, id);
    }
    SweptInTurnKeepsClients(s, ids, symbol, accepts, now);
    assert t.orders == after.orders;
  }

  lemma {:induction false} SweptInTurnKeepsClients(s: Store, ids: seq<string>, symbol: string, accepts: set<string>,
                                                   now: int)
    requires forall k :: 0 <= k < |ids| ==> ids[k] in s.orders
    ensures SweptInTurn(s, ids, symbol, accepts, now).clientIDs == s.clientIDs
    decreases |ids|
  {
    if ids != [] {
      SweptInTurnKeepsClients(s, ids[..|ids| - 1], symbol, accepts, now);
    }
  }

  function AfterCancelAll(s: Store, symbol: string, accepts: set<string>, now: int): Store {
    s.(orders := map id | id in s.orders :: Swept(s.orders[id], id, symbol, accepts, now))
  }

  /** The open orders with the symbol, or all of them if none is given, end CANCELING if their
      requests are accepted; every other order keeps its whole value. */
  ghost predicate CancelsOpen(s: Store, t: Store, symbol: string, accepts: set<string>, now: int) {
    && t.clientIDs == s.clientIDs && t.orders.Keys == s.orders.Keys
    && forall id :: id in s.orders ==>
         var before := s.orders[id];
         var hit := (symbol == "" || before.symbol == symbol) && before.status in {New, PartiallyFilled}
                    && id != "" && id in accepts;
         t.orders[id] == if hit then before.(status := Canceling, updatedAt := now) else before
  }

  lemma CancelAllCancelsOpen(s: Store, symbol: string, accepts: set<string>, now: int)
    ensures CancelsOpen(s, AfterCancelAll(s, symbol, accepts, now), symbol, accepts, now)
  {
  }

  class Order {
    var id: string
    var clientOrderID: string
    var symbol: string
    var side: int
    var kind: int
    var price: Decimal
    var quantity: Decimal
    var filled: Decimal
    var remaining: Decimal
    var status: OrderStatus
    var createdAt: int
    var updatedAt: int

    function Value(): OrderValue
      reads this
    {
      OrderValue(
        id, clientOrderID, symbol, side, kind, price, quantity, filled, remaining, status, createdAt, updatedAt)
    }

    method Prepare(now: int)
      modifies this
      ensures Value() == Prepared(old(Value()), now)
    {
      if createdAt == 0 {
        createdAt := now;
      }
      updatedAt := now;
      remaining := quantity;
      filled := ZERO;
    }

    /** Takes over what the exchange's answer to a placement says. */
    method Accept(placed: Reply, ghost before: OrderValue, ghost now: int)
      requires Value() == Prepared(before, now)
      modifies this
      ensures Value() == Placed(before, placed, now)
    {
      if placed.id != "" {
        id := placed.id;
      }
      if placed.status != New {
        status := placed.status;
      }
      if !IsZero(placed.filled) {
        filled := placed.filled;
      }
      if !IsZero(placed.remaining) {
        remaining := placed.remaining;
      }
    }

    method SetStatus(newStatus: OrderStatus, now: int)
      modifies this
      ensures Value() == WithStatus(old(Value()), newStatus, now)
    {
      status := newStatus;
      updatedAt := now;
    }

    /** Takes over what the exchange's answer to a query says. */
    method Sync(updated: Reply, now: int)
      modifies this
      ensures Value() == Synced(old(Value()), updated, now)
    {
      status := updated.status;
      filled := updated.filled;
      remaining := updated.remaining;
      updatedAt := now;
      if !IsZero(updated.price) {
        price := updated.price;
      }
    }
  }

  const DEFAULT_MAX_ORDERS := 10000

  class Manager {
    const enableValidation: bool
    const maxOrders: int
    var orders: map<string, Order>
    var clientOrderIDs: map<string, string>

    /** Every tracked object carries the ID it is tracked under, so no object is tracked twice. */
    ghost predicate Valid()
      reads this, orders.Values
    {
      forall id :: id in orders ==> orders[id].id == id
    }

    function View(): Store
      reads this, orders.Values
    {
      Store(map id | id in orders :: orders[id].Value(), clientOrderIDs)
    }

    /** The view after a call that touched one tracked object. */
    twostate lemma OneChanged(id: string)
      requires old(Valid()) && orders == old(orders) && clientOrderIDs == old(clientOrderIDs)
      requires id in orders
      requires forall other :: other in orders && other != id ==> unchanged(orders[other])
      ensures View() == old(View()).(orders := old(View()).orders[id := orders[id].Value()])
    {
      forall other | other in orders && other != id
        ensures orders[other].Value() == old(orders[other].Value())
      {
      }
    }

    constructor (enableValidation: bool, maxOrders: int)
      ensures this.enableValidation == enableValidation
      ensures this.maxOrders == if maxOrders <= 0 then 10000 else maxOrders
      ensures Valid() && orders == map[] && clientOrderIDs == map[]
    {
      this.enableValidation := enableValidation;
      this.maxOrders := if maxOrders <= 0 then DEFAULT_MAX_ORDERS else maxOrders;
      orders, clientOrderIDs := map[], map[];
    }

    /** The view after a placement that stored one object not tracked before. */
    twostate lemma OnePlaced(order: Order)
      requires old(Valid()) && order !in old(orders).Values
      requires orders == old(orders)[order.id := order]
      requires clientOrderIDs == if order.clientOrderID == "" then old(clientOrderIDs)
                                 else old(clientOrderIDs)[order.clientOrderID := order.id]
      requires forall id :: id in old(orders) ==> unchanged(old(orders)[id])
      ensures Valid() && View() == AfterPlace(old(View()), order.Value())
    {
      forall id | id in orders && id != order.id
        ensures orders[id] == old(orders)[id] && orders[id].Value() == old(orders[id].Value()) && orders[id].id == id
      {
      }
      assert View().orders == AfterPlace(old(View()), order.Value()).orders;
    }

    /** The view after a call that touched no tracked object. */
    twostate lemma NoneChanged()
      requires old(Valid()) && orders == old(orders) && clientOrderIDs == old(clientOrderIDs)
      requires forall id :: id in orders ==> unchanged(orders[id])
      ensures Valid() && View() == old(View())
    {
      forall id | id in orders
        ensures orders[id].Value() == old(orders[id].Value()) && orders[id].id == id
      {
      }
      assert View().orders == old(View()).orders;
    }

    /** `reply` is what the session's PlaceOrder returns if it is called. */
    method PlaceOrder(order: Order?, reply: Result<Reply>, now: int) returns (err: Option<string>)
      modifies this, order
      ensures order == null ==> err.Some?
      ensures order != null ==> (err.None? <==> Accepted(enableValidation, old(order.Value()), reply))
      ensures order != null ==> order.Value() == AfterAttempt(enableValidation, old(order.Value()), reply, now)
      ensures order != null ==> SameTerms(order.Value(), old(order.Value())) && order.price == old(order.price)
      ensures order != null && err.None? ==>
                && order.id == (if reply.value.id != "" then reply.value.id else old(order.id))
                && order.status == (if reply.value.status != New then reply.value.status else old(order.status))
                && order.filled == (if IsZero(reply.value.filled) then ZERO else reply.value.filled)
                && order.remaining == (if IsZero(reply.value.remaining) then order.quantity else reply.value.remaining)
                && order.createdAt == (if old(order.createdAt) == 0 then now else old(order.createdAt))
                && order.updatedAt == now
      ensures order != null && err.Some? && (enableValidation ==> ValidateOrder(old(order.Value())).None?) ==>
                && order.filled == ZERO && order.remaining == order.quantity && order.updatedAt == now
                && order.id == old(order.id) && order.status == old(order.status)
                && order.createdAt == (if old(order.createdAt) == 0 then now else old(order.createdAt))
      ensures order != null && enableValidation && ValidateOrder(old(order.Value())).Some? ==>
                err.Some? && order.Value() == old(order.Value())
      ensures orders == if err.None? then old(orders)[order.id := order] else old(orders)
      ensures clientOrderIDs == if err.Some? || order.clientOrderID == "" then old(clientOrderIDs)
                                else old(clientOrderIDs)[order.clientOrderID := order.id]
      ensures old(Valid()) && (order != null ==> order !in old(orders).Values) ==>
                Valid() && View() == if err.Some? then old(View()) else AfterPlace(old(View()), order.Value())
    {
      if order == null {
        if old(Valid()) { NoneChanged(); }
        return Some("order is required");
      }
      if enableValidation {
        var invalid := ValidateOrder(order.Value());
        if invalid.Some? {
          if old(Valid()) { NoneChanged(); }
          return Some("order validation: " + invalid.value);
        }
      }
      ghost var before := order.Value();
      order.Prepare(now);
      if reply.Err? {
        if old(Valid()) && order !in orders.Values { NoneChanged(); }
        return Some("place order: " + reply.error);
      }
      order.Accept(reply.value, before, now);
      orders := orders[order.id := order];
      if order.clientOrderID != "" {
        clientOrderIDs := clientOrderIDs[order.clientOrderID := order.id];
      }
      if old(Valid()) && order !in old(orders).Values { OnePlaced(order); }
      return None;
    }

    method GetOrder(orderID: string) returns (order: Order?)
      ensures order == if orderID == "" || orderID !in orders then null else orders[orderID]
      ensures Lookup(View(), orderID) == if order == null then None else Some(order.Value())
    {
      if orderID == "" {
        return null;
      }
      if orderID !in orders {
        return null;
      }
      return orders[orderID];
    }

    method GetOrderByClientID(clientOrderID: string) returns (order: Order?)
      ensures LookupClient(View(), clientOrderID) == if order == null then None else Some(order.Value())
      ensures order != null ==> order in orders.Values
    {
      if clientOrderID == "" {
        return null;
      }
      if clientOrderID !in clientOrderIDs {
        return null;
      }
      order := GetOrder(clientOrderIDs[clientOrderID]);
    }

    method UpdateOrderStatus(orderID: string, status: OrderStatus, now: int) returns (err: Option<string>)
      requires Valid()
      modifies orders.Values
      ensures Valid() && orders == old(orders) && clientOrderIDs == old(clientOrderIDs)
      ensures View() == AfterUpdate(old(View()), orderID, status, now)
      ensures err.None? <==> orderID != "" && orderID in orders &&
                             IsValidTransition(old(View()).orders[orderID].status, status)
      ensures View() == if err.Some? then old(View())
                        else var o := old(View()).orders[orderID];
                             old(View()).(orders := old(View()).orders[orderID :=
                               o.(status := status, updatedAt := now)])
    {
      var order := GetOrder(orderID);
      if order == null {
        return Some("order not found: " + orderID);
      }
      if !IsValidTransition(order.status, status) {
        return Some("invalid status transition");
      }
      order.SetStatus(status, now);
      OneChanged(orderID);
      return None;
    }

    /** `reply` is what the session's GetOrder returns if it is called. */
    method SyncOrder(orderID: string, reply: Result<Reply>, now: int) returns (r: Result<Order?>)
      requires Valid()
      modifies orders.Values
      ensures Valid() && orders == old(orders) && clientOrderIDs == old(clientOrderIDs)
      ensures View() == AfterSync(old(View()), orderID, reply, now)
      ensures r.Ok? <==> orderID != "" && orderID in orders && reply.Ok? &&
                         IsValidTransition(old(View()).orders[orderID].status, reply.value.status)
      ensures r.Ok? ==> r.value == orders[orderID] && TookOver(orders[orderID].Value(), reply.value, now)
      ensures r.Ok? ==>
                var o, before := orders[orderID].Value(), old(View()).orders[orderID];
                && SameTerms(o, before) && o.id == before.id && o.createdAt == before.createdAt
                && o.price == if IsZero(reply.value.price) then before.price else reply.value.price
      ensures forall id :: id in orders && (r.Err? || id != orderID) ==> View().orders[id] == old(View()).orders[id]
    {
      if orderID == "" {
        return Err("order ID is required");
      }
      var existing := GetOrder(orderID);
      if existing == null {
        return Err("order not found: " + orderID);
      }
      if reply.Err? {
        return Err("sync order: " + reply.error);
      }
      var updated := reply.value;
      if !IsValidTransition(existing.status, updated.status) {
        return Err("invalid status transition from exchange");
      }
      existing.Sync(updated, now);
      OneChanged(orderID);
      return Ok(existing);
    }

    /** `accepted` says whether the session's CancelOrder succeeds if it is called. */
    method CancelOrder(orderID: string, accepted: bool, now: int) returns (err: Option<string>)
      requires Valid()
      modifies orders.Values
      ensures Valid() && orders == old(orders) && clientOrderIDs == old(clientOrderIDs)
      ensures View() == AfterCancel(old(View()), orderID, accepted, now)
      ensures err.None? <==> orderID != "" && orderID in orders && accepted &&
                             old(View()).orders[orderID].status in {New, PartiallyFilled, Canceling}
      ensures View() == if err.Some? then old(View())
                        else var o := old(View()).orders[orderID];
                             old(View()).(orders := old(View()).orders[orderID :=
                               o.(status := Canceling, updatedAt := now)])
    {
      if orderID == "" {
        return Some("order ID is required");
      }
      var order := GetOrder(orderID);
      if order == null {
        return Some("order not found: " + orderID);
      }
      if IsTerminal(order.status) {
        return Some("cannot cancel order in terminal state");
      }
      if !accepted {
        return Some("cancel order");
      }
      err := UpdateOrderStatus(orderID, Canceling, now);
      if err.Some? {
        return Some("update status");
      }
    }

    /** The matching orders, in the arbitrary order in which the map is visited, with the IDs
        under which they are tracked. */
    method GetOrders(filter: OrderFilter) returns (found: seq<Order>, ghost ids: seq<string>)
      requires Valid()
      ensures forall o :: o in found <==> o in orders.Values && Matches(filter, o.Value())
      ensures forall o :: o in found <==> o in orders.Values && AskedFor(filter, o.symbol, o.side, o.status, o.kind)
      ensures forall j, k :: 0 <= j < k < |found| ==> found[j] != found[k]
      ensures |found| == |ids|
      ensures forall k :: 0 <= k < |ids| ==> ids[k] in orders && found[k] == orders[ids[k]]
      ensures AllDifferent(ids)
      ensures forall k :: 0 <= k < |ids| ==> Matches(filter, orders[ids[k]].Value())
      ensures forall id :: id in View().orders && Matches(filter, View().orders[id]) ==> id in ids
    {
      found, ids := [], [];
      var todo := orders.Keys;
      while todo != {}
        invariant todo <= orders.Keys
        invariant |found| == |ids|
        invariant forall k :: 0 <= k < |ids| ==> ids[k] in orders && ids[k] !in todo && found[k] == orders[ids[k]]
        invariant AllDifferent(ids)
        invariant forall k :: 0 <= k < |ids| ==> Matches(filter, orders[ids[k]].Value())
        invariant forall id :: id in orders && id !in todo && Matches(filter, orders[id].Value()) ==> id in ids
        decreases todo
      {
        var id :| id in todo;
        todo := todo - {id};
        if Matches(filter, orders[id].Value()) {
          found, ids := found + [orders[id]], ids + [id];
        }
      }
    }

    /** The body of the loop over the matching orders: failures are logged and passed over. */
    method SweepOne(order: Order, ghost id: string, symbol: string, accepts: set<string>, now: int)
      requires Valid() && id in orders && orders[id] == order
      requires Matches(NO_FILTER.(symbol := symbol), order.Value())
      modifies orders.Values
      ensures Valid() && orders == old(orders) && clientOrderIDs == old(clientOrderIDs)
      ensures var s := old(View());
              View() == s.(orders := s.orders[id := Swept(s.orders[id], id, symbol, accepts, now)])
    {
      assert order.id == id && View().orders[id] == order.Value();
      assert View() == View().(orders := View().orders[id := View().orders[id]]);
      if !IsTerminal(order.status) && order.status != Canceling {
        var err := CancelOrder(order.id, order.id in accepts, now);
      }
    }

    /** The loop over the matching orders. */
    method SweepEach(list: seq<Order>, ghost ids: seq<string>, symbol: string, accepts: set<string>, now: int)
      requires Valid() && |list| == |ids|
      requires forall k :: 0 <= k < |ids| ==> ids[k] in orders && list[k] == orders[ids[k]]
      requires forall k :: 0 <= k < |ids| ==> Matches(NO_FILTER.(symbol := symbol), orders[ids[k]].Value())
      requires AllDifferent(ids)
      modifies orders.Values
      ensures Valid() && orders == old(orders) && clientOrderIDs == old(clientOrderIDs)
      ensures View() == SweptInTurn(old(View()), ids, symbol, accepts, now)
    {
      ghost var before := View();
      for k := 0 to |list|
        invariant Valid() && orders == old(orders) && clientOrderIDs == old(clientOrderIDs)
        invariant View() == SweptInTurn(before, ids[..k], symbol, accepts, now)
      {
        SweptNext(before, ids, k, symbol, accepts, now);
        assert orders[ids[k]].Value() == before.orders[ids[k]];
        SweepOne(list[k], ids[k], symbol, accepts, now);
      }
      assert ids[..|ids|] == ids;
    }

    /** `accepts` holds the IDs whose cancel request the exchange accepts. */
    method CancelAllOrders(symbol: string, accepts: set<string>, now: int)
      requires Valid()
      modifies orders.Values
      ensures Valid() && orders == old(orders) && clientOrderIDs == old(clientOrderIDs)
      ensures View() == AfterCancelAll(old(View()), symbol, accepts, now)
      ensures CancelsOpen(old(View()), View(), symbol, accepts, now)
    {
      var filter := NO_FILTER;
      if symbol != "" {
        filter := filter.(symbol := symbol);
      }
      var list, ids := GetOrders(filter);
      ghost var before := View();
      SweepEach(list, ids, symbol, accepts, now);
      SweepComplete(before, ids, symbol, accepts, now);
      CancelAllCancelsOpen(before, symbol, accepts, now);
    }
  }
}
