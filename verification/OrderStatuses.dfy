/** The status graph of an order, and which statuses can follow which. */
module OrderStatuses {

  datatype OrderStatus = New | PartiallyFilled | Filled | Canceling | Canceled | Rejected | Expired

  predicate IsTerminal(s: OrderStatus) {
    s == Filled || s == Canceled || s == Rejected || s == Expired
  }

  /** The statuses listed as successors of `from`. */
  function Allowed(from: OrderStatus): seq<OrderStatus> {
    match from
    case New => [PartiallyFilled, Filled, Canceling, Rejected, Expired]
    case PartiallyFilled => [Filled, Canceling, Canceled]
    case Canceling => [Canceled, Filled, PartiallyFilled]
    case _ => []
  }

  predicate IsValidTransition(from: OrderStatus, to: OrderStatus) {
    from == to || to in Allowed(from)
  }

  /** The direct moves: a status may stay, a live or canceling order never becomes NEW, a NEW
      order does not become CANCELED without a cancel request or a fill, and once it is past
      NEW an order is neither rejected nor expires. */
  lemma DirectMoves(from: OrderStatus, to: OrderStatus)
    ensures IsValidTransition(from, to) <==>
              || from == to
              || (&& from in {New, PartiallyFilled, Canceling} && to != New
                  && (if from == New then to != Canceled else to !in {Rejected, Expired}))
  {
  }

  /** A history in which every status validly follows the one before it. */
  ghost predicate IsWalk(history: seq<OrderStatus>) {
    forall k :: 0 <= k < |history| - 1 ==> IsValidTransition(history[k], history[k + 1])
  }

  /** Where an order can get to: anywhere from NEW; from a live or canceling order only
      between these two and into filled or canceled; from a terminal status nowhere. */
  predicate CanLeadTo(from: OrderStatus, to: OrderStatus) {
    match from
    case New => true
    case PartiallyFilled => to in {PartiallyFilled, Canceling, Filled, Canceled}
    case Canceling => to in {PartiallyFilled, Canceling, Filled, Canceled}
    case _ => to == from
  }

  lemma {:induction false} WalkLeads(history: seq<OrderStatus>, i: nat, j: nat)
    requires IsWalk(history) && i <= j < |history|
    ensures CanLeadTo(history[i], history[j])
    decreases j - i
  {
    if i < j {
      WalkLeads(history, i, j - 1);
      assert IsValidTransition(history[j - 1], history[j - 1 + 1]);
    }
  }

  /** A shortest history from one status to another. */
  function Route(from: OrderStatus, to: OrderStatus): seq<OrderStatus> {
    if from == to then [from]
    else if IsValidTransition(from, to) then [from, to]
    else [from, Canceling, to]
  }

  /** Reachability over histories of any length is exactly CanLeadTo. */
  lemma ReachableIffWalk(from: OrderStatus, to: OrderStatus)
    ensures CanLeadTo(from, to) <==>
              exists history :: |history| > 0 && IsWalk(history) && history[0] == from && history[|history| - 1] == to
  {
    if CanLeadTo(from, to) {
      var r := Route(from, to);
      assert IsWalk(r) && r[0] == from && r[|r| - 1] == to;
    }
    if history :| |history| > 0 && IsWalk(history) && history[0] == from && history[|history| - 1] == to {
      WalkLeads(history, 0, |history| - 1);
    }
  }

  /** Along any history, a terminal status is final, and an order that was partially filled
      or canceling never becomes new, rejected or expired. */
  lemma HistoriesNeverGoBack(history: seq<OrderStatus>, i: nat, j: nat)
    requires IsWalk(history) && i <= j < |history|
    ensures IsTerminal(history[i]) ==> history[j] == history[i]
    ensures history[i] in {PartiallyFilled, Canceling} ==> history[j] !in {New, Rejected, Expired}
  {
    WalkLeads(history, i, j);
  }

  /** The cancel request can be recorded on exactly the orders that are not finished. */
  lemma CancelingFromEveryOpenStatus(s: OrderStatus)
    ensures IsValidTransition(s, Canceling) <==> !IsTerminal(s)
  {
  }
}
