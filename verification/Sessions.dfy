/** The gate in front of every exchange method: circuit breaker, rate limiter, the call
    itself, and the report of its outcome back to the breaker. */
module Sessions {
  import opened CircuitBreaker
  import opened CircuitBreakerHistory
  import opened Folds

  /** How a session call ended. */
  datatype Outcome = NoExchange | Refused | Limited | StoppedEarly | Called(success: bool)

  /** What the world does to one call: when the breaker is asked, whether the limiter's
      wait fails, how the exchange's answer ends, and when that is recorded. */
  datatype Call = Call(allowAt: int, limited: bool, ending: Ending, recordAt: int, later: int)

  datatype Ending = Finished(success: bool) | Abandoned

  function OutcomeOf(config: Config, s: Snapshot, call: Call): Outcome {
    if !Allowed(config, s, call.allowAt) then Refused
    else if call.limited then Limited
    else if call.ending.Abandoned? then StoppedEarly
    else Called(call.ending.success)
  }

  function AfterCall(config: Config, s: Snapshot, call: Call): Snapshot {
    var asked := AfterAllow(config, s, call.allowAt);
    match OutcomeOf(config, s, call)
    case Called(success) => AfterRecord(config, asked, success, call.recordAt, call.later)
    case _ => asked
  }

  /** The breaker after some further calls on it. */
  function From(config: Config, s: Snapshot, calls: seq<Event>): Snapshot {
    if calls == [] then s else Step(config, From(config, s, calls[..|calls| - 1]), calls[|calls| - 1])
  }

  /** The breaker after the first `n` runs of an iterator's loop body. */
  function Interrupted(config: Config, s: Snapshot, body: nat -> seq<Event>, n: nat): Snapshot {
    if n == 0 then s else From(config, Interrupted(config, s, body, n - 1), body(n - 1))
  }

  /** The breaker after an iteration whose loop body ran `n` times; a refusal or an error of
      the limiter is handed to the loop body too. */
  function AfterIteration(config: Config, s: Snapshot, call: Call, body: nat -> seq<Event>, n: nat): Snapshot {
    var asked := AfterAllow(config, s, call.allowAt);
    match OutcomeOf(config, s, call)
    case Called(success) =>
      AfterRecord(config, Interrupted(config, asked, body, n), success, call.recordAt, call.later)
    case StoppedEarly => Interrupted(config, asked, body, n)
    case _ => From(config, asked, body(0))
  }

  lemma FromSnoc(config: Config, s: Snapshot, calls: seq<Event>, e: Event)
    ensures From(config, s, calls + [e]) == Step(config, From(config, s, calls), e)
  {
    assert (calls + [e])[..|calls|] == calls;
  }

  /** The calls of a loop body go on the history of the breaker. */
  lemma {:induction false} FromIsHistory(config: Config, history: seq<Event>, calls: seq<Event>)
    ensures From(config, After(config, history), calls) == After(config, history + calls)
    decreases |calls|
  {
    if calls == [] {
      assert history + calls == history;
    } else {
      var front, last := calls[..|calls| - 1], calls[|calls| - 1];
      FromIsHistory(config, history, front);
      assert history + calls == history + front + [last];
      AfterSnoc(config, history + front, last);
    }
  }

  /** Everything that the first `n` runs of the loop body call. */
  function Bodies(body: nat -> seq<Event>, n: nat): seq<Event> {
    if n == 0 then [] else Bodies(body, n - 1) + body(n - 1)
  }

  lemma BodiesNext(history: seq<Event>, body: nat -> seq<Event>, n: nat)
    requires n > 0
    ensures history + Bodies(body, n - 1) + body(n - 1) == history + Bodies(body, n)
  {
  }

  lemma {:induction false} InterruptionsAreHistory(config: Config, history: seq<Event>, body: nat -> seq<Event>, n: nat)
    ensures Interrupted(config, After(config, history), body, n) == After(config, history + Bodies(body, n))
  {
    if n == 0 {
      assert history + [] == history;
    } else {
      InterruptionsAreHistory(config, history, body, n - 1);
      FromIsHistory(config, history + Bodies(body, n - 1), body(n - 1));
      BodiesNext(history, body, n);
    }
  }

  lemma {:induction false} NotInterrupted(config: Config, s: Snapshot, body: nat -> seq<Event>, n: nat)
    requires forall k: nat :: body(k) == []
    ensures Interrupted(config, s, body, n) == s
  {
    if n > 0 {
      NotInterrupted(config, s, body, n - 1);
    }
  }

  /** For a consumer that leaves the session alone while it iterates, an iteration is one call. */
  lemma QuietIterationIsCall(config: Config, s: Snapshot, call: Call, body: nat -> seq<Event>, n: nat)
    requires forall k: nat :: body(k) == []
    ensures AfterIteration(config, s, call, body, n) == AfterCall(config, s, call)
  {
    NotInterrupted(config, AfterAllow(config, s, call.allowAt), body, n);
  }

  /** The breaker after a call that was let through at `allowAt` and reported its result. */
  function Reported(config: Config, s: Snapshot, allowAt: int, success: bool, recordAt: int, later: int): Snapshot {
    AfterRecord(config, AfterAllow(config, s, allowAt), success, recordAt, later)
  }

  const NOT_SET := "exchange not set"
  const BREAKER_OPEN := "circuit breaker is open"

  class Session {
    var exchange: Option<string>
    const breaker: Breaker?

    constructor (breaker: Breaker?)
      ensures this.breaker == breaker && exchange == None
    {
      this.breaker := breaker;
      exchange := None;
    }

    /** The body shared by the request methods. `limiterError` is what waiting for the rate
        limiter returns, `reply` what the exchange method returns if it is called. */
    method Request<T>(limiterError: Option<string>, reply: Result<T>, allowAt: int, recordAt: int, later: int)
      returns (r: Result<T>, outcome: Outcome)
      modifies breaker
      ensures exchange.None? ==> outcome == NoExchange && (breaker != null ==> breaker.View() == old(breaker.View()))
      ensures exchange.Some? && breaker == null ==> outcome == if limiterError.Some? then Limited else Called(reply.Ok?)
      ensures exchange.Some? && breaker != null ==>
                var call := Call(allowAt, limiterError.Some?, Finished(reply.Ok?), recordAt, later);
                && outcome == OutcomeOf(breaker.config, old(breaker.View()), call)
                && breaker.View() == AfterCall(breaker.config, old(breaker.View()), call)
      ensures exchange.None? ==> r == Err("exchange not set") && outcome == NoExchange
      ensures exchange.Some? && breaker == null ==>
                r == if limiterError.Some? then Err("rate limit wait: " + limiterError.value) else reply
      ensures exchange.Some? && breaker != null ==>
                var s := old(breaker.View());
                var inside := s.state.Open? && allowAt - s.lastFailTime < breaker.config.timeout;
                && r == (if inside then Err("circuit breaker is open")
                         else if limiterError.Some? then Err("rate limit wait: " + limiterError.value)
                         else reply)
                && outcome == (if inside then Refused else if limiterError.Some? then Limited else Called(reply.Ok?))
                && breaker.View() == if inside || limiterError.Some? then AfterAllow(breaker.config, s, allowAt)
                                     else Reported(breaker.config, s, allowAt, reply.Ok?, recordAt, later)
      ensures exchange.Some? && breaker != null ==>
                var counts := Allowed(breaker.config, old(breaker.View()), allowAt) && limiterError.None?;
                && breaker.successRequests == old(breaker.successRequests) + (if counts && reply.Ok? then 1 else 0)
                && breaker.failedRequests == old(breaker.failedRequests) + (if counts && reply.Err? then 1 else 0)
                && breaker.totalRequests == old(breaker.totalRequests) + 1
    {
      if exchange.None? {
        return Err(NOT_SET), NoExchange;
      }
      if breaker != null {
        var allowed := breaker.Allow(allowAt);
        if !allowed {
          return Err(BREAKER_OPEN), Refused;
        }
      }
      if limiterError.Some? {
        return Err("rate limit wait: " + limiterError.value), Limited;
      }
      if breaker != null {
        breaker.Record(reply.Ok?, recordAt, later);
      }
      return reply, Called(reply.Ok?);
    }

    /** What the consumer's loop body does with the session between two items, as far as the
        breaker sees it. */
    method LoopBody(calls: seq<Event>)
      modifies breaker
      ensures breaker != null ==> breaker.View() == From(breaker.config, old(breaker.View()), calls)
    {
      if breaker != null {
        for i := 0 to |calls|
          invariant breaker.View() == From(breaker.config, old(breaker.View()), calls[..i])
        {
          assert calls[..i + 1][..i] == calls[..i];
          match calls[i] {
            case AllowAt(now) => var _ := breaker.Allow(now);
            case RecordAt(success, now, later) => breaker.Record(success, now, later);
            case ResetNow => breaker.Reset();
          }
        }
        assert calls[..|calls|] == calls;
      }
    }

    /** The trade iterator. `items` is what the exchange's iterator would produce, `patience`
        how many items the consumer takes before it declines the next one, and `body(k)` what
        its loop body calls when it has been handed item `k`. */
    method GetTrades<T>(limiterError: Option<string>, items: seq<Result<T>>, patience: nat, body: nat -> seq<Event>,
                        allowAt: int, recordAt: int, later: int)
      returns (delivered: seq<Result<T>>, outcome: Outcome)
      modifies breaker
      ensures exchange.None? ==> outcome == NoExchange
      ensures exchange.None? && breaker != null ==>
                breaker.View() == From(breaker.config, old(breaker.View()), body(0))
      ensures exchange.Some? && breaker == null ==>
                outcome == if limiterError.Some? then Limited
                           else if patience < |items| then StoppedEarly
                           else Called(AllOk(items))
      ensures exchange.Some? && breaker != null ==>
                var ending := if patience < |items| then Abandoned else Finished(AllOk(items));
                var call := Call(allowAt, limiterError.Some?, ending, recordAt, later);
                && outcome == OutcomeOf(breaker.config, old(breaker.View()), call)
                && breaker.View() == AfterIteration(breaker.config, old(breaker.View()), call, body,
                                                    if patience < |items| then patience + 1 else |items|)
      ensures exchange.None? ==> delivered == [Err("exchange not set")]
      ensures exchange.Some? && breaker == null ==>
                delivered == if limiterError.Some? then [Err("rate limit wait: " + limiterError.value)]
                             else if patience < |items| then items[..patience + 1] else items
      ensures exchange.Some? && breaker != null ==>
                var inside := old(breaker.state).Open? && allowAt - old(breaker.lastFailTime) < breaker.config.timeout;
                && delivered == (if inside then [Err("circuit breaker is open")]
                                 else if limiterError.Some? then [Err("rate limit wait: " + limiterError.value)]
                                 else if patience < |items| then items[..patience + 1] else items)
                && outcome == (if inside then Refused else if limiterError.Some? then Limited
                               else if patience < |items| then StoppedEarly
                               else Called(forall k :: 0 <= k < |items| ==> items[k].Ok?))
      ensures exchange.Some? && breaker != null && outcome in {Refused, Limited} ==>
                breaker.View() ==
                From(breaker.config, AfterAllow(breaker.config, old(breaker.View()), allowAt), body(0))
      ensures exchange.Some? && breaker != null && Allowed(breaker.config, old(breaker.View()), allowAt)
              && limiterError.None? ==>
                var asked := AfterAllow(breaker.config, old(breaker.View()), allowAt);
                breaker.View() ==
                if patience < |items| then Interrupted(breaker.config, asked, body, patience + 1)
                else AfterRecord(breaker.config, Interrupted(breaker.config, asked, body, |items|),
                                 forall k :: 0 <= k < |items| ==> items[k].Ok?, recordAt, later)
    {
      if exchange.None? {
        LoopBody(body(0));
        return [Err(NOT_SET)], NoExchange;
      }
      if breaker != null {
        var allowed := breaker.Allow(allowAt);
        if !allowed {
          LoopBody(body(0));
          return [Err(BREAKER_OPEN)], Refused;
        }
      }
      if limiterError.Some? {
        LoopBody(body(0));
        return [Err("rate limit wait: " + limiterError.value)], Limited;
      }
      var hasError := false;
      delivered := [];
      ghost var asked := if breaker != null then breaker.View() else INITIAL;
      for i := 0 to |items|
        invariant i <= patience
        invariant delivered == items[..i]
        invariant hasError <==> !AllOk(items[..i])
        invariant breaker != null ==> breaker.View() == Interrupted(breaker.config, asked, body, i)
      {
        delivered := delivered + [items[i]];
        LoopBody(body(i));
        if i == patience {
          return delivered, StoppedEarly;
        }
        assert items[..i + 1] == items[..i] + [items[i]];
        if items[i].Err? {
          hasError := true;
        }
      }
      assert items[..|items|] == items;
      if breaker != null {
        breaker.Record(!hasError, recordAt, later);
      }
      return delivered, Called(!hasError);
    }
  }

  predicate AllOk<T>(items: seq<Result<T>>) {
    forall k :: 0 <= k < |items| ==> items[k].Ok?
  }

  // ----- every sequence of calls made one after the other

  function AfterCalls(config: Config, calls: seq<Call>): Snapshot {
    if calls == [] then INITIAL
    else AfterCall(config, AfterCalls(config, calls[..|calls| - 1]), calls[|calls| - 1])
  }

  function OutcomeAt(config: Config, calls: seq<Call>, k: nat): Outcome
    requires k < |calls|
  {
    OutcomeOf(config, AfterCalls(config, calls[..k]), calls[k])
  }

  /** How many of the calls had exactly this outcome. */
  function Tally(config: Config, calls: seq<Call>, outcome: Outcome): nat {
    if calls == [] then 0
    else
      var n := |calls| - 1;
      Tally(config, calls[..n], outcome) + if OutcomeAt(config, calls, n) == outcome then 1 else 0
  }

  /** When no other call comes between, a request that was let through never finds the breaker
      open when it reports back. */
  lemma RecordNeverMeetsOpen(config: Config, s: Snapshot, call: Call)
    ensures OutcomeOf(config, s, call) != Refused ==> !AfterAllow(config, s, call.allowAt).state.Open?
  {
  }

  /** The breaker's metrics account for every call: what is neither a success nor a failure
      was refused, rate limited, or abandoned by the consumer. */
  lemma {:induction false} SessionAccounting(config: Config, calls: seq<Call>)
    ensures var s := AfterCalls(config, calls);
            && s.totalRequests == |calls|
            && s.successRequests == Tally(config, calls, Called(true))
            && s.failedRequests == Tally(config, calls, Called(false))
            && s.totalRequests - s.successRequests - s.failedRequests ==
                 Tally(config, calls, Refused) + Tally(config, calls, Limited) + Tally(config, calls, StoppedEarly)
    decreases |calls|
  {
    if calls != [] {
      var n := |calls| - 1;
      SessionAccounting(config, calls[..n]);
      RecordNeverMeetsOpen(config, AfterCalls(config, calls[..n]), calls[n]);
    }
  }

  /** From any state, a call that is let through and gets past the limiter counts as a success
      exactly when the exchange's answer is one, and as a failure exactly when it is not. */
  lemma ResultCountsOnce(config: Config, s: Snapshot, allowAt: int, success: bool, recordAt: int, later: int)
    requires Allowed(config, s, allowAt)
    ensures var t := AfterCall(config, s, Call(allowAt, false, Finished(success), recordAt, later));
            && t == Reported(config, s, allowAt, success, recordAt, later)
            && t.totalRequests == s.totalRequests + 1
            && t.successRequests == s.successRequests + (if success then 1 else 0)
            && t.failedRequests == s.failedRequests + (if success then 0 else 1)
  {
  }

  /** The calls as the breaker sees them. */
  function EventsOf(config: Config, calls: seq<Call>): seq<Event> {
    if calls == [] then []
    else
      var before, call := calls[..|calls| - 1], calls[|calls| - 1];
      var outcome := OutcomeOf(config, AfterCalls(config, before), call);
      EventsOf(config, before) + [AllowAt(call.allowAt)] +
      if outcome.Called? then [RecordAt(outcome.success, call.recordAt, call.later)] else []
  }

  /** A run of session calls is a run of the breaker. */
  lemma {:induction false} CallsAreHistory(config: Config, calls: seq<Call>)
    ensures AfterCalls(config, calls) == After(config, EventsOf(config, calls))
    decreases |calls|
  {
    if calls != [] {
      var before, call := calls[..|calls| - 1], calls[|calls| - 1];
      CallsAreHistory(config, before);
      var asked := EventsOf(config, before) + [AllowAt(call.allowAt)];
      AfterSnoc(config, EventsOf(config, before), AllowAt(call.allowAt));
      var outcome := OutcomeOf(config, AfterCalls(config, before), call);
      if outcome.Called? {
        AfterSnoc(config, asked, RecordAt(outcome.success, call.recordAt, call.later));
      } else {
        assert asked + [] == asked;
      }
    }
  }

  lemma RefusedInside(config: Config, calls: seq<Call>, call: Call)
    requires var s := AfterCalls(config, calls); s.state.Open? && call.allowAt < s.lastFailTime + config.timeout
    ensures OutcomeAt(config, calls + [call], |calls|) == Refused
    ensures var s := AfterCalls(config, calls);
            AfterCalls(config, calls + [call]) == s.(totalRequests := s.totalRequests + 1)
  {
    assert (calls + [call])[..|calls|] == calls;
  }

  lemma OutcomeOfEarlier(config: Config, calls: seq<Call>, call: Call, k: nat)
    requires k < |calls|
    ensures OutcomeAt(config, calls + [call], k) == OutcomeAt(config, calls, k)
  {
    assert (calls + [call])[..k] == calls[..k];
  }

  /** No exchange method runs inside an open window: once the breaker has opened, every
      call made before the timeout has passed is refused. */
  lemma {:induction false} NoCallInsideWindow(config: Config, calls: seq<Call>, inside: seq<Call>)
    requires Reachable(config)
    requires AfterCalls(config, calls).state.Open?
    requires var end := OpenedAt(config, EventsOf(config, calls)) + config.timeout;
             forall k :: 0 <= k < |inside| ==> inside[k].allowAt < end
    ensures forall k :: |calls| <= k < |calls + inside| ==> OutcomeAt(config, calls + inside, k) == Refused
    ensures var s, t := AfterCalls(config, calls), AfterCalls(config, calls + inside);
            t == s.(totalRequests := t.totalRequests)
    decreases |inside|
  {
    CallsAreHistory(config, calls);
    HistoryRefinement(config, EventsOf(config, calls));
    if inside == [] {
      assert calls + inside == calls;
    } else {
      var n := |inside| - 1;
      NoCallInsideWindow(config, calls, inside[..n]);
      var shorter := calls + inside[..n];
      assert calls + inside == shorter + [inside[n]];
      RefusedInside(config, shorter, inside[n]);
      forall k | |calls| <= k < |shorter|
        ensures OutcomeAt(config, calls + inside, k) == Refused
      {
        OutcomeOfEarlier(config, shorter, inside[n], k);
      }
    }
  }

  // ----- calls that overlap, as when the loop body of an iteration makes calls of its own

  /** A call asks the breaker, and later reports its result or gives up without a report:
      because of the limiter, or because the consumer abandoned the iteration. */
  datatype GateEvent = Ask(now: int) | Report(success: bool, now: int, later: int) | GiveUp(limited: bool)

  /** The breaker, and how many calls were refused, gave up, found their report dropped, or
      are still under way. */
  datatype Gate = Gate(s: Snapshot, refused: nat, limited: nat, abandoned: nat, dropped: nat, underWay: int)

  function GateStep(config: Config, g: Gate, e: GateEvent): Gate {
    match e
    case Ask(now) =>
      var asked := g.(s := AfterAllow(config, g.s, now));
      if Allowed(config, g.s, now) then asked.(underWay := g.underWay + 1) else asked.(refused := g.refused + 1)
    case Report(success, now, later) =>
      g.(s := AfterRecord(config, g.s, success, now, later), underWay := g.underWay - 1,
         dropped := g.dropped + if g.s.state.Open? && !Expired(config, g.s, now) then 1 else 0)
    case GiveUp(limited) =>
      g.(underWay := g.underWay - 1, limited := g.limited + (if limited then 1 else 0),
         abandoned := g.abandoned + if limited then 0 else 1)
  }

  function AfterGate(config: Config, events: seq<GateEvent>): Gate {
    if events == [] then Gate(INITIAL, 0, 0, 0, 0, 0)
    else GateStep(config, AfterGate(config, events[..|events| - 1]), events[|events| - 1])
  }

  lemma GateSnoc(config: Config, events: seq<GateEvent>, e: GateEvent)
    ensures AfterGate(config, events + [e]) == GateStep(config, AfterGate(config, events), e)
  {
    assert (events + [e])[..|events|] == events;
  }

  /** However calls overlap, the metrics account for all of them once the dropped reports are
      counted: without these the balance holds exactly when there are none. */
  lemma {:induction false} GateAccounting(config: Config, events: seq<GateEvent>)
    ensures var g := AfterGate(config, events);
            g.s.totalRequests - g.s.successRequests - g.s.failedRequests ==
            g.refused + g.limited + g.abandoned + g.underWay + g.dropped
    decreases |events|
  {
    if events != [] {
      GateAccounting(config, events[..|events| - 1]);
    }
  }

  /** Calls report or give up only while under way, and at most `limit` are under way at once. */
  predicate Overlapping(config: Config, events: seq<GateEvent>, limit: nat) {
    events == [] ||
    var before := events[..|events| - 1];
    && Overlapping(config, before, limit)
    && (events[|events| - 1].Ask? || AfterGate(config, before).underWay > 0)
    && AfterGate(config, events).underWay <= limit
  }

  lemma {:induction false} OneAtATime(config: Config, events: seq<GateEvent>)
    requires Overlapping(config, events, 1)
    ensures var g := AfterGate(config, events);
            g.dropped == 0 && 0 <= g.underWay <= 1 && (g.underWay == 1 ==> !g.s.state.Open?)
    decreases |events|
  {
    if events != [] {
      OneAtATime(config, events[..|events| - 1]);
    }
  }

  /** The end of a call that was let through. */
  function EndOf(outcome: Outcome, call: Call): GateEvent {
    if outcome.Called? then Report(outcome.success, call.recordAt, call.later) else GiveUp(outcome == Limited)
  }

  /** Calls made one after the other, as the gate sees them. */
  function InTurn(config: Config, calls: seq<Call>): seq<GateEvent> {
    if calls == [] then []
    else
      var before, call := calls[..|calls| - 1], calls[|calls| - 1];
      var outcome := OutcomeOf(config, AfterCalls(config, before), call);
      var asked := InTurn(config, before) + [Ask(call.allowAt)];
      if outcome == Refused then asked else asked + [EndOf(outcome, call)]
  }

  lemma CallInTurn(config: Config, events: seq<GateEvent>, s: Snapshot, call: Call)
    requires Overlapping(config, events, 1)
    requires AfterGate(config, events).s == s && AfterGate(config, events).underWay == 0
    ensures var outcome, asked := OutcomeOf(config, s, call), events + [Ask(call.allowAt)];
            var after := if outcome == Refused then asked else asked + [EndOf(outcome, call)];
            && Overlapping(config, after, 1)
            && AfterGate(config, after).s == AfterCall(config, s, call) && AfterGate(config, after).underWay == 0
  {
    var outcome, asked := OutcomeOf(config, s, call), events + [Ask(call.allowAt)];
    GateSnoc(config, events, Ask(call.allowAt));
    OverlappingSnoc(config, events, Ask(call.allowAt), 1);
    if outcome != Refused {
      GateSnoc(config, asked, EndOf(outcome, call));
      OverlappingSnoc(config, asked, EndOf(outcome, call), 1);
    }
  }

  /** Calls made one after the other never overlap, so all of their reports count. */
  lemma {:induction false} CallsInTurn(config: Config, calls: seq<Call>)
    ensures Overlapping(config, InTurn(config, calls), 1)
    ensures var g := AfterGate(config, InTurn(config, calls));
            g.s == AfterCalls(config, calls) && g.underWay == 0 && g.dropped == 0
    decreases |calls|
  {
    if calls != [] {
      var before, call := calls[..|calls| - 1], calls[|calls| - 1];
      CallsInTurn(config, before);
      CallInTurn(config, InTurn(config, before), AfterCalls(config, before), call);
    }
    OneAtATime(config, InTurn(config, calls));
  }

  /** A call under way while `n` further ones fail. */
  function FailingMeanwhile(n: nat): seq<GateEvent> {
    if n == 0 then [Ask(0)] else FailingMeanwhile(n - 1) + [Ask(0)] + [Report(false, 0, 0)]
  }

  lemma OverlappingSnoc(config: Config, events: seq<GateEvent>, e: GateEvent, limit: nat)
    requires Overlapping(config, events, limit)
    requires e.Ask? || AfterGate(config, events).underWay > 0
    requires GateStep(config, AfterGate(config, events), e).underWay <= limit
    ensures Overlapping(config, events + [e], limit)
  {
    GateSnoc(config, events, e);
    assert (events + [e])[..|events|] == events;
  }

  /** The gate while failures are counted: closed, with one call under way. */
  ghost predicate CountedMeanwhile(config: Config, g: Gate, n: nat) {
    && g.underWay == 1 && g.dropped == 0 && g.s.failures == n
    && g.s.state == (if n < config.failThreshold then Closed else Open) && g.s.lastFailTime == 0
  }

  /** One further call that is let through and fails. */
  lemma OneMoreMeanwhile(config: Config, g: Gate, n: nat)
    requires CountedMeanwhile(config, g, n) && n < config.failThreshold <= MAX_INT32
    ensures var asked := GateStep(config, g, Ask(0));
            asked.underWay == 2 && CountedMeanwhile(config, GateStep(config, asked, Report(false, 0, 0)), n + 1)
  {
  }

  lemma CalledMeanwhile(config: Config, events: seq<GateEvent>, n: nat, limit: nat)
    requires n < config.failThreshold <= MAX_INT32 && limit >= 2
    requires Overlapping(config, events, limit) && CountedMeanwhile(config, AfterGate(config, events), n)
    ensures var after := events + [Ask(0)] + [Report(false, 0, 0)];
            Overlapping(config, after, limit) && CountedMeanwhile(config, AfterGate(config, after), n + 1)
  {
    OneMoreMeanwhile(config, AfterGate(config, events), n);
    GateSnoc(config, events, Ask(0));
    OverlappingSnoc(config, events, Ask(0), limit);
    GateSnoc(config, events + [Ask(0)], Report(false, 0, 0));
    OverlappingSnoc(config, events + [Ask(0)], Report(false, 0, 0), limit);
  }

  lemma MeanwhileStarts(config: Config, limit: nat)
    requires 0 < config.failThreshold && limit >= 2
    ensures Overlapping(config, [Ask(0)], limit) && CountedMeanwhile(config, AfterGate(config, [Ask(0)]), 0)
  {
    assert [] + [Ask(0)] == [Ask(0)];
    GateSnoc(config, [], Ask(0));
    OverlappingSnoc(config, [], Ask(0), limit);
  }

  lemma {:induction false} MeanwhileOpens(config: Config, n: nat, limit: nat)
    requires n <= config.failThreshold <= MAX_INT32 && 0 < config.failThreshold && limit >= 2
    ensures Overlapping(config, FailingMeanwhile(n), limit)
    ensures CountedMeanwhile(config, AfterGate(config, FailingMeanwhile(n)), n)
  {
    if n == 0 {
      MeanwhileStarts(config, limit);
    } else {
      var before := FailingMeanwhile(n - 1);
      MeanwhileOpens(config, n - 1, limit);
      CalledMeanwhile(config, before, n - 1, limit);
      assert FailingMeanwhile(n) == before + [Ask(0)] + [Report(false, 0, 0)];
    }
  }

  /** Reports are never dropped exactly as long as at most one call is under way at a time: a
      second one, such as a call made while iterating, can open the breaker under the first. */
  lemma NothingDroppedIffOneAtATime(config: Config, limit: nat)
    requires 0 < config.failThreshold <= MAX_INT32 && config.timeout > 0
    ensures limit <= 1 <==>
              forall events :: Overlapping(config, events, limit) ==> AfterGate(config, events).dropped == 0
  {
    if limit <= 1 {
      forall events | Overlapping(config, events, limit)
        ensures AfterGate(config, events).dropped == 0
      {
        FewerOverlap(config, events, limit, 1);
        OneAtATime(config, events);
      }
    } else {
      var before := FailingMeanwhile(config.failThreshold);
      MeanwhileOpens(config, config.failThreshold, limit);
      GateSnoc(config, before, Report(true, 0, 0));
      OverlappingSnoc(config, before, Report(true, 0, 0), limit);
      assert AfterGate(config, before + [Report(true, 0, 0)]).dropped == 1;
    }
  }

  lemma {:induction false} FewerOverlap(config: Config, events: seq<GateEvent>, limit: nat, more: nat)
    requires Overlapping(config, events, limit) && limit <= more
    ensures Overlapping(config, events, more)
    decreases |events|
  {
    if events != [] {
      FewerOverlap(config, events[..|events| - 1], limit, more);
    }
  }
}
