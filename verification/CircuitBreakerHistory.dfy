/** What every sequential run of a breaker obeys, stated on the history of calls alone. */
module CircuitBreakerHistory {
  import opened CircuitBreaker

  datatype Event = AllowAt(now: int) | RecordAt(success: bool, now: int, later: int) | ResetNow

  function Step(config: Config, s: Snapshot, e: Event): Snapshot {
    match e
    case AllowAt(now) => AfterAllow(config, s, now)
    case RecordAt(success, now, later) => AfterRecord(config, s, success, now, later)
    case ResetNow => AfterReset(s)
  }

  /** The breaker after a history of calls on a new breaker. */
  function After(config: Config, history: seq<Event>): Snapshot {
    if history == [] then INITIAL
    else Step(config, After(config, history[..|history| - 1]), history[|history| - 1])
  }

  lemma AfterSnoc(config: Config, history: seq<Event>, e: Event)
    ensures After(config, history + [e]) == Step(config, After(config, history), e)
  {
    assert (history + [e])[..|history|] == history;
  }

  /** Failures since the last success, entry to Closed, or Reset. */
  function TrailingFailures(config: Config, history: seq<Event>): nat {
    if history == [] then 0
    else
      var before, e := history[..|history| - 1], history[|history| - 1];
      if !After(config, before).state.Closed? then 0
      else match e
           case AllowAt(_) => TrailingFailures(config, before)
           case RecordAt(success, _, _) => if success then 0 else TrailingFailures(config, before) + 1
           case ResetNow => 0
  }

  /** Successes since HalfOpen was entered; the result that enters it counts. */
  function SuccessesSinceEntry(config: Config, history: seq<Event>): nat {
    if history == [] then 0
    else
      var before, e := history[..|history| - 1], history[|history| - 1];
      var earlier := if After(config, before).state.HalfOpen? then SuccessesSinceEntry(config, before) else 0;
      if e.RecordAt? && e.success then earlier + 1 else earlier
  }

  /** The clock reading at which the breaker last opened. */
  function OpenedAt(config: Config, history: seq<Event>): int {
    if history == [] then 0
    else
      var before, e := history[..|history| - 1], history[|history| - 1];
      var s := After(config, before);
      if !e.RecordAt? || e.success then OpenedAt(config, before)
      else if s.state.Open? then
        if e.now >= OpenedAt(config, before) + config.timeout then e.later else OpenedAt(config, before)
      else if After(config, history).state.Open? then e.now
      else OpenedAt(config, before)
  }

  /** Positive thresholds, as validation demands, that the 32-bit counters can reach. */
  predicate Reachable(config: Config) {
    0 < config.failThreshold <= MAX_INT32 && 0 < config.successThreshold <= MAX_INT32
  }

  /** How the fields follow from the history. */
  ghost predicate Refines(config: Config, history: seq<Event>) {
    var s := After(config, history);
    && (s.state.Closed? ==> s.failures == TrailingFailures(config, history) < config.failThreshold)
    && (s.state.HalfOpen? ==> SuccessesSinceEntry(config, history) < config.successThreshold)
    && (config.successThreshold > 1 ==>
          s.successes == if s.state.HalfOpen? then SuccessesSinceEntry(config, history) else 0)
    && (config.successThreshold == 1 ==> 0 <= s.successes <= 1)
    && s.lastFailTime == OpenedAt(config, history)
  }

  lemma {:induction false} HistoryRefinement(config: Config, history: seq<Event>)
    requires Reachable(config)
    ensures Refines(config, history)
    decreases |history|
  {
    if history != [] {
      HistoryRefinement(config, history[..|history| - 1]);
    }
  }

  // ----- the metrics

  function Requests(history: seq<Event>): nat {
    if history == [] then 0
    else Requests(history[..|history| - 1]) + if history[|history| - 1].AllowAt? then 1 else 0
  }

  /** A result that arrives inside an open window is dropped. */
  predicate Counts(config: Config, before: seq<Event>, e: Event) {
    e.RecordAt? && (After(config, before).state.Open? ==> e.now >= OpenedAt(config, before) + config.timeout)
  }

  /** How many results of this kind were not dropped. */
  function Results(config: Config, history: seq<Event>, success: bool): nat {
    if history == [] then 0
    else
      var before, e := history[..|history| - 1], history[|history| - 1];
      Results(config, before, success) + if Counts(config, before, e) && e.success == success then 1 else 0
  }

  /** How many state changes one call makes: a result that counts while the breaker is open
      half-opens it first.  A Reset is not counted. */
  function ChangesBy(config: Config, before: seq<Event>, e: Event): nat {
    var s, t := After(config, before).state, After(config, before + [e]).state;
    if e.ResetNow? then 0
    else if s.Open? && Counts(config, before, e) then if t.HalfOpen? then 1 else 2
    else if s != t then 1 else 0
  }

  function Changes(config: Config, history: seq<Event>): nat {
    if history == [] then 0
    else Changes(config, history[..|history| - 1]) + ChangesBy(config, history[..|history| - 1], history[|history| - 1])
  }

  lemma {:induction false} LastFailIsOpening(config: Config, history: seq<Event>)
    ensures After(config, history).lastFailTime == OpenedAt(config, history)
    decreases |history|
  {
    if history != [] {
      LastFailIsOpening(config, history[..|history| - 1]);
    }
  }

  /** In every run the metrics count the requests, the results that were not dropped, by kind,
      and the state changes. */
  lemma {:induction false} MetricsFollow(config: Config, history: seq<Event>)
    ensures var s := After(config, history);
            && s.totalRequests == Requests(history)
            && s.successRequests == Results(config, history, true)
            && s.failedRequests == Results(config, history, false)
    decreases |history|
  {
    if history != [] {
      MetricsFollow(config, history[..|history| - 1]);
      LastFailIsOpening(config, history[..|history| - 1]);
    }
  }

  lemma {:induction false} ChangesFollow(config: Config, history: seq<Event>)
    ensures After(config, history).stateChanges == Changes(config, history)
    decreases |history|
  {
    if history != [] {
      var before, e := history[..|history| - 1], history[|history| - 1];
      ChangesFollow(config, before);
      LastFailIsOpening(config, before);
      assert before + [e] == history;
    }
  }

  /** Closed is left exactly by the failure that makes the run of failures long enough. */
  lemma ClosedExit(config: Config, history: seq<Event>, e: Event)
    requires Reachable(config)
    requires After(config, history).state.Closed?
    ensures !After(config, history + [e]).state.HalfOpen?
    ensures After(config, history + [e]).state.Open? <==>
              e.RecordAt? && !e.success && TrailingFailures(config, history) + 1 == config.failThreshold
  {
    HistoryRefinement(config, history);
    AfterSnoc(config, history, e);
  }

  /** HalfOpen is left exactly by a failure, a Reset, or the success that completes the
      required number since it was entered. */
  lemma HalfOpenExit(config: Config, history: seq<Event>, e: Event)
    requires Reachable(config)
    requires After(config, history).state.HalfOpen?
    ensures After(config, history + [e]).state.Closed? <==>
              || e.ResetNow?
              || (e.RecordAt? && e.success && SuccessesSinceEntry(config, history) + 1 == config.successThreshold)
    ensures After(config, history + [e]).state.Open? <==> e.RecordAt? && !e.success
  {
    HistoryRefinement(config, history);
    AfterSnoc(config, history, e);
  }

  /** Open is left exactly by a Reset or by the first call at or after the end of the
      window, which Allow then lets through. */
  lemma OpenExit(config: Config, history: seq<Event>, e: Event)
    requires Reachable(config)
    requires After(config, history).state.Open?
    ensures var since, s := OpenedAt(config, history), After(config, history + [e]);
            && (e.AllowAt? ==> (Allowed(config, After(config, history), e.now) <==> e.now >= since + config.timeout))
            && (s.state.HalfOpen? <==>
                  || (e.AllowAt? && e.now >= since + config.timeout)
                  || (e.RecordAt? && e.success && e.now >= since + config.timeout && config.successThreshold > 1))
            && (s.state.Closed? <==>
                  || e.ResetNow?
                  || (e.RecordAt? && e.success && e.now >= since + config.timeout && config.successThreshold == 1))
  {
    HistoryRefinement(config, history);
    AfterSnoc(config, history, e);
  }

  predicate InsideWindow(e: Event, end: int) {
    !e.ResetNow? && e.now < end
  }

  /** From the moment the breaker opens until the timeout has passed, only Reset has any
      effect: every Allow refuses, results are dropped, and the breaker stays open. */
  lemma {:induction false} QuietWindow(config: Config, history: seq<Event>, inside: seq<Event>)
    requires Reachable(config)
    requires After(config, history).state.Open?
    requires forall k :: 0 <= k < |inside| ==> InsideWindow(inside[k], OpenedAt(config, history) + config.timeout)
    ensures forall k :: 0 <= k < |inside| && inside[k].AllowAt? ==>
              !Allowed(config, After(config, history + inside[..k]), inside[k].now)
    ensures var s, t := After(config, history), After(config, history + inside);
            t == s.(totalRequests := t.totalRequests)
    decreases |inside|
  {
    HistoryRefinement(config, history);
    if inside == [] {
      assert history + inside == history;
    } else {
      var n := |inside| - 1;
      QuietWindow(config, history, inside[..n]);
      AfterSnoc(config, history + inside[..n], inside[n]);
      assert history + inside == history + inside[..n] + [inside[n]];
      forall k | 0 <= k < |inside| && inside[k].AllowAt?
        ensures !Allowed(config, After(config, history + inside[..k]), inside[k].now)
      {
        if k < n {
          assert inside[..n][..k] == inside[..k] && inside[..n][k] == inside[k];
        }
      }
    }
  }

  // ----- thresholds beyond the counters

  lemma {:induction false} StaysClosed(config: Config, history: seq<Event>)
    requires config.failThreshold > MAX_INT32
    ensures After(config, history).state.Closed?
    ensures -MAX_INT32 - 1 <= After(config, history).failures <= MAX_INT32
    decreases |history|
  {
    if history != [] {
      StaysClosed(config, history[..|history| - 1]);
    }
  }

  function Failing(n: nat): seq<Event> {
    seq(n, _ => RecordAt(false, 0, 0))
  }

  lemma {:induction false} FailuresAddUp(config: Config, n: nat)
    requires 0 < config.failThreshold <= MAX_INT32 && n < config.failThreshold
    ensures var s := After(config, Failing(n)); s.state.Closed? && s.failures == n && s.successes == 0
    decreases n
  {
    if n > 0 {
      FailuresAddUp(config, n - 1);
      assert Failing(n)[..n - 1] == Failing(n - 1);
    }
  }

  /** Validation only asks for a positive threshold, but the breaker can ever open exactly
      when the threshold fits the 32-bit failure counter. */
  lemma OpensIffThresholdFits(config: Config)
    requires config.failThreshold > 0
    ensures (exists history :: After(config, history).state.Open?) <==> config.failThreshold <= MAX_INT32
  {
    if config.failThreshold <= MAX_INT32 {
      var n: nat := config.failThreshold - 1;
      FailuresAddUp(config, n);
      AfterSnoc(config, Failing(n), RecordAt(false, 0, 0));
      assert After(config, Failing(n) + [RecordAt(false, 0, 0)]).state.Open?;
    } else {
      forall history
        ensures !After(config, history).state.Open?
      {
        StaysClosed(config, history);
      }
    }
  }

  lemma {:induction false} SuccessesFit(config: Config, history: seq<Event>)
    ensures -MAX_INT32 - 1 <= After(config, history).successes <= MAX_INT32
    decreases |history|
  {
    if history != [] {
      SuccessesFit(config, history[..|history| - 1]);
    }
  }

  /** A shortest history that opens the breaker and lets one request through. */
  function Probing(config: Config): seq<Event>
    requires config.failThreshold > 0
  {
    Failing(config.failThreshold - 1) + [RecordAt(false, 0, 0)] + [AllowAt(config.timeout)]
  }

  lemma ProbingIsHalfOpen(config: Config)
    requires 0 < config.failThreshold <= MAX_INT32
    ensures var s := After(config, Probing(config)); s.state.HalfOpen? && s.successes == 0
  {
    var n: nat := config.failThreshold - 1;
    FailuresAddUp(config, n);
    AfterSnoc(config, Failing(n), RecordAt(false, 0, 0));
    AfterSnoc(config, Failing(n) + [RecordAt(false, 0, 0)], AllowAt(config.timeout));
  }

  /** Probing, and then `n` successes. */
  function Recovering(config: Config, n: nat): seq<Event>
    requires config.failThreshold > 0
  {
    if n == 0 then Probing(config) else Recovering(config, n - 1) + [RecordAt(true, config.timeout, config.timeout)]
  }

  lemma {:induction false} SuccessesAddUp(config: Config, n: nat)
    requires 0 < config.failThreshold <= MAX_INT32 && n < config.successThreshold <= MAX_INT32
    ensures var s := After(config, Recovering(config, n)); s.state.HalfOpen? && s.successes == n
  {
    if n == 0 {
      ProbingIsHalfOpen(config);
    } else {
      SuccessesAddUp(config, n - 1);
      AfterSnoc(config, Recovering(config, n - 1), RecordAt(true, config.timeout, config.timeout));
    }
  }

  /** This call closes the breaker, and is not a Reset. */
  predicate ClosesBy(config: Config, history: seq<Event>, e: Event) {
    !e.ResetNow? && !After(config, history).state.Closed? && After(config, history + [e]).state.Closed?
  }

  /** Of the breakers that can open, exactly those whose success threshold fits the 32-bit
      success counter can ever close again without a Reset. */
  lemma ClosesIffThresholdFits(config: Config)
    requires 0 < config.failThreshold <= MAX_INT32 && 0 < config.successThreshold
    ensures (exists history, e :: ClosesBy(config, history, e)) <==> config.successThreshold <= MAX_INT32
  {
    if config.successThreshold <= MAX_INT32 {
      var n: nat := config.successThreshold - 1;
      SuccessesAddUp(config, n);
      AfterSnoc(config, Recovering(config, n), RecordAt(true, config.timeout, config.timeout));
      assert ClosesBy(config, Recovering(config, n), RecordAt(true, config.timeout, config.timeout));
    } else {
      forall history, e
        ensures !ClosesBy(config, history, e)
      {
        SuccessesFit(config, history);
        AfterSnoc(config, history, e);
      }
    }
  }

  // ----- the success counter outside HalfOpen

  /** A history that opens the breaker and then closes it with a late success. */
  function LateClose(config: Config): seq<Event>
    requires config.failThreshold > 0
  {
    Failing(config.failThreshold - 1) + [RecordAt(false, 0, 0), RecordAt(true, config.timeout, config.timeout)]
  }

  /** The success counter is 0 outside HalfOpen in every run exactly when more than one
      success is needed: with a threshold of one, a late success closes the breaker and
      leaves its count behind. */
  lemma SuccessesClearedIffThresholdAboveOne(config: Config)
    requires Reachable(config)
    ensures (forall history :: !After(config, history).state.HalfOpen? ==> After(config, history).successes == 0) <==>
            config.successThreshold > 1
  {
    if config.successThreshold > 1 {
      forall history | !After(config, history).state.HalfOpen?
        ensures After(config, history).successes == 0
      {
        HistoryRefinement(config, history);
      }
    } else {
      var n: nat := config.failThreshold - 1;
      var open := Failing(n) + [RecordAt(false, 0, 0)];
      FailuresAddUp(config, n);
      AfterSnoc(config, Failing(n), RecordAt(false, 0, 0));
      AfterSnoc(config, open, RecordAt(true, config.timeout, config.timeout));
      assert LateClose(config) == open + [RecordAt(true, config.timeout, config.timeout)];
      assert After(config, LateClose(config)).state.Closed? && After(config, LateClose(config)).successes == 1;
    }
  }
}
