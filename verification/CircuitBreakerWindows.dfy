/** When an open window holds against every interleaving, and when a store that comes late
    ends it for all callers. */
module CircuitBreakerWindows {
  import opened CircuitBreaker
  import opened CircuitBreakerThreads
  import opened Folds

  /** A thread in this state cannot take the breaker out of Open before `since` plus the
      timeout: it holds no store of HalfOpen or Closed, is not on the way to one, and holds
      no time from before `since`. */
  predicate Harmless(pc: Pc, since: int) {
    match pc
    case AllowReadClock(_, last) => since <= last
    case LateReadClock(_, last) => since <= last
    case OpenStoreTime(reading, _) => since <= reading
    case LateClearFailures(success) => !success
    case LateClearSuccesses(success) => !success
    case AllowStoreHalf(_, _) => false
    case LateStoreHalf(_) => false
    case HalfAddSuccess => false
    case HalfCheckSuccesses => false
    case HalfStoreClosed => false
    case LateAddSuccess => false
    case LateCheckSuccesses => false
    case LateStoreClosed => false
    case ResetStoreClosed => false
    case _ => true
  }

  /** The breaker is open since `since` or later, and no thread is about to change that. */
  ghost predicate Held(w: World, since: int) {
    && w.state.Open? && since <= w.lastFailTime && since <= w.clock
    && forall t :: t in w.threads ==> Harmless(w.threads[t], since)
  }

  predicate LetThrough(w: World, t: nat) {
    PcOf(w, t).AllowDone? && PcOf(w, t).allowed
  }

  predicate IsReset(a: Action) {
    a.Begin? && a.operation.Reset?
  }

  /** The shared words of a breaker that is open since `since` or later, before the window ends. */
  predicate OpenInside(config: Config, w: World, since: int) {
    w.state.Open? && since <= w.lastFailTime && since <= w.clock < since + config.timeout
  }

  lemma AdvanceStaysOpen(config: Config, w: World, t: nat, pc: Pc, since: int)
    requires OpenInside(config, w, since) && Harmless(pc, since)
    ensures OpenInside(config, Advance(config, w, t, pc), since)
  {
  }

  /** The thread that took the step is harmless still, and has not been let through. */
  lemma AdvanceStaysHarmless(config: Config, w: World, t: nat, pc: Pc, since: int)
    requires OpenInside(config, w, since) && Harmless(pc, since)
    ensures var w' := Advance(config, w, t, pc);
            || w' == w
            || (&& t in w'.threads && w'.threads == w.threads[t := w'.threads[t]]
                && Harmless(w'.threads[t], since) && !LetThrough(w', t))
  {
  }

  /** Before the window ends, every step but the beginning of a Reset keeps the breaker open,
      and whoever has been let through was let through before. */
  lemma StepKeepsHeld(config: Config, w: World, a: Action, since: int)
    requires Held(w, since) && !IsReset(a)
    requires Next(config, w, a).clock < since + config.timeout
    ensures Held(Next(config, w, a), since)
    ensures forall t :: LetThrough(Next(config, w, a), t) ==> PcOf(Next(config, w, a), t) == PcOf(w, t)
  {
    if a.Go? {
      GoKeepsClock(config, w, a.thread);
      AdvanceStaysOpen(config, w, a.thread, PcOf(w, a.thread), since);
      AdvanceStaysHarmless(config, w, a.thread, PcOf(w, a.thread), since);
    }
  }

  lemma GoKeepsClock(config: Config, w: World, t: nat)
    ensures Advance(config, w, t, PcOf(w, t)).clock == w.clock
  {
  }

  /** The run goes on without a new Reset. */
  predicate GoesOn(earlier: Trace, trace: Trace) {
    trace == earlier || (trace.Then? && GoesOn(earlier, trace.earlier) && !IsReset(trace.action))
  }

  /** Once an open window is held, however the threads interleave, no Allow is let through
      until the window is over, and the breaker stays open. */
  lemma {:induction false} WindowHolds(config: Config, earlier: Trace, trace: Trace, since: int)
    requires GoesOn(earlier, trace) && Held(Run(config, earlier), since)
    requires Run(config, trace).clock < since + config.timeout
    ensures Held(Run(config, trace), since)
    ensures forall t :: LetThrough(Run(config, trace), t) ==>
              PcOf(Run(config, trace), t) == PcOf(Run(config, earlier), t)
    decreases trace
  {
    if trace != earlier {
      WindowHolds(config, earlier, trace.earlier, since);
      StepKeepsHeld(config, Run(config, trace.earlier), trace.action, since);
    }
  }

  // ----- windows in whole runs

  /** The clock reading of the opener that stored Open last, if any. */
  function LastOpening(config: Config, trace: Trace): Option<int> {
    match trace
    case Start => None
    case Then(earlier, a) => OpeningAfter(Run(config, earlier), a, LastOpening(config, earlier))
  }

  function OpeningAfter(w: World, a: Action, before: Option<int>): Option<int> {
    if a.Go? && PcOf(w, a.thread).OpenStoreState? then Some(PcOf(w, a.thread).reading) else before
  }

  predicate Begins(w: World, a: Action, t: nat) {
    a.Begin? && a.thread == t && !Busy(PcOf(w, t))
  }

  /** The last opening when thread `t` began its latest call. */
  function OpeningAtStart(config: Config, trace: Trace, t: nat): Option<int> {
    match trace
    case Start => None
    case Then(earlier, a) =>
      if Begins(Run(config, earlier), a, t) then LastOpening(config, earlier)
      else OpeningAtStart(config, earlier, t)
  }

  /** An Allow that began when the breaker had opened is not let through before that
      opening's window is over. */
  predicate RespectsWindow(config: Config, trace: Trace, t: nat) {
    var w, atStart := Run(config, trace), OpeningAtStart(config, trace, t);
    LetThrough(w, t) && atStart.Some? ==> atStart.value + config.timeout <= PcOf(w, t).at
  }

  predicate Busy(pc: Pc) {
    !pc.Idle? && !pc.AllowDone?
  }

  /** The threads in the middle of a call. */
  function InProgress(w: World): set<nat> {
    set t | t in w.threads && Busy(w.threads[t])
  }

  /** At no time are more than `limit` calls in progress, and none of them is a Reset. */
  predicate AtMost(config: Config, trace: Trace, limit: nat) {
    match trace
    case Start => true
    case Then(earlier, a) =>
      AtMost(config, earlier, limit) && !IsReset(a) && |InProgress(Run(config, trace))| <= limit
  }

  // ----- one call at a time

  predicate NotBefore(x: int, opening: Option<int>) {
    opening.Some? ==> opening.value <= x
  }

  /** What is known of a thread when calls do not overlap, given the last opening and the one
      at the start of the thread's latest call. */
  predicate Fits(config: Config, w: World, pc: Pc, opening: Option<int>, atStart: Option<int>) {
    && (atStart.Some? ==> opening.Some? && atStart.value <= opening.value)
    && match pc
       case OpenStoreTime(reading, _) => reading <= w.clock && NotBefore(reading, opening)
       case OpenStoreState(reading, _) => reading == w.lastFailTime <= w.clock && NotBefore(reading, opening)
       case AllowReadClock(_, last) => NotBefore(last, opening)
       case AllowStoreHalf(_, at) => atStart.Some? ==> atStart.value + config.timeout <= at
       case AllowDone(allowed, _, at) => allowed && atStart.Some? ==> atStart.value + config.timeout <= at
       case _ => true
  }

  /** The last window is over or held. */
  ghost predicate OverOrHeld(config: Config, w: World, opening: Option<int>) {
    opening.Some? ==>
      && opening.value <= w.clock && opening.value <= w.lastFailTime
      && (opening.value + config.timeout <= w.clock || Held(w, opening.value))
  }

  ghost predicate Orderly(config: Config, trace: Trace) {
    && OverOrHeld(config, Run(config, trace), LastOpening(config, trace))
    && forall t: nat :: Fits(config, Run(config, trace), PcOf(Run(config, trace), t), LastOpening(config, trace),
                             OpeningAtStart(config, trace, t))
  }

  /** No other thread than `t` is in the middle of a call. */
  ghost predicate Alone(w: World, t: nat) {
    forall u :: u in w.threads && Busy(w.threads[u]) ==> u == t
  }

  lemma AtMostOne<T>(s: set<T>, x: T, y: T)
    requires |s| <= 1 && x in s && y in s
    ensures x == y
  {
    assert |s - {x}| == 0;
  }

  lemma OneIsAlone(w: World, t: nat)
    requires |InProgress(w)| <= 1 && Busy(PcOf(w, t))
    ensures Alone(w, t)
  {
    forall u | u in w.threads && Busy(w.threads[u])
      ensures u == t
    {
      AtMostOne(InProgress(w), u, t);
    }
  }

  /** A lone opener that stores Open leaves a held window. */
  lemma OpeningIsHeld(config: Config, w: World, t: nat)
    requires PcOf(w, t).OpenStoreState? && PcOf(w, t).reading == w.lastFailTime <= w.clock
    requires Alone(w, t)
    ensures Held(Advance(config, w, t, PcOf(w, t)), PcOf(w, t).reading)
  {
  }

  /** A step of a lone thread keeps the window over or held. */
  lemma GoKeepsWindow(config: Config, w: World, t: nat, opening: Option<int>, atStart: Option<int>)
    requires Alone(w, t)
    requires OverOrHeld(config, w, opening) && Fits(config, w, PcOf(w, t), opening, atStart)
    ensures OverOrHeld(config, Advance(config, w, t, PcOf(w, t)), OpeningAfter(w, Go(t), opening))
  {
    if PcOf(w, t).OpenStoreState? {
      OpeningIsHeld(config, w, t);
    } else if opening.Some? && w.clock < opening.value + config.timeout {
      StepKeepsHeld(config, w, Go(t), opening.value);
    }
  }

  lemma GoFits(config: Config, w: World, t: nat, opening: Option<int>, atStart: Option<int>)
    requires OverOrHeld(config, w, opening) && Fits(config, w, PcOf(w, t), opening, atStart)
    ensures var w' := Advance(config, w, t, PcOf(w, t));
            Fits(config, w', PcOf(w', t), OpeningAfter(w, Go(t), opening), atStart)
  {
  }

  /** A thread that is not in the middle of a call is not affected by others. */
  lemma RestingFits(config: Config, w: World, w': World, pc: Pc, opening: Option<int>, opening': Option<int>,
                    atStart: Option<int>)
    requires !Busy(pc) && Fits(config, w, pc, opening, atStart)
    requires opening.Some? ==> opening'.Some? && opening.value <= opening'.value
    ensures Fits(config, w', pc, opening', atStart)
  {
  }

  lemma OthersFit(config: Config, w: World, t: nat, u: nat, opening: Option<int>, atStart: Option<int>)
    requires Alone(w, t) && u != t
    requires NotBeforeOpening(w, t, opening) && Fits(config, w, PcOf(w, u), opening, atStart)
    ensures var w' := Advance(config, w, t, PcOf(w, t));
            Fits(config, w', PcOf(w', u), OpeningAfter(w, Go(t), opening), atStart)
  {
    var w' := Advance(config, w, t, PcOf(w, t));
    AdvanceKeepsOthers(config, w, t, PcOf(w, t), u);
    RestingFits(config, w, w', PcOf(w, u), opening, OpeningAfter(w, Go(t), opening), atStart);
  }

  predicate NotBeforeOpening(w: World, t: nat, opening: Option<int>) {
    PcOf(w, t).OpenStoreState? ==> NotBefore(PcOf(w, t).reading, opening)
  }

  lemma AdvanceKeepsOthers(config: Config, w: World, t: nat, pc: Pc, u: nat)
    requires u != t
    ensures PcOf(Advance(config, w, t, pc), u) == PcOf(w, u)
  {
  }

  lemma GoKeepsOrderly(config: Config, trace: Trace, t: nat)
    requires Orderly(config, trace) && |InProgress(Run(config, trace))| <= 1
    ensures Orderly(config, Then(trace, Go(t)))
  {
    var w, opening := Run(config, trace), LastOpening(config, trace);
    assert Fits(config, w, PcOf(w, t), opening, OpeningAtStart(config, trace, t));
    if Busy(PcOf(w, t)) {
      OneIsAlone(w, t);
      GoKeepsWindow(config, w, t, opening, OpeningAtStart(config, trace, t));
      forall u: nat
        ensures var w' := Advance(config, w, t, PcOf(w, t));
                Fits(config, w', PcOf(w', u), OpeningAfter(w, Go(t), opening), OpeningAtStart(config, trace, u))
      {
        if u == t {
          GoFits(config, w, t, opening, OpeningAtStart(config, trace, t));
        } else {
          OthersFit(config, w, t, u, opening, OpeningAtStart(config, trace, u));
        }
      }
    }
    GoIsOrderly(config, trace, t);
  }

  /** What has to hold after a step of thread `t` for the run to stay orderly. */
  lemma GoIsOrderly(config: Config, trace: Trace, t: nat)
    requires var w := Run(config, trace);
             var w', opening := Advance(config, w, t, PcOf(w, t)), OpeningAfter(w, Go(t), LastOpening(config, trace));
             && OverOrHeld(config, w', opening)
             && forall u: nat :: Fits(config, w', PcOf(w', u), opening, OpeningAtStart(config, trace, u))
    ensures Orderly(config, Then(trace, Go(t)))
  {
    var longer := Then(trace, Go(t));
    assert forall u: nat :: OpeningAtStart(config, longer, u) == OpeningAtStart(config, trace, u);
  }

  lemma TickKeepsOrderly(config: Config, trace: Trace, to: int)
    requires Orderly(config, trace)
    ensures Orderly(config, Then(trace, Tick(to)))
  {
    var w, opening := Run(config, trace), LastOpening(config, trace);
    var w' := Next(config, w, Tick(to));
    forall t: nat
      ensures Fits(config, w', PcOf(w', t), opening, OpeningAtStart(config, trace, t))
    {
      assert Fits(config, w, PcOf(w, t), opening, OpeningAtStart(config, trace, t));
    }
  }

  lemma BeginKeepsOrderly(config: Config, trace: Trace, t: nat, operation: Operation)
    requires Orderly(config, trace) && !operation.Reset?
    ensures Orderly(config, Then(trace, Begin(t, operation)))
  {
    var w, opening := Run(config, trace), LastOpening(config, trace);
    var a := Begin(t, operation);
    var w' := Next(config, w, a);
    if opening.Some? && w.clock < opening.value + config.timeout {
      StepKeepsHeld(config, w, a, opening.value);
    }
    forall u: nat
      ensures Fits(config, w', PcOf(w', u), opening, OpeningAtStart(config, Then(trace, a), u))
    {
      assert Fits(config, w, PcOf(w, u), opening, OpeningAtStart(config, trace, u));
    }
  }

  lemma {:induction false} OneAtATimeIsOrderly(config: Config, trace: Trace)
    requires AtMost(config, trace, 1)
    ensures Orderly(config, trace)
  {
    match trace
    case Start =>
    case Then(earlier, a) =>
      OneAtATimeIsOrderly(config, earlier);
      assert |InProgress(Run(config, earlier))| <= 1;
      match a {
        case Tick(to) => TickKeepsOrderly(config, earlier, to);
        case Begin(t, operation) => BeginKeepsOrderly(config, earlier, t, operation);
        case Go(t) => GoKeepsOrderly(config, earlier, t);
      }
  }

  // ----- a store that comes late

  lemma AtMostTwo(s: set<nat>)
    requires s <= {0, 1}
    ensures |s| <= 2
  {
    assert {0, 1} == s + ({0, 1} - s);
  }

  lemma KeysStayTwo(config: Config, w: World, a: Action)
    requires w.threads.Keys <= {0, 1} && ByTwoCallers(a)
    ensures Next(config, w, a).threads.Keys <= {0, 1}
  {
  }

  lemma {:induction false} TwoInProgress(config: Config, trace: Trace)
    requires TwoCallers(trace)
    ensures Run(config, trace).threads.Keys <= {0, 1}
    ensures AtMost(config, trace, 2)
  {
    match trace
    case Start =>
    case Then(earlier, a) =>
      TwoInProgress(config, earlier);
      KeysStayTwo(config, Run(config, earlier), a);
      AtMostTwo(InProgress(Run(config, trace)));
  }

  /** An open breaker at time `clock`, opened at `since`. */
  function OpenSince(config: Config, since: int, clock: int, first: Pc, second: Pc): World {
    World(Open, since, config.failThreshold, 0, since, false, clock, map[0 := first, 1 := second])
  }

  /** A run of two callers in which every store of a clock reading follows its reading at once. */
  ghost predicate Leads(config: Config, trace: Trace, w: World) {
    TwoCallers(trace) && PromptRun(config, trace, 0) && Run(config, trace) == w
  }

  lemma ReachesThreshold(config: Config) returns (trace: Trace, w: World)
    requires CanOpen(config)
    ensures Leads(config, trace, w)
    ensures w == START.(failures := config.failThreshold, threads := map[0 := ClosedCheckFailures])
  {
    trace := CountUpTo(config, config.failThreshold - 1, 0);
    trace, w := OneMore(config, trace, config.failThreshold - 1, 0);
  }

  lemma OpensAtZero(config: Config) returns (trace: Trace, w: World)
    requires CanOpen(config)
    ensures Leads(config, trace, w)
    ensures w == World(Open, 0, config.failThreshold, 0, 0, false, 0, map[0 := Idle])
  {
    trace, w := ReachesThreshold(config);
    trace, w := Extend(config, trace, w, Go(0), 0);
    trace, w := Extend(config, trace, w, Go(0), 0);
    trace, w := Extend(config, trace, w, Go(0), 0);
    trace, w := Extend(config, trace, w, Go(0), 0);
  }

  /** When the window is over, thread 1 is about to store HalfOpen. */
  lemma StoreIsPending(config: Config) returns (trace: Trace, w: World)
    requires CanOpen(config) && config.timeout >= 0
    ensures Leads(config, trace, w)
    ensures w == OpenSince(config, 0, config.timeout, Idle, AllowStoreHalf(0, config.timeout))
  {
    trace, w := OpensAtZero(config);
    trace, w := Extend(config, trace, w, Tick(config.timeout), 0);
    trace, w := Extend(config, trace, w, Begin(1, Allow), 0);
    trace, w := Extend(config, trace, w, Go(1), 0);
    trace, w := Extend(config, trace, w, Go(1), 0);
    trace, w := Extend(config, trace, w, Go(1), 0);
  }

  /** Meanwhile a request of thread 0 is let through, */
  lemma ProbeLetThrough(config: Config) returns (trace: Trace, w: World)
    requires CanOpen(config) && config.timeout >= 0
    ensures Leads(config, trace, w)
    ensures w == OpenSince(config, 0, config.timeout, AllowDone(true, Some(0), config.timeout),
                           AllowStoreHalf(0, config.timeout)).(state := HalfOpen)
  {
    trace, w := StoreIsPending(config);
    trace, w := Extend(config, trace, w, Begin(0, Allow), 0);
    trace, w := Extend(config, trace, w, Go(0), 0);
    trace, w := Extend(config, trace, w, Go(0), 0);
    trace, w := Extend(config, trace, w, Go(0), 0);
    trace, w := Extend(config, trace, w, Go(0), 0);
  }

  /** fails, and is about to open the breaker again. */
  lemma ProbeFails(config: Config) returns (trace: Trace, w: World)
    requires CanOpen(config) && config.timeout >= 0
    ensures Leads(config, trace, w)
    ensures w == OpenSince(config, 0, config.timeout, OpenStoreState(config.timeout, ClearSuccesses),
                           AllowStoreHalf(0, config.timeout)).(state := HalfOpen, lastFailTime := config.timeout)
  {
    trace, w := ProbeLetThrough(config);
    trace, w := Extend(config, trace, w, Begin(0, Record(false)), 0);
    trace, w := Extend(config, trace, w, Go(0), 0);
    trace, w := Extend(config, trace, w, Go(0), 0);
    trace, w := Extend(config, trace, w, Go(0), 0);
  }

  lemma OpensAgain(config: Config) returns (trace: Trace, w: World)
    requires CanOpen(config) && config.timeout >= 0
    ensures Leads(config, trace, w) && LastOpening(config, trace) == Some(config.timeout)
    ensures w == OpenSince(config, config.timeout, config.timeout, Idle, AllowStoreHalf(0, config.timeout))
  {
    trace, w := ProbeFails(config);
    trace, w := Extend(config, trace, w, Go(0), 0);
    trace, w := Extend(config, trace, w, Go(0), 0);
  }

  /** Even if no opener delays its store, and with only two threads: an Allow that pauses
      before its store of HalfOpen ends the window of a later opening for everyone. The last
      Allow begins in that window and is let through at once. */
  lemma StaleStoreEndsWindow(config: Config) returns (trace: Trace)
    requires CanOpen(config) && config.timeout >= 0
    ensures AtMost(config, trace, 2) && PromptRun(config, trace, 0)
    ensures OpeningAtStart(config, trace, 0) == Some(config.timeout)
    ensures PcOf(Run(config, trace), 0) == AllowDone(true, None, config.timeout)
  {
    var w;
    trace, w := OpensAgain(config);
    trace, w := Extend(config, trace, w, Go(1), 0);
    trace, w := Extend(config, trace, w, Begin(0, Allow), 0);
    trace, w := Extend(config, trace, w, Go(0), 0);
    TwoInProgress(config, trace);
  }

  lemma {:induction false} FewerCalls(config: Config, trace: Trace, limit: nat, more: nat)
    requires AtMost(config, trace, limit) && limit <= more
    ensures AtMost(config, trace, more)
  {
    match trace
    case Start =>
    case Then(earlier, _) => FewerCalls(config, earlier, limit, more);
  }

  /** Whatever delays are allowed between an opener's reading and its store, even none: no
      Allow begun in a window is let through before its end, in any run without Reset and
      with at most `limit` calls in progress, exactly when the limit is one or less. */
  lemma WindowRespectedIffOneAtATime(config: Config, delay: nat, limit: nat)
    requires CanOpen(config) && config.timeout > 0
    ensures limit <= 1 <==>
              forall trace, t :: PromptRun(config, trace, delay) && AtMost(config, trace, limit) ==>
                RespectsWindow(config, trace, t)
  {
    if limit <= 1 {
      forall trace, t | PromptRun(config, trace, delay) && AtMost(config, trace, limit)
        ensures RespectsWindow(config, trace, t)
      {
        FewerCalls(config, trace, limit, 1);
        OneAtATimeIsOrderly(config, trace);
        assert Fits(config, Run(config, trace), PcOf(Run(config, trace), t), LastOpening(config, trace),
                    OpeningAtStart(config, trace, t));
      }
    } else {
      var trace := StaleStoreEndsWindow(config);
      LongerDelayAllowsMore(config, trace, 0, delay);
      FewerCalls(config, trace, 2, limit);
      assert !RespectsWindow(config, trace, 0);
    }
  }
}
