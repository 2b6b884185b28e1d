/** The breaker under concurrency: every atomic load, store and clock reading of Allow,
    Record and Reset is a step of its own, and threads interleave freely. */
module CircuitBreakerThreads {
  import opened CircuitBreaker
  import opened Folds

  datatype Operation = Allow | Record(success: bool) | Reset

  /** What an opener does once it has stored Open. */
  datatype Afterwards = Finish | ClearSuccesses | Unlock

  /** What a thread does next. `stamp` names the opener whose Open an Allow has loaded, by
      the clock reading that opener took for lastFailTime. */
  datatype Pc =
    | Idle
    | AllowStart
    | AllowLoadTime(stamp: int)
    | AllowReadClock(stamp: int, last: int)
    | AllowStoreHalf(stamp: int, at: int)
    | AllowDone(allowed: bool, sawOpen: Option<int>, at: int)
    | RecordStart(success: bool)
    | ClosedClearFailures
    | ClosedAddFailure
    | ClosedCheckFailures
    | OpenReadClock(rest: Afterwards)
    | OpenStoreTime(reading: int, rest: Afterwards)
    | OpenStoreState(reading: int, rest: Afterwards)
    | HalfAddSuccess
    | HalfCheckSuccesses
    | HalfStoreClosed
    | ClearFailuresThenSuccesses
    | ClearSuccessesLast
    | LateLock(success: bool)
    | LateLoadTime(success: bool)
    | LateReadClock(success: bool, last: int)
    | LateStoreHalf(success: bool)
    | LateClearFailures(success: bool)
    | LateClearSuccesses(success: bool)
    | LateAddSuccess
    | LateCheckSuccesses
    | LateStoreClosed
    | LateUnlock
    | ResetStoreClosed

  /** The shared words, the clock and the threads. `stamp` is the clock reading of the
      opener that stored the current Open. */
  datatype World = World(
    state: State, stamp: int, failures: int, successes: int, lastFailTime: int,
    locked: bool, clock: int, threads: map<nat, Pc>)

  const START := World(Closed, 0, 0, 0, 0, false, 0, map[])

  /** Time passes, a thread begins a call, or a thread takes its next step. */
  datatype Action = Tick(to: int) | Begin(thread: nat, operation: Operation) | Go(thread: nat)

  function PcOf(w: World, t: nat): Pc {
    if t in w.threads then w.threads[t] else Idle
  }

  function At(w: World, t: nat, pc: Pc): World {
    w.(threads := w.threads[t := pc])
  }

  function Next(config: Config, w: World, a: Action): World {
    match a
    case Tick(to) => if to >= w.clock then w.(clock := to) else w
    case Begin(t, operation) =>
      if !PcOf(w, t).Idle? && !PcOf(w, t).AllowDone? then w
      else (match operation
            case Allow => At(w, t, AllowStart)
            case Record(success) => At(w, t, RecordStart(success))
            case Reset => At(w, t, ResetStoreClosed))
    case Go(t) => Advance(config, w, t, PcOf(w, t))
  }

  function Advance(config: Config, w: World, t: nat, pc: Pc): World {
    match pc
    case Idle => w
    case AllowDone(_, _, _) => w
    case AllowStart =>
      if w.state.Open? then At(w, t, AllowLoadTime(w.stamp)) else At(w, t, AllowDone(true, None, w.clock))
    case AllowLoadTime(stamp) => At(w, t, AllowReadClock(stamp, w.lastFailTime))
    case AllowReadClock(stamp, last) =>
      if w.clock - last >= config.timeout then At(w, t, AllowStoreHalf(stamp, w.clock))
      else At(w, t, AllowDone(false, Some(stamp), w.clock))
    case AllowStoreHalf(stamp, at) => At(w.(state := HalfOpen), t, AllowDone(true, Some(stamp), at))
    case RecordStart(success) =>
      (match w.state
       case Closed => At(w, t, if success then ClosedClearFailures else ClosedAddFailure)
       case Open => At(w, t, LateLock(success))
       case HalfOpen => At(w, t, if success then HalfAddSuccess else OpenReadClock(ClearSuccesses)))
    case ClosedClearFailures => At(w.(failures := 0), t, Idle)
    case ClosedAddFailure => At(w.(failures := Increment32(w.failures)), t, ClosedCheckFailures)
    case ClosedCheckFailures => At(w, t, if w.failures >= config.failThreshold then OpenReadClock(Finish) else Idle)
    case OpenReadClock(rest) => At(w, t, OpenStoreTime(w.clock, rest))
    case OpenStoreTime(reading, rest) => At(w.(lastFailTime := reading), t, OpenStoreState(reading, rest))
    case OpenStoreState(reading, rest) =>
      At(w.(state := Open, stamp := reading), t,
         match rest case Finish => Idle case ClearSuccesses => ClearSuccessesLast case Unlock => LateUnlock)
    case HalfAddSuccess => At(w.(successes := Increment32(w.successes)), t, HalfCheckSuccesses)
    case HalfCheckSuccesses => At(w, t, if w.successes >= config.successThreshold then HalfStoreClosed else Idle)
    case HalfStoreClosed => At(w.(state := Closed), t, ClearFailuresThenSuccesses)
    case ClearFailuresThenSuccesses => At(w.(failures := 0), t, ClearSuccessesLast)
    case ClearSuccessesLast => At(w.(successes := 0), t, Idle)
    case LateLock(success) => if w.locked then w else At(w.(locked := true), t, LateLoadTime(success))
    case LateLoadTime(success) => At(w, t, LateReadClock(success, w.lastFailTime))
    case LateReadClock(success, last) =>
      At(w, t, if w.clock - last >= config.timeout then LateStoreHalf(success) else LateUnlock)
    case LateStoreHalf(success) => At(w.(state := HalfOpen), t, LateClearFailures(success))
    case LateClearFailures(success) => At(w.(failures := 0), t, LateClearSuccesses(success))
    case LateClearSuccesses(success) =>
      At(w.(successes := 0), t, if success then LateAddSuccess else OpenReadClock(Unlock))
    case LateAddSuccess => At(w.(successes := Increment32(w.successes)), t, LateCheckSuccesses)
    case LateCheckSuccesses => At(w, t, if w.successes >= config.successThreshold then LateStoreClosed else LateUnlock)
    case LateStoreClosed => At(w.(state := Closed), t, LateUnlock)
    case LateUnlock => At(w.(locked := false), t, Idle)
    case ResetStoreClosed => At(w.(state := Closed), t, ClearFailuresThenSuccesses)
  }

  /** Reading the clock and storing the reading are two steps.  An action is prompt when it
      does not store a reading older than `delay`; with delay 0 the two are one step. */
  predicate Prompt(w: World, a: Action, delay: nat) {
    a.Go? && PcOf(w, a.thread).OpenStoreTime? ==> w.clock - PcOf(w, a.thread).reading <= delay
  }

  /** An interleaving, from the beginning. */
  datatype Trace = Start | Then(earlier: Trace, action: Action)

  function Run(config: Config, trace: Trace): World {
    match trace
    case Start => START
    case Then(earlier, action) => Next(config, Run(config, earlier), action)
  }

  predicate PromptRun(config: Config, trace: Trace, delay: nat) {
    match trace
    case Start => true
    case Then(earlier, action) => PromptRun(config, earlier, delay) && Prompt(Run(config, earlier), action, delay)
  }

  // ----- the invariant

  /** An opener's reading lies in the past, and lastFailTime is at most `delay` behind it. */
  predicate Recorded(w: World, reading: int, delay: nat) {
    reading <= w.clock && reading - delay <= w.lastFailTime
  }

  /** A clock reading `at` after the opener's reading and at most `delay` before its window ends. */
  predicate Waited(config: Config, w: World, stamp: int, at: int, delay: nat) {
    stamp + config.timeout - delay <= at <= w.clock && stamp <= at
  }

  predicate PcOk(config: Config, w: World, pc: Pc, delay: nat) {
    match pc
    case AllowLoadTime(stamp) => Recorded(w, stamp, delay)
    case AllowReadClock(stamp, last) => stamp - delay <= last && stamp <= w.clock
    case AllowStoreHalf(stamp, at) => Waited(config, w, stamp, at, delay)
    case AllowDone(allowed, sawOpen, at) => allowed && sawOpen.Some? ==> Waited(config, w, sawOpen.value, at, delay)
    case OpenStoreTime(reading, _) => reading <= w.clock
    case OpenStoreState(reading, _) => Recorded(w, reading, delay)
    case _ => true
  }

  ghost predicate Invariant(config: Config, w: World, delay: nat) {
    && (w.state.Open? ==> Recorded(w, w.stamp, delay))
    && (forall t :: t in w.threads ==> PcOk(config, w, w.threads[t], delay))
  }

  /** Steps of one thread keep what is known about the others. */
  lemma OthersKeepOk(config: Config, w: World, w': World, pc: Pc, delay: nat)
    requires PcOk(config, w, pc, delay)
    requires w.clock <= w'.clock
    requires w'.lastFailTime == w.lastFailTime || w.clock - delay <= w'.lastFailTime
    ensures PcOk(config, w', pc, delay)
  {
  }

  /** What one step of thread `t` may do to the shared words, and what `t` then knows. */
  ghost predicate StepOk(config: Config, w: World, w': World, t: nat, delay: nat) {
    && w.clock == w'.clock
    && (w'.lastFailTime == w.lastFailTime || w.clock - delay <= w'.lastFailTime)
    && (w'.state.Open? ==> Recorded(w', w'.stamp, delay))
    && (w' == w || exists pc :: PcOk(config, w', pc, delay) && w'.threads == w.threads[t := pc])
  }

  lemma AdvanceOk(config: Config, w: World, t: nat, pc: Pc, delay: nat)
    requires PcOk(config, w, pc, delay)
    requires w.state.Open? ==> Recorded(w, w.stamp, delay)
    requires pc.OpenStoreTime? ==> w.clock - pc.reading <= delay
    ensures StepOk(config, w, Advance(config, w, t, pc), t, delay)
  {
    var w' := Advance(config, w, t, pc);
    if w' != w {
      assert w'.threads == w.threads[t := w'.threads[t]];
      assert PcOk(config, w', w'.threads[t], delay);
    }
  }

  lemma StepKeepsInvariant(config: Config, w: World, a: Action, delay: nat)
    requires Invariant(config, w, delay) && Prompt(w, a, delay)
    ensures Invariant(config, Next(config, w, a), delay)
  {
    var w' := Next(config, w, a);
    if a.Go? {
      AdvanceOk(config, w, a.thread, PcOf(w, a.thread), delay);
    }
    forall t | t in w.threads
      ensures PcOk(config, w', w.threads[t], delay)
    {
      OthersKeepOk(config, w, w', w.threads[t], delay);
    }
  }

  lemma {:induction false} RunKeepsInvariant(config: Config, trace: Trace, delay: nat)
    requires PromptRun(config, trace, delay)
    ensures Invariant(config, Run(config, trace), delay)
  {
    match trace
    case Start =>
    case Then(earlier, action) =>
      RunKeepsInvariant(config, earlier, delay);
      StepKeepsInvariant(config, Run(config, earlier), action, delay);
  }

  /** In every interleaving, an Allow that loaded an Open returns true no earlier than that
      opener's fail time plus the timeout, less the longest delay between an opener's
      clock reading and its store. */
  lemma OpenWindowRespected(config: Config, trace: Trace, delay: nat, t: nat)
    requires PromptRun(config, trace, delay)
    ensures var w, pc := Run(config, trace), PcOf(Run(config, trace), t);
            pc.AllowDone? && pc.allowed && pc.sawOpen.Some? ==>
              && pc.sawOpen.value + config.timeout - delay <= pc.at <= w.clock
              && pc.sawOpen.value <= pc.at
  {
    RunKeepsInvariant(config, trace, delay);
  }

  // ----- the lock around late results

  /** Between taking the lock and giving it back. */
  predicate HoldsLock(pc: Pc) {
    match pc
    case LateLoadTime(_) => true
    case LateReadClock(_, _) => true
    case LateStoreHalf(_) => true
    case LateClearFailures(_) => true
    case LateClearSuccesses(_) => true
    case LateAddSuccess => true
    case LateCheckSuccesses => true
    case LateStoreClosed => true
    case LateUnlock => true
    case OpenReadClock(rest) => rest == Unlock
    case OpenStoreTime(_, rest) => rest == Unlock
    case OpenStoreState(_, rest) => rest == Unlock
    case _ => false
  }

  /** The lock is taken exactly while some thread holds it, and only one thread does. */
  ghost predicate LockOk(w: World) {
    && (w.locked <==> exists t :: t in w.threads && HoldsLock(w.threads[t]))
    && (forall t, u ::
          t in w.threads && u in w.threads && HoldsLock(w.threads[t]) && HoldsLock(w.threads[u]) ==> t == u)
  }

  /** A thread that holds the lock keeps it or gives it back. */
  lemma AdvanceWithLock(config: Config, w: World, t: nat, pc: Pc)
    requires HoldsLock(pc) && w.locked
    ensures var w' := Advance(config, w, t, pc);
            t in w'.threads && w'.threads == w.threads[t := w'.threads[t]] && w'.locked == HoldsLock(w'.threads[t])
  {
  }

  /** Any other thread takes it only when it is free. */
  lemma AdvanceWithoutLock(config: Config, w: World, t: nat, pc: Pc)
    requires !HoldsLock(pc)
    ensures var w' := Advance(config, w, t, pc);
            || w' == w
            || (&& t in w'.threads && w'.threads == w.threads[t := w'.threads[t]]
                && if HoldsLock(w'.threads[t]) then !w.locked && w'.locked else w'.locked == w.locked)
  {
  }

  /** A step from and to states without the lock. */
  lemma ElsewhereKeepsLock(w: World, w': World, t: nat)
    requires LockOk(w) && w'.locked == w.locked
    requires t in w'.threads && w'.threads == w.threads[t := w'.threads[t]]
    requires !HoldsLock(PcOf(w, t)) && !HoldsLock(w'.threads[t])
    ensures LockOk(w')
  {
    if w.locked {
      var u :| u in w.threads && HoldsLock(w.threads[u]);
      assert u in w'.threads && HoldsLock(w'.threads[u]);
    }
  }

  lemma GoKeepsLock(config: Config, w: World, t: nat)
    requires LockOk(w)
    ensures LockOk(Advance(config, w, t, PcOf(w, t)))
  {
    var pc, w' := PcOf(w, t), Advance(config, w, t, PcOf(w, t));
    if HoldsLock(pc) {
      AdvanceWithLock(config, w, t, pc);
    } else {
      AdvanceWithoutLock(config, w, t, pc);
      if w' != w && !HoldsLock(w'.threads[t]) {
        ElsewhereKeepsLock(w, w', t);
      }
    }
  }

  lemma BeginKeepsLock(config: Config, w: World, t: nat, operation: Operation)
    requires LockOk(w)
    ensures LockOk(Next(config, w, Begin(t, operation)))
  {
    var w' := Next(config, w, Begin(t, operation));
    if w' != w {
      ElsewhereKeepsLock(w, w', t);
    }
  }

  /** In every interleaving, late results are handled one at a time. */
  lemma {:induction false} LateResultsExclude(config: Config, trace: Trace)
    ensures LockOk(Run(config, trace))
  {
    match trace
    case Start =>
    case Then(earlier, a) =>
      LateResultsExclude(config, earlier);
      match a {
        case Tick(_) =>
        case Begin(t, operation) => BeginKeepsLock(config, Run(config, earlier), t, operation);
        case Go(t) => GoKeepsLock(config, Run(config, earlier), t);
      }
  }

  // ----- the delay is really lost

  /** One more step of a run whose end is known. */
  lemma Extend(config: Config, trace: Trace, w: World, a: Action, delay: nat) returns (trace': Trace, w': World)
    requires PromptRun(config, trace, delay) && Run(config, trace) == w
    requires Prompt(w, a, delay)
    ensures trace' == Then(trace, a)
    ensures TwoCallers(trace) && ByTwoCallers(a) ==> TwoCallers(trace')
    ensures PromptRun(config, trace', delay) && Run(config, trace') == w' == Next(config, w, a)
  {
    trace', w' := Then(trace, a), Next(config, w, a);
  }

  /** Only threads 0 and 1 make calls, and none of them is a Reset. */
  predicate TwoCallers(trace: Trace) {
    match trace
    case Start => true
    case Then(earlier, action) => TwoCallers(earlier) && ByTwoCallers(action)
  }

  predicate ByTwoCallers(a: Action) {
    (!a.Tick? ==> a.thread <= 1) && (a.Begin? ==> !a.operation.Reset?)
  }

  /** Thread 0 has recorded `n` failures, one call after the other. */
  function Counted(n: nat): World {
    START.(failures := n, threads := if n == 0 then map[] else map[0 := Idle])
  }

  /** Thread 0 has added one more failure and is about to compare. */
  lemma OneMore(config: Config, before: Trace, n: nat, delay: nat) returns (trace: Trace, w: World)
    requires PromptRun(config, before, delay) && Run(config, before) == Counted(n)
    requires n < MAX_INT32 && TwoCallers(before)
    ensures TwoCallers(trace) && PromptRun(config, trace, delay) && Run(config, trace) == w
    ensures w == START.(failures := n + 1, threads := map[0 := ClosedCheckFailures])
  {
    trace, w := Extend(config, before, Counted(n), Begin(0, Record(false)), delay);
    trace, w := Extend(config, trace, w, Go(0), delay);
    trace, w := Extend(config, trace, w, Go(0), delay);
  }

  lemma {:induction false} CountUpTo(config: Config, n: nat, delay: nat) returns (trace: Trace)
    requires n < config.failThreshold <= MAX_INT32
    ensures TwoCallers(trace) && PromptRun(config, trace, delay) && Run(config, trace) == Counted(n)
  {
    if n == 0 {
      trace := Start;
    } else {
      var w;
      trace := CountUpTo(config, n - 1, delay);
      trace, w := OneMore(config, trace, n - 1, delay);
      trace, w := Extend(config, trace, w, Go(0), delay);
    }
  }

  /** The failures recorded before the two that reach the threshold together. */
  function Earlier(config: Config): nat {
    if config.failThreshold <= 2 then 0 else config.failThreshold - 2
  }

  predicate CanOpen(config: Config) {
    0 < config.failThreshold <= MAX_INT32
  }

  /** A closed breaker at time `clock` with the failures of both openers counted. */
  function Racing(config: Config, clock: int, first: Pc, second: Pc): World {
    START.(failures := Earlier(config) + 2, clock := clock, threads := map[0 := first, 1 := second])
  }

  lemma FirstCounted(config: Config, delay: nat) returns (trace: Trace, w: World)
    requires CanOpen(config)
    ensures PromptRun(config, trace, delay) && Run(config, trace) == w
    ensures w == START.(failures := Earlier(config) + 1, threads := map[0 := ClosedCheckFailures])
  {
    trace := CountUpTo(config, Earlier(config), delay);
    trace, w := OneMore(config, trace, Earlier(config), delay);
  }

  lemma BothCounted(config: Config, delay: nat) returns (trace: Trace, w: World)
    requires CanOpen(config)
    ensures PromptRun(config, trace, delay) && Run(config, trace) == w
    ensures w == Racing(config, 0, ClosedCheckFailures, ClosedCheckFailures)
  {
    trace, w := FirstCounted(config, delay);
    trace, w := Extend(config, trace, w, Begin(1, Record(false)), delay);
    trace, w := Extend(config, trace, w, Go(1), delay);
    trace, w := Extend(config, trace, w, Go(1), delay);
  }

  /** The first opener has read the clock; the second one knows that it will open. */
  lemma FirstRead(config: Config, delay: nat) returns (trace: Trace, w: World)
    requires CanOpen(config)
    ensures PromptRun(config, trace, delay) && Run(config, trace) == w
    ensures w == Racing(config, 0, OpenStoreTime(0, Finish), OpenReadClock(Finish))
  {
    trace, w := BothCounted(config, delay);
    trace, w := Extend(config, trace, w, Go(0), delay);
    trace, w := Extend(config, trace, w, Go(0), delay);
    trace, w := Extend(config, trace, w, Go(1), delay);
  }

  lemma SecondRead(config: Config, delay: nat) returns (trace: Trace, w: World)
    requires CanOpen(config)
    ensures PromptRun(config, trace, delay) && Run(config, trace) == w
    ensures w == Racing(config, delay, OpenStoreTime(0, Finish), OpenStoreTime(delay, Finish))
  {
    trace, w := FirstRead(config, delay);
    trace, w := Extend(config, trace, w, Tick(delay), delay);
    trace, w := Extend(config, trace, w, Go(1), delay);
  }

  /** The second opener overtakes the first one and opens the breaker at time `delay`. */
  lemma SecondOpens(config: Config, delay: nat) returns (trace: Trace, w: World)
    requires CanOpen(config)
    ensures PromptRun(config, trace, delay) && Run(config, trace) == w
    ensures var before := Racing(config, delay, OpenStoreTime(0, Finish), Idle);
            w == before.(state := Open, stamp := delay, lastFailTime := delay)
  {
    trace, w := SecondRead(config, delay);
    trace, w := Extend(config, trace, w, Go(1), delay);
    trace, w := Extend(config, trace, w, Go(1), delay);
  }

  /** The first one's old reading lands, and an Allow finds the second one's Open. */
  lemma OldReadingLands(config: Config, delay: nat) returns (trace: Trace, w: World)
    requires CanOpen(config)
    ensures PromptRun(config, trace, delay) && Run(config, trace) == w
    ensures w.clock == delay && w.state == Open && PcOf(w, 2) == AllowReadClock(delay, 0)
  {
    trace, w := SecondOpens(config, delay);
    trace, w := Extend(config, trace, w, Go(0), delay);
    trace, w := Extend(config, trace, w, Begin(2, Allow), delay);
    trace, w := Extend(config, trace, w, Go(2), delay);
    trace, w := Extend(config, trace, w, Go(2), delay);
  }

  /** The bound is attained by every breaker that can open: when one opener's reading is
      stored `delay` late, over that of a second opener with stamp `delay`, an Allow that
      loaded the second one's Open returns true `delay` before that opener's window ends. */
  lemma DelayIsLost(config: Config, delay: nat) returns (trace: Trace)
    requires CanOpen(config) && delay <= config.timeout
    ensures PromptRun(config, trace, delay)
    ensures PcOf(Run(config, trace), 2) == AllowDone(true, Some(delay), config.timeout)
  {
    var w;
    trace, w := OldReadingLands(config, delay);
    trace, w := Extend(config, trace, w, Tick(config.timeout), delay);
    trace, w := Extend(config, trace, w, Go(2), delay);
    trace, w := Extend(config, trace, w, Go(2), delay);
  }

  lemma {:induction false} LongerDelayAllowsMore(config: Config, trace: Trace, delay: nat, longer: nat)
    requires PromptRun(config, trace, delay) && delay <= longer
    ensures PromptRun(config, trace, longer)
  {
    match trace
    case Start =>
    case Then(earlier, _) => LongerDelayAllowsMore(config, earlier, delay, longer);
  }

  /** An Allow that loaded an Open itself returns true at most `loss` before that opener's
      window ends. */
  predicate LosesAtMost(config: Config, w: World, t: nat, loss: nat) {
    var pc := PcOf(w, t);
    pc.AllowDone? && pc.allowed && pc.sawOpen.Some? ==> pc.sawOpen.value + config.timeout - loss <= pc.at
  }

  /** How much of a window can be lost to an Allow that loaded that opener's Open: the longest
      delay, but not more than the window. */
  lemma WorstLoss(config: Config, delay: nat, loss: nat)
    requires CanOpen(config) && config.timeout > 0
    ensures delay <= loss || config.timeout <= loss <==>
              forall trace, t :: PromptRun(config, trace, delay) ==> LosesAtMost(config, Run(config, trace), t, loss)
  {
    if delay <= loss || config.timeout <= loss {
      forall trace, t | PromptRun(config, trace, delay)
        ensures LosesAtMost(config, Run(config, trace), t, loss)
      {
        OpenWindowRespected(config, trace, delay, t);
      }
    } else {
      var late := if delay <= config.timeout then delay else config.timeout;
      var trace := DelayIsLost(config, late);
      LongerDelayAllowsMore(config, trace, late, delay);
      assert !LosesAtMost(config, Run(config, trace), 2, loss);
    }
  }

  // ----- one thread alone

  /** The words that steer the breaker. */
  datatype Words = Words(state: State, failures: int, successes: int, lastFailTime: int)

  function WordsOf(w: World): Words {
    Words(w.state, w.failures, w.successes, w.lastFailTime)
  }

  function WordsIn(s: Snapshot): Words {
    Words(s.state, s.failures, s.successes, s.lastFailTime)
  }

  /** After `n` steps of its own, undisturbed, the thread has finished its call with these
      words and holds no lock; an Allow has given this answer. */
  predicate EndsIn(config: Config, w: World, t: nat, n: nat, words: Words, answer: Option<bool>)
    decreases n
  {
    if n > 0 then EndsIn(config, Next(config, w, Go(t)), t, n - 1, words, answer)
    else
      && WordsOf(w) == words && !w.locked
      && match PcOf(w, t)
         case Idle => answer.None?
         case AllowDone(allowed, _, _) => answer == Some(allowed)
         case _ => false
  }

  /** The words once a thread about to read the clock for lastFailTime has finished. */
  function Opening(words: Words, clock: int, rest: Afterwards): Words {
    words.(state := Open, lastFailTime := clock, successes := if rest == ClearSuccesses then 0 else words.successes)
  }

  lemma FinishClear(config: Config, w: World, t: nat) returns (n: nat)
    requires !w.locked && PcOf(w, t) == ClearSuccessesLast
    ensures EndsIn(config, w, t, n, WordsOf(w).(successes := 0), None)
  {
    n := 1;
  }

  lemma FinishUnlock(config: Config, w: World, t: nat) returns (n: nat)
    requires PcOf(w, t) == LateUnlock
    ensures EndsIn(config, w, t, n, WordsOf(w), None)
  {
    n := 1;
  }

  lemma FinishClosing(config: Config, w: World, t: nat) returns (n: nat)
    requires !w.locked && PcOf(w, t) in {HalfStoreClosed, ResetStoreClosed}
    ensures EndsIn(config, w, t, n, WordsOf(w).(state := Closed, failures := 0, successes := 0), None)
  {
    n := FinishClear(config, Next(config, Next(config, w, Go(t)), Go(t)), t);
    n := n + 2;
  }

  lemma FinishStoreState(config: Config, w: World, t: nat) returns (n: nat)
    requires PcOf(w, t).OpenStoreState? && (w.locked ==> PcOf(w, t).rest == Unlock)
    ensures EndsIn(config, w, t, n, Opening(WordsOf(w), w.lastFailTime, PcOf(w, t).rest), None)
  {
    var next := Next(config, w, Go(t));
    match PcOf(w, t).rest
    case Finish => n := 1;
    case ClearSuccesses => n := FinishClear(config, next, t); n := n + 1;
    case Unlock => n := FinishUnlock(config, next, t); n := n + 1;
  }

  lemma FinishOpening(config: Config, w: World, t: nat) returns (n: nat)
    requires PcOf(w, t).OpenReadClock? && (w.locked ==> PcOf(w, t).rest == Unlock)
    ensures EndsIn(config, w, t, n, Opening(WordsOf(w), w.clock, PcOf(w, t).rest), None)
  {
    n := FinishStoreState(config, Next(config, Next(config, w, Go(t)), Go(t)), t);
    n := n + 2;
  }

  lemma FinishClosedFailure(config: Config, w: World, t: nat) returns (n: nat)
    requires !w.locked && PcOf(w, t) == ClosedCheckFailures
    ensures var opens := w.failures >= config.failThreshold;
            EndsIn(config, w, t, n, if opens then Opening(WordsOf(w), w.clock, Finish) else WordsOf(w), None)
  {
    if w.failures >= config.failThreshold {
      n := FinishOpening(config, Next(config, w, Go(t)), t);
      n := n + 1;
    } else {
      n := 1;
    }
  }

  lemma FinishHalfSuccess(config: Config, w: World, t: nat) returns (n: nat)
    requires !w.locked && PcOf(w, t) == HalfCheckSuccesses
    ensures var closed := WordsOf(w).(state := Closed, failures := 0, successes := 0);
            EndsIn(config, w, t, n, if w.successes >= config.successThreshold then closed else WordsOf(w), None)
  {
    if w.successes >= config.successThreshold {
      n := FinishClosing(config, Next(config, w, Go(t)), t);
      n := n + 1;
    } else {
      n := 1;
    }
  }

  lemma FinishLateSuccess(config: Config, w: World, t: nat) returns (n: nat)
    requires PcOf(w, t) == LateCheckSuccesses
    ensures var state := if w.successes >= config.successThreshold then Closed else w.state;
            EndsIn(config, w, t, n, WordsOf(w).(state := state), None)
  {
    var next := Next(config, w, Go(t));
    if w.successes >= config.successThreshold {
      n := FinishUnlock(config, Next(config, next, Go(t)), t);
      n := n + 2;
    } else {
      n := FinishUnlock(config, next, t);
      n := n + 1;
    }
  }

  /** The words after a late result that counts, given those before the counters are cleared. */
  function LateResult(config: Config, words: Words, success: bool, clock: int): Words {
    var half := words.(failures := 0, successes := 0);
    if !success then Opening(half, clock, Unlock)
    else half.(successes := 1, state := if 1 >= config.successThreshold then Closed else words.state)
  }

  lemma FinishLateCounters(config: Config, w: World, t: nat, success: bool) returns (n: nat)
    requires PcOf(w, t) == LateClearSuccesses(success) && w.failures == 0
    ensures EndsIn(config, w, t, n, LateResult(config, WordsOf(w), success, w.clock), None)
  {
    var next := Next(config, w, Go(t));
    if success {
      n := FinishLateSuccess(config, Next(config, next, Go(t)), t);
      n := n + 2;
    } else {
      n := FinishOpening(config, next, t);
      n := n + 1;
    }
  }

  lemma FinishLateHalf(config: Config, w: World, t: nat, success: bool) returns (n: nat)
    requires PcOf(w, t) == LateStoreHalf(success)
    ensures EndsIn(config, w, t, n, LateResult(config, WordsOf(w).(state := HalfOpen), success, w.clock), None)
  {
    n := FinishLateCounters(config, Next(config, Next(config, w, Go(t)), Go(t)), t, success);
    n := n + 2;
  }

  lemma FinishLateClock(config: Config, w: World, t: nat, success: bool, last: int) returns (n: nat)
    requires PcOf(w, t) == LateReadClock(success, last)
    ensures var counted := LateResult(config, WordsOf(w).(state := HalfOpen), success, w.clock);
            EndsIn(config, w, t, n, if w.clock - last >= config.timeout then counted else WordsOf(w), None)
  {
    var next := Next(config, w, Go(t));
    if w.clock - last >= config.timeout {
      n := FinishLateHalf(config, next, t, success);
    } else {
      n := FinishUnlock(config, next, t);
    }
    n := n + 1;
  }

  lemma FinishLate(config: Config, w: World, t: nat, success: bool) returns (n: nat)
    requires !w.locked && PcOf(w, t) == LateLock(success)
    ensures var counted := LateResult(config, WordsOf(w).(state := HalfOpen), success, w.clock);
            EndsIn(config, w, t, n, if w.clock - w.lastFailTime >= config.timeout then counted else WordsOf(w), None)
  {
    n := FinishLateClock(config, Next(config, Next(config, w, Go(t)), Go(t)), t, success, w.lastFailTime);
    n := n + 2;
  }

  lemma AloneAllow(config: Config, w: World, t: nat, s: Snapshot) returns (n: nat)
    requires WordsOf(w) == WordsIn(s) && !w.locked && PcOf(w, t) == AllowStart
    ensures EndsIn(config, w, t, n, WordsIn(AfterAllow(config, s, w.clock)), Some(Allowed(config, s, w.clock)))
  {
    var third := Next(config, Next(config, Next(config, w, Go(t)), Go(t)), Go(t));
    if !s.state.Open? {
      n := 1;
    } else if !Expired(config, s, w.clock) {
      assert EndsIn(config, third, t, 0, WordsOf(w), Some(false));
      n := 3;
    } else {
      assert EndsIn(config, third, t, 1, WordsOf(w).(state := HalfOpen), Some(true));
      n := 4;
    }
  }

  lemma AloneRecord(config: Config, w: World, t: nat, s: Snapshot, success: bool) returns (n: nat)
    requires WordsOf(w) == WordsIn(s) && !w.locked && PcOf(w, t) == RecordStart(success)
    ensures EndsIn(config, w, t, n, WordsIn(AfterRecord(config, s, success, w.clock, w.clock)), None)
  {
    var next := Next(config, w, Go(t));
    match s.state {
      case Closed =>
        if success {
          n := 2;
        } else {
          n := FinishClosedFailure(config, Next(config, next, Go(t)), t);
          n := n + 2;
        }
      case Open =>
        n := FinishLate(config, next, t, success);
        n := n + 1;
      case HalfOpen =>
        if success {
          n := FinishHalfSuccess(config, Next(config, next, Go(t)), t);
          n := n + 2;
        } else {
          n := FinishOpening(config, next, t);
          n := n + 1;
        }
    }
  }

  /** What the sequential specification says about one call at one clock reading. */
  function Sequential(config: Config, s: Snapshot, operation: Operation, now: int): Snapshot {
    match operation
    case Allow => AfterAllow(config, s, now)
    case Record(success) => AfterRecord(config, s, success, now, now)
    case Reset => AfterReset(s)
  }

  /** Undisturbed, a call takes its steps to exactly the state that the sequential
      specification gives it, and Allow to the same answer. */
  lemma AloneIsSequential(config: Config, w: World, t: nat, s: Snapshot, operation: Operation) returns (n: nat)
    requires WordsOf(w) == WordsIn(s) && !w.locked && PcOf(w, t).Idle?
    ensures EndsIn(config, Next(config, w, Begin(t, operation)), t, n,
                   WordsIn(Sequential(config, s, operation, w.clock)),
                   if operation.Allow? then Some(Allowed(config, s, w.clock)) else None)
  {
    var begun := Next(config, w, Begin(t, operation));
    match operation
    case Allow => n := AloneAllow(config, begun, t, s);
    case Record(success) => n := AloneRecord(config, begun, t, s, success);
    case Reset => n := FinishClosing(config, begun, t);
  }
}
