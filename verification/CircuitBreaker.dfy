/** The circuit breaker: its fields, its methods, and the functions that specify them. */
module CircuitBreaker {

  datatype State = Closed | Open | HalfOpen

  datatype Config = Config(failThreshold: int, successThreshold: int, timeout: int)

  /** Everything a breaker remembers. The first four fields steer it; the rest are its metrics. */
  datatype Snapshot = Snapshot(
    state: State, failures: int, successes: int, lastFailTime: int,
    totalRequests: int, successRequests: int, failedRequests: int, stateChanges: int)

  const INITIAL := Snapshot(Closed, 0, 0, 0, 0, 0, 0, 0)

  const MAX_INT32 := 0x7fff_ffff

  /** The counters compared with the thresholds are 32-bit and wrap around. */
  function Increment32(x: int): (r: int)
    ensures -MAX_INT32 - 1 <= x <= MAX_INT32 ==> -MAX_INT32 - 1 <= r <= MAX_INT32
    ensures r == x + 1 || r == x + 1 - 0x1_0000_0000
  {
    if x == MAX_INT32 then -MAX_INT32 - 1 else x + 1
  }

  function Expired(config: Config, s: Snapshot, now: int): bool {
    now - s.lastFailTime >= config.timeout
  }

  function Moved(s: Snapshot, state: State): Snapshot {
    s.(state := state, stateChanges := s.stateChanges + 1)
  }

  /** Whether a request at time `now` is let through. */
  predicate Allowed(config: Config, s: Snapshot, now: int) {
    s.state.Open? ==> Expired(config, s, now)
  }

  function AfterAllow(config: Config, s: Snapshot, now: int): Snapshot {
    var counted := s.(totalRequests := s.totalRequests + 1);
    if s.state.Open? && Expired(config, s, now) then Moved(counted, HalfOpen) else counted
  }

  function Opened(s: Snapshot, now: int): Snapshot {
    Moved(s.(lastFailTime := now), Open)
  }

  function AfterRecordClosed(config: Config, s: Snapshot, success: bool, now: int): Snapshot {
    if success then s.(failures := 0, successRequests := s.successRequests + 1)
    else
      var failed := s.(failures := Increment32(s.failures), failedRequests := s.failedRequests + 1);
      if failed.failures >= config.failThreshold then Opened(failed, now) else failed
  }

  function AfterRecordHalfOpen(config: Config, s: Snapshot, success: bool, now: int): Snapshot {
    if success then
      var ok := s.(successes := Increment32(s.successes), successRequests := s.successRequests + 1);
      if ok.successes >= config.successThreshold then Moved(ok, Closed).(failures := 0, successes := 0) else ok
    else Opened(s, now).(successes := 0, failedRequests := s.failedRequests + 1)
  }

  /** A late result that arrives while the breaker is open counts only after the timeout,
      and then as the first result of the half-open state. */
  function AfterRecordOpen(config: Config, s: Snapshot, success: bool, now: int, later: int): Snapshot {
    if !Expired(config, s, now) then s
    else
      var half := Moved(s, HalfOpen).(failures := 0, successes := 0);
      if success then
        var ok := half.(successes := 1, successRequests := s.successRequests + 1);
        if 1 >= config.successThreshold then Moved(ok, Closed) else ok
      else Opened(half, later).(failedRequests := s.failedRequests + 1)
  }

  function AfterRecord(config: Config, s: Snapshot, success: bool, now: int, later: int): Snapshot {
    match s.state
    case Closed => AfterRecordClosed(config, s, success, now)
    case Open => AfterRecordOpen(config, s, success, now, later)
    case HalfOpen => AfterRecordHalfOpen(config, s, success, now)
  }

  function AfterReset(s: Snapshot): Snapshot {
    s.(state := Closed, failures := 0, successes := 0)
  }

  class Breaker {
    const config: Config
    var state: State
    var failures: int
    var successes: int
    var lastFailTime: int
    var totalRequests: int
    var successRequests: int
    var failedRequests: int
    var stateChanges: int

    function View(): Snapshot
      reads this
    {
      Snapshot(state, failures, successes, lastFailTime, totalRequests, successRequests, failedRequests, stateChanges)
    }

    constructor (config: Config)
      ensures this.config == config && View() == INITIAL
    {
      this.config := config;
      state, failures, successes, lastFailTime := Closed, 0, 0, 0;
      totalRequests, successRequests, failedRequests, stateChanges := 0, 0, 0, 0;
    }

    /** `now` is the clock reading the method takes when it finds the breaker open. */
    method Allow(now: int) returns (allowed: bool)
      modifies this
      ensures allowed == Allowed(config, old(View()), now)
      ensures View() == AfterAllow(config, old(View()), now)
    {
      totalRequests := totalRequests + 1;
      match state {
        case Closed => return true;
        case Open =>
          var lastFail := lastFailTime;
          if now - lastFail >= config.timeout {
            TransitionTo(HalfOpen);
            return true;
          }
          return false;
        case HalfOpen => return true;
      }
    }

    /** `now` and `later` are the clock readings the method takes, in this order. */
    method Record(success: bool, now: int, later: int)
      modifies this
      ensures View() == AfterRecord(config, old(View()), success, now, later)
    {
      match state {
        case Closed =>
          if success {
            failures := 0;
            successRequests := successRequests + 1;
          } else {
            failures := Increment32(failures);
            failedRequests := failedRequests + 1;
            if failures >= config.failThreshold {
              lastFailTime := now;
              TransitionTo(Open);
            }
          }
        case Open =>
          var lastFail := lastFailTime;
          if now - lastFail >= config.timeout {
            TransitionTo(HalfOpen);
            failures := 0;
            successes := 0;
            if success {
              successes := Increment32(successes);
              successRequests := successRequests + 1;
              if successes >= config.successThreshold {
                TransitionTo(Closed);
              }
            } else {
              lastFailTime := later;
              TransitionTo(Open);
              failedRequests := failedRequests + 1;
            }
          }
        case HalfOpen =>
          if success {
            successes := Increment32(successes);
            successRequests := successRequests + 1;
            if successes >= config.successThreshold {
              TransitionTo(Closed);
              failures := 0;
              successes := 0;
            }
          } else {
            lastFailTime := now;
            TransitionTo(Open);
            successes := 0;
            failedRequests := failedRequests + 1;
          }
      }
    }

    method TransitionTo(newState: State)
      modifies this
      ensures View() == Moved(old(View()), newState)
    {
      state := newState;
      stateChanges := stateChanges + 1;
    }

    method Reset()
      modifies this
      ensures View() == AfterReset(old(View()))
    {
      state := Closed;
      failures := 0;
      successes := 0;
    }
  }
}
