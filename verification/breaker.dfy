/** The circuit breaker of the back-pressure component.  `call` holds its lock while admitting and
    again while settling, not while the user function runs, so a run interleaves those steps of any
    number of calls. */
module CircuitBreakers {

  datatype Mode = Closed | Open | HalfOpen
  datatype Config = Config(threshold: int, timeout: real, trialsNeeded: int)
  datatype Breaker = Breaker(mode: Mode, failures: int, lastFailure: real, trials: int)

  /** What the first critical section of `call` decides. */
  datatype Admission = IsOpen | LimitReached | Admitted(seen: Mode)

  const Fresh := Breaker(Closed, 0, 0.0, 0)

  /** `_get_state`: an open breaker whose timeout has passed turns half-open. */
  function Observed(cfg: Config, b: Breaker, now: real): Breaker {
    if b.mode.Open? && now - b.lastFailure >= cfg.timeout then b.(mode := HalfOpen, trials := 0) else b
  }

  function Admit(cfg: Config, b: Breaker, now: real): Admission {
    var o := Observed(cfg, b, now);
    if o.mode.Open? then IsOpen
    else if o.mode.HalfOpen? && o.trials >= cfg.trialsNeeded then LimitReached
    else Admitted(o.mode)
  }

  /** Settling a success of a call that was admitted in mode `seen`. */
  function Succeeded(cfg: Config, b: Breaker, seen: Mode): Breaker {
    if !seen.HalfOpen? then b.(failures := 0)
    else if b.trials + 1 >= cfg.trialsNeeded then Breaker(Closed, 0, b.lastFailure, b.trials + 1)
    else b.(trials := b.trials + 1)
  }

  function Failed(cfg: Config, b: Breaker, now: real): Breaker {
    b.(failures := b.failures + 1, lastFailure := now, mode := if b.failures + 1 >= cfg.threshold then Open else b.mode)
  }

  class CircuitBreaker {
    const cfg: Config
    var mode: Mode
    var failureCount: int
    var lastFailureTime: real
    var halfOpenSuccessCount: int

    constructor (cfg: Config)
      ensures this.cfg == cfg && mode == Closed && failureCount == 0 && lastFailureTime == 0.0 && halfOpenSuccessCount == 0
    {
      this.cfg := cfg;
      mode, failureCount, lastFailureTime, halfOpenSuccessCount := Closed, 0, 0.0, 0;
    }

    function View(): Breaker
      reads this
    {
      Breaker(mode, failureCount, lastFailureTime, halfOpenSuccessCount)
    }

    method GetState(now: real) returns (state: Mode)
      modifies this
      ensures View() == Observed(cfg, old(View()), now) && state == mode
    {
      if mode == Open && now - lastFailureTime >= cfg.timeout {
        mode := HalfOpen;
        halfOpenSuccessCount := 0;
      }
      return mode;
    }

    /** First critical section of `call`. */
    method Enter(now: real) returns (a: Admission)
      modifies this
      ensures View() == Observed(cfg, old(View()), now) && a == Admit(cfg, old(View()), now)
    {
      var state := GetState(now);
      if state == Open {
        return IsOpen;
      }
      if state == HalfOpen {
        if halfOpenSuccessCount >= cfg.trialsNeeded {
          return LimitReached;
        }
      }
      return Admitted(state);
    }

    /** Second critical section of `call`, on either outcome of the user function. */
    method Settle(seen: Mode, ok: bool, now: real)
      modifies this
      ensures View() == if ok then Succeeded(cfg, old(View()), seen) else Failed(cfg, old(View()), now)
    {
      if ok {
        if seen == HalfOpen {
          halfOpenSuccessCount := halfOpenSuccessCount + 1;
          if halfOpenSuccessCount >= cfg.trialsNeeded {
            mode := Closed;
            failureCount := 0;
          }
        } else {
          failureCount := 0;
        }
      } else {
        failureCount := failureCount + 1;
        lastFailureTime := now;
        if failureCount >= cfg.threshold {
          mode := Open;
        }
      }
    }

    /** A call that no other call overlaps. */
    method Call(start: real, ok: bool, end: real) returns (a: Admission)
      modifies this
      ensures a == Admit(cfg, old(View()), start)
      ensures View() == Alone(cfg, old(View()), Attempt(start, ok, end))
    {
      a := Enter(start);
      if a.Admitted? {
        Settle(a.seen, ok, end);
      }
    }
  }

  // ----- interleaved runs

  /** The breaker and the admitted calls not yet settled, by the mode they were admitted in. */
  datatype System = System(b: Breaker, inFlight: multiset<Mode>)

  datatype Event = Arrive(at: real) | Succeed(seen: Mode) | Fail(seen: Mode, at: real) | Stats(at: real)

  predicate Enabled(s: System, e: Event) {
    e.Succeed? || e.Fail? ==> e.seen in s.inFlight
  }

  function Step(cfg: Config, s: System, e: Event): System {
    match e
    case Arrive(at) =>
      var a := Admit(cfg, s.b, at);
      System(Observed(cfg, s.b, at), if a.Admitted? then s.inFlight + multiset{a.seen} else s.inFlight)
    case Succeed(seen) => System(Succeeded(cfg, s.b, seen), s.inFlight - multiset{seen})
    case Fail(seen, at) => System(Failed(cfg, s.b, at), s.inFlight - multiset{seen})
    case Stats(at) => s.(b := Observed(cfg, s.b, at))
  }

  function Run(cfg: Config, es: seq<Event>): System {
    if es == [] then System(Fresh, multiset{}) else Step(cfg, Run(cfg, es[..|es| - 1]), es[|es| - 1])
  }

  /** Every settlement in `es` belongs to a call in flight at that point. */
  predicate Feasible(cfg: Config, es: seq<Event>) {
    es == [] || (Feasible(cfg, es[..|es| - 1]) && Enabled(Run(cfg, es[..|es| - 1]), es[|es| - 1]))
  }

  ghost predicate Sensible(cfg: Config) {
    cfg.threshold >= 1 && cfg.trialsNeeded >= 1
  }

  ghost predicate Safe(cfg: Config, b: Breaker) {
    && 0 <= b.failures && 0 <= b.trials
    && (b.mode.Closed? ==> b.failures < cfg.threshold)
    && (b.mode.HalfOpen? ==> b.trials < cfg.trialsNeeded)
  }

  lemma {:induction false} StepKeepsSafe(cfg: Config, s: System, e: Event)
    requires Sensible(cfg) && Safe(cfg, s.b)
    ensures Safe(cfg, Step(cfg, s, e).b)
  {
    match e
    case Arrive(_) =>
    case Succeed(_) =>
    case Fail(_, _) =>
    case Stats(_) =>
  }

  lemma {:induction false} SafeNeverAtLimit(cfg: Config, b: Breaker, now: real)
    requires Sensible(cfg) && Safe(cfg, b)
    ensures Admit(cfg, b, now) != LimitReached
  {}

  /** Under every interleaving: closed means fewer failures than the threshold, half-open means
      fewer successes than needed, and so the HALF_OPEN-limit exception is never raised. */
  lemma {:induction false} AlwaysSafe(cfg: Config, es: seq<Event>)
    requires Sensible(cfg)
    ensures Safe(cfg, Run(cfg, es).b)
    ensures forall now :: Admit(cfg, Run(cfg, es).b, now) != LimitReached
  {
    if es != [] {
      AlwaysSafe(cfg, es[..|es| - 1]);
      StepKeepsSafe(cfg, Run(cfg, es[..|es| - 1]), es[|es| - 1]);
    }
    forall now ensures Admit(cfg, Run(cfg, es).b, now) != LimitReached {
      SafeNeverAtLimit(cfg, Run(cfg, es).b, now);
    }
  }

  // ----- the state of the breaker, read off the events

  /** When the last failure in `es` happened; zero if none has. */
  function LastFail(es: seq<Event>): real {
    if es == [] then 0.0
    else if es[|es| - 1].Fail? then es[|es| - 1].at else LastFail(es[..|es| - 1])
  }

  lemma {:induction false} StepLastFailure(cfg: Config, s: System, e: Event)
    ensures Step(cfg, s, e).b.lastFailure == if e.Fail? then e.at else s.b.lastFailure
  {}

  lemma {:induction false} StepFailures(cfg: Config, s: System, e: Event)
    ensures Step(cfg, s, e).b.failures ==
      if e.Fail? then s.b.failures + 1
      else if e.Succeed? && (e.seen != HalfOpen || s.b.trials + 1 >= cfg.trialsNeeded) then 0
      else s.b.failures
  {}

  lemma {:induction false} StepTrials(cfg: Config, s: System, e: Event)
    ensures Step(cfg, s, e).b.trials ==
      if (e.Arrive? || e.Stats?) && s.b.mode == Open && e.at - s.b.lastFailure >= cfg.timeout then 0
      else s.b.trials + if e == Succeed(HalfOpen) then 1 else 0
  {}

  lemma {:induction false} StepMode(cfg: Config, s: System, e: Event)
    ensures Step(cfg, s, e).b.mode ==
      if e.Fail? && s.b.failures + 1 >= cfg.threshold then Open
      else if e == Succeed(HalfOpen) && s.b.trials + 1 >= cfg.trialsNeeded then Closed
      else if (e.Arrive? || e.Stats?) && s.b.mode == Open && e.at - s.b.lastFailure >= cfg.timeout then HalfOpen
      else s.b.mode
  {}

  /** Every failure restarts the timeout, in whatever mode it lands. */
  lemma {:induction false} LastFailureIsLastFail(cfg: Config, es: seq<Event>)
    ensures Run(cfg, es).b.lastFailure == LastFail(es)
  {
    if es != [] {
      var init, e := es[..|es| - 1], es[|es| - 1];
      LastFailureIsLastFail(cfg, init);
      StepLastFailure(cfg, Run(cfg, init), e);
      assert Run(cfg, es) == Step(cfg, Run(cfg, init), e);
    }
  }

  /** Under every interleaving a call is refused exactly while the breaker is open and less than the
      timeout has passed since the last failure of any call; otherwise it is admitted as a trial or,
      if the breaker is closed, as an ordinary call. */
  lemma {:induction false} AdmitsExactly(cfg: Config, es: seq<Event>, now: real)
    requires Sensible(cfg)
    ensures var mode, a := Run(cfg, es).b.mode, Admit(cfg, Run(cfg, es).b, now);
      && (a == IsOpen <==> mode == Open && now - LastFail(es) < cfg.timeout)
      && (a == Admitted(Closed) <==> mode == Closed)
      && (a == Admitted(HalfOpen) <==> mode == HalfOpen || (mode == Open && now - LastFail(es) >= cfg.timeout))
  {
    AlwaysSafe(cfg, es);
    LastFailureIsLastFail(cfg, es);
    assert Admit(cfg, Run(cfg, es).b, now) != LimitReached;
  }

  /** How many of the events i, ..., j - 1 are failures. */
  function FailsIn(es: seq<Event>, i: nat, j: nat): nat
    requires i <= j <= |es|
    decreases j
  {
    if i == j then 0 else FailsIn(es, i, j - 1) + if es[j - 1].Fail? then 1 else 0
  }

  /** How many of them are trials that succeed. */
  function WonTrialsIn(es: seq<Event>, i: nat, j: nat): nat
    requires i <= j <= |es|
    decreases j
  {
    if i == j then 0 else WonTrialsIn(es, i, j - 1) + if es[j - 1] == Succeed(HalfOpen) then 1 else 0
  }

  /** The two counts after the first `k` events. */
  function FailuresAt(cfg: Config, es: seq<Event>, k: nat): int
    requires k <= |es|
  {
    Run(cfg, es[..k]).b.failures
  }

  function TrialsAt(cfg: Config, es: seq<Event>, k: nat): int
    requires k <= |es|
  {
    Run(cfg, es[..k]).b.trials
  }

  /** A success that forgets the failures: of a call admitted while closed, or of the last trial needed. */
  predicate Resets(cfg: Config, es: seq<Event>, k: nat)
    requires k < |es|
  {
    es[k].Succeed? && (es[k].seen != HalfOpen || Run(cfg, es[..k]).b.trials + 1 >= cfg.trialsNeeded)
  }

  /** A look at an open breaker, by a call or by the statistics, when its timeout has passed. */
  predicate Turns(cfg: Config, es: seq<Event>, k: nat)
    requires k < |es|
  {
    (es[k].Arrive? || es[k].Stats?) && Run(cfg, es[..k]).b.mode == Open && es[k].at - LastFail(es[..k]) >= cfg.timeout
  }

  /** A failure adds one, a reset zeroes the count. */
  lemma {:induction false} FailureStep(cfg: Config, es: seq<Event>, k: nat)
    requires k < |es|
    ensures FailuresAt(cfg, es, k + 1)
      == if es[k].Fail? then FailuresAt(cfg, es, k) + 1 else if Resets(cfg, es, k) then 0 else FailuresAt(cfg, es, k)
  {
    RunStep(cfg, es, k);
    StepFailures(cfg, Run(cfg, es[..k]), es[k]);
  }

  lemma {:induction false} FailsAddUp(xs: seq<int>, es: seq<Event>, i: nat, j: nat)
    requires i <= j <= |es| && |xs| == |es| + 1
    requires forall k :: i <= k < j ==> xs[k + 1] == xs[k] + if es[k].Fail? then 1 else 0
    ensures xs[j] == xs[i] + FailsIn(es, i, j)
    decreases j
  {
    if i < j {
      FailsAddUp(xs, es, i, j - 1);
      assert xs[j - 1 + 1] == xs[j - 1] + if es[j - 1].Fail? then 1 else 0;
    }
  }

  /** Between resets the failure count grows by one with each failure, in every mode. */
  lemma {:induction false} FailuresCounted(cfg: Config, es: seq<Event>, i: nat, j: nat)
    requires i <= j <= |es| && forall k :: i <= k < j ==> !Resets(cfg, es, k)
    ensures FailuresAt(cfg, es, j) == FailuresAt(cfg, es, i) + FailsIn(es, i, j)
  {
    var xs := seq(|es| + 1, k requires 0 <= k <= |es| => FailuresAt(cfg, es, k));
    forall k | i <= k < j ensures xs[k + 1] == xs[k] + if es[k].Fail? then 1 else 0 {
      FailureStep(cfg, es, k);
    }
    FailsAddUp(xs, es, i, j);
  }

  /** A trial that succeeds adds one, a turn zeroes the count. */
  lemma {:induction false} TrialStep(cfg: Config, es: seq<Event>, k: nat)
    requires k < |es|
    ensures TrialsAt(cfg, es, k + 1)
      == if Turns(cfg, es, k) then 0 else TrialsAt(cfg, es, k) + if es[k] == Succeed(HalfOpen) then 1 else 0
  {
    RunStep(cfg, es, k);
    LastFailureIsLastFail(cfg, es[..k]);
    StepTrials(cfg, Run(cfg, es[..k]), es[k]);
  }

  lemma {:induction false} WonTrialsAddUp(xs: seq<int>, es: seq<Event>, i: nat, j: nat)
    requires i <= j <= |es| && |xs| == |es| + 1
    requires forall k :: i <= k < j ==> xs[k + 1] == xs[k] + if es[k] == Succeed(HalfOpen) then 1 else 0
    ensures xs[j] == xs[i] + WonTrialsIn(es, i, j)
    decreases j
  {
    if i < j {
      WonTrialsAddUp(xs, es, i, j - 1);
      assert xs[j - 1 + 1] == xs[j - 1] + if es[j - 1] == Succeed(HalfOpen) then 1 else 0;
    }
  }

  /** Between turns the success count grows by one with each trial that succeeds, in every mode. */
  lemma {:induction false} TrialsCounted(cfg: Config, es: seq<Event>, i: nat, j: nat)
    requires i <= j <= |es| && forall k :: i <= k < j ==> !Turns(cfg, es, k)
    ensures TrialsAt(cfg, es, j) == TrialsAt(cfg, es, i) + WonTrialsIn(es, i, j)
  {
    var xs := seq(|es| + 1, k requires 0 <= k <= |es| => TrialsAt(cfg, es, k));
    forall k | i <= k < j ensures xs[k + 1] == xs[k] + if es[k] == Succeed(HalfOpen) then 1 else 0 {
      TrialStep(cfg, es, k);
    }
    WonTrialsAddUp(xs, es, i, j);
  }

  /** What makes the breaker change its mode; nothing else does. */
  lemma {:induction false} ModeChanges(cfg: Config, es: seq<Event>, k: nat)
    requires k < |es|
    ensures var b := Run(cfg, es[..k]).b;
      Run(cfg, es[..k + 1]).b.mode ==
        if es[k].Fail? && b.failures + 1 >= cfg.threshold then Open
        else if es[k] == Succeed(HalfOpen) && b.trials + 1 >= cfg.trialsNeeded then Closed
        else if Turns(cfg, es, k) then HalfOpen
        else b.mode
  {
    RunStep(cfg, es, k);
    LastFailureIsLastFail(cfg, es[..k]);
    StepMode(cfg, Run(cfg, es[..k]), es[k]);
  }

  // ----- when one half-open failure reopens

  /** A success of a call admitted while closed, landing while the breaker is not closed. */
  predicate StaleSuccess(cfg: Config, es: seq<Event>, i: nat)
    requires i < |es|
  {
    es[i] == Succeed(Closed) && !Run(cfg, es[..i]).b.mode.Closed?
  }

  /** Open and half-open breakers carry at least `threshold` failures, so the next failure reopens. */
  predicate Primed(cfg: Config, b: Breaker) {
    !b.mode.Closed? ==> b.failures >= cfg.threshold
  }

  lemma {:induction false} RunStep(cfg: Config, es: seq<Event>, i: nat)
    requires i < |es|
    ensures Run(cfg, es[..i + 1]) == Step(cfg, Run(cfg, es[..i]), es[i])
    ensures Feasible(cfg, es[..i + 1]) ==> Enabled(Run(cfg, es[..i]), es[i])
  {
    assert es[..i + 1][..i] == es[..i];
  }

  lemma {:induction false} FeasiblePrefix(cfg: Config, es: seq<Event>, i: nat)
    requires Feasible(cfg, es) && i <= |es|
    ensures Feasible(cfg, es[..i])
    decreases |es|
  {
    if i < |es| {
      FeasiblePrefix(cfg, es[..|es| - 1], i);
      assert es[..|es| - 1][..i] == es[..i];
    } else {
      assert es[..i] == es;
    }
  }

  /** A step keeps the breaker primed, and keeps `Open` out of the modes in flight, unless it is a
      stale success. */
  lemma {:induction false} StepKeepsPrimed(cfg: Config, s: System, e: Event)
    requires Sensible(cfg) && Primed(cfg, s.b) && Open !in s.inFlight && Enabled(s, e)
    requires e == Succeed(Closed) ==> s.b.mode.Closed?
    ensures Primed(cfg, Step(cfg, s, e).b)
  {
    match e
    case Arrive(_) =>
    case Succeed(seen) => assert seen != Open;
    case Fail(_, _) =>
    case Stats(_) =>
  }

  lemma {:induction false} StepKeepsOpenOut(cfg: Config, s: System, e: Event)
    requires Open !in s.inFlight
    ensures Open !in Step(cfg, s, e).inFlight
  {
    match e
    case Arrive(at) => assert Admit(cfg, s.b, at) != Admitted(Open);
    case Succeed(_) =>
    case Fail(_, _) =>
    case Stats(_) =>
  }

  lemma {:induction false} NoOpenInFlight(cfg: Config, es: seq<Event>, i: nat)
    requires Feasible(cfg, es) && i <= |es|
    ensures Open !in Run(cfg, es[..i]).inFlight
  {
    if i > 0 {
      NoOpenInFlight(cfg, es, i - 1);
      RunStep(cfg, es, i - 1);
      StepKeepsOpenOut(cfg, Run(cfg, es[..i - 1]), es[i - 1]);
    }
  }

  lemma {:induction false} PrimedWithoutStale(cfg: Config, es: seq<Event>, i: nat)
    requires Sensible(cfg) && Feasible(cfg, es) && i <= |es|
    requires forall j :: 0 <= j < i ==> !StaleSuccess(cfg, es, j)
    ensures Primed(cfg, Run(cfg, es[..i]).b)
  {
    if i > 0 {
      PrimedWithoutStale(cfg, es, i - 1);
      NoOpenInFlight(cfg, es, i - 1);
      FeasiblePrefix(cfg, es, i);
      RunStep(cfg, es, i - 1);
      assert !StaleSuccess(cfg, es, i - 1);
      StepKeepsPrimed(cfg, Run(cfg, es[..i - 1]), es[i - 1]);
    }
  }

  /** Along a run the breaker stays primed exactly when no stale success lands. */
  lemma {:induction false} PrimedExactly(cfg: Config, es: seq<Event>)
    requires Sensible(cfg) && Feasible(cfg, es)
    ensures (forall i :: 0 <= i <= |es| ==> Primed(cfg, Run(cfg, es[..i]).b)) <==>
      (forall i :: 0 <= i < |es| ==> !StaleSuccess(cfg, es, i))
  {
    if i :| 0 <= i < |es| && StaleSuccess(cfg, es, i) {
      RunStep(cfg, es, i);
      assert !Primed(cfg, Run(cfg, es[..i + 1]).b);
    } else {
      forall i | 0 <= i <= |es| ensures Primed(cfg, Run(cfg, es[..i]).b) {
        PrimedWithoutStale(cfg, es, i);
      }
    }
  }

  /** The next failure reaches the threshold. */
  predicate OneFromTrip(cfg: Config, b: Breaker) {
    b.failures + 1 >= cfg.threshold
  }

  /** Along a run the next failure reaches the threshold whenever the breaker is not closed, exactly
      when one failure always does, or no stale success lands. */
  lemma {:induction false} OneFromTripExactly(cfg: Config, es: seq<Event>)
    requires Sensible(cfg) && Feasible(cfg, es)
    ensures (forall i :: 0 <= i <= |es| && !Run(cfg, es[..i]).b.mode.Closed? ==> OneFromTrip(cfg, Run(cfg, es[..i]).b)) <==>
      (cfg.threshold == 1 || forall i :: 0 <= i < |es| ==> !StaleSuccess(cfg, es, i))
  {
    if cfg.threshold == 1 {
      forall i | 0 <= i <= |es| ensures OneFromTrip(cfg, Run(cfg, es[..i]).b) {
        AlwaysSafe(cfg, es[..i]);
      }
    } else if i :| 0 <= i < |es| && StaleSuccess(cfg, es, i) {
      RunStep(cfg, es, i);
      assert !OneFromTrip(cfg, Run(cfg, es[..i + 1]).b);
    } else {
      PrimedExactly(cfg, es);
    }
  }

  // ----- what overlapping calls can do, under any configuration

  /** The clock of a run never goes back. */
  ghost predicate Ordered(es: seq<Event>) {
    forall i, j :: 0 <= i < j < |es| && !es[i].Succeed? && !es[j].Succeed? ==> es[i].at <= es[j].at
  }

  ghost predicate UpTo(es: seq<Event>, t: real) {
    forall e :: e in es && !e.Succeed? ==> e.at <= t
  }

  /** A run of possible steps on a clock that never goes back, up to `t`, ends in the system `s`. */
  ghost predicate Reaches(cfg: Config, es: seq<Event>, t: real, s: System) {
    Feasible(cfg, es) && Ordered(es) && UpTo(es, t) && Run(cfg, es) == s
  }

  lemma {:induction false} Unroll(cfg: Config, es: seq<Event>, e: Event)
    ensures Run(cfg, es + [e]) == Step(cfg, Run(cfg, es), e)
    ensures Feasible(cfg, es + [e]) <==> Feasible(cfg, es) && Enabled(Run(cfg, es), e)
  {
    assert (es + [e])[..|es|] == es;
  }

  lemma {:induction false} ReachesNext(cfg: Config, es: seq<Event>, t: real, s: System, e: Event, t': real)
    returns (longer: seq<Event>)
    requires Reaches(cfg, es, t, s) && t <= t' && Enabled(s, e) && (!e.Succeed? ==> e.at == t')
    ensures longer == es + [e] && Reaches(cfg, longer, t', Step(cfg, s, e))
  {
    longer := es + [e];
    Unroll(cfg, es, e);
  }

  /** So many calls in flight that were admitted while closed, and so many trials. */
  function InFlight(early: nat, trials: nat): multiset<Mode> {
    multiset{}[Closed := early][HalfOpen := trials]
  }

  lemma {:induction false} InFlightMoves(early: nat, trials: nat)
    ensures InFlight(early, trials) + multiset{Closed} == InFlight(early + 1, trials)
    ensures InFlight(early, trials) + multiset{HalfOpen} == InFlight(early, trials + 1)
    ensures InFlight(early + 1, trials) - multiset{Closed} == InFlight(early, trials)
    ensures InFlight(early, trials + 1) - multiset{HalfOpen} == InFlight(early, trials)
    ensures Closed in InFlight(early + 1, trials) && HalfOpen in InFlight(early, trials + 1)
  {}

  lemma {:induction false} EarlyArrives(cfg: Config, n: nat)
    requires Sensible(cfg)
    ensures Step(cfg, System(Fresh, InFlight(n, 0)), Arrive(0.0)) == System(Fresh, InFlight(n + 1, 0))
  {
    InFlightMoves(n, 0);
  }

  lemma {:induction false} Arrivals(cfg: Config, n: nat) returns (es: seq<Event>)
    requires Sensible(cfg)
    ensures Reaches(cfg, es, 0.0, System(Fresh, InFlight(n, 0)))
  {
    if n == 0 {
      es := [];
      assert InFlight(0, 0) == multiset{};
    } else {
      var init := Arrivals(cfg, n - 1);
      es := OneMoreArrival(cfg, init, n - 1);
    }
  }

  lemma {:induction false} OneMoreArrival(cfg: Config, init: seq<Event>, n: nat) returns (es: seq<Event>)
    requires Sensible(cfg) && Reaches(cfg, init, 0.0, System(Fresh, InFlight(n, 0)))
    ensures Reaches(cfg, es, 0.0, System(Fresh, InFlight(n + 1, 0)))
  {
    EarlyArrives(cfg, n);
    es := ReachesNext(cfg, init, 0.0, System(Fresh, InFlight(n, 0)), Arrive(0.0), 0.0);
  }

  /** After `k` failures at zero, with `extra` calls still running. */
  function Tripping(cfg: Config, extra: nat, k: nat): System {
    System(Breaker(if k == cfg.threshold then Open else Closed, k, 0.0, 0), InFlight(extra, 0))
  }

  lemma {:induction false} EarlyFails(cfg: Config, extra: nat, k: nat)
    requires Sensible(cfg) && k < cfg.threshold
    ensures Enabled(Tripping(cfg, extra + 1, k), Fail(Closed, 0.0))
    ensures Step(cfg, Tripping(cfg, extra + 1, k), Fail(Closed, 0.0)) == Tripping(cfg, extra, k + 1)
  {
    InFlightMoves(extra, 0);
  }

  lemma {:induction false} FailuresNext(cfg: Config, init: seq<Event>, extra: nat, k: nat) returns (es: seq<Event>)
    requires Sensible(cfg) && k < cfg.threshold && Reaches(cfg, init, 0.0, Tripping(cfg, extra + 1, k))
    ensures Reaches(cfg, es, 0.0, Tripping(cfg, extra, k + 1))
  {
    EarlyFails(cfg, extra, k);
    es := ReachesNext(cfg, init, 0.0, Tripping(cfg, extra + 1, k), Fail(Closed, 0.0), 0.0);
  }

  lemma {:induction false} Failures(cfg: Config, extra: nat, k: nat) returns (es: seq<Event>)
    requires Sensible(cfg) && k <= cfg.threshold
    ensures Reaches(cfg, es, 0.0, Tripping(cfg, extra, k))
    decreases k
  {
    if k == 0 {
      es := Arrivals(cfg, extra);
    } else {
      var init := Failures(cfg, extra + 1, k - 1);
      es := FailuresNext(cfg, init, extra, k - 1);
    }
  }

  /** When a breaker that tripped at zero may be tried again. */
  function RetryTime(cfg: Config): real {
    if cfg.timeout > 0.0 then cfg.timeout else 0.0
  }

  /** Half-open with `trials` trials, and `early` calls from before the trip, all still running. */
  function Probed(cfg: Config, early: nat, trials: nat): System {
    System(Breaker(HalfOpen, cfg.threshold, 0.0, 0), InFlight(early, trials))
  }

  lemma {:induction false} TrialArrives(cfg: Config, early: nat, trials: nat, mode: Mode)
    requires Sensible(cfg) && (mode == Open || mode == HalfOpen)
    ensures var s := System(Breaker(mode, cfg.threshold, 0.0, 0), InFlight(early, trials));
      Step(cfg, s, Arrive(RetryTime(cfg))) == Probed(cfg, early, trials + 1)
  {
    InFlightMoves(early, trials);
  }

  lemma {:induction false} Trials(cfg: Config, early: nat, trials: nat) returns (es: seq<Event>)
    requires Sensible(cfg) && trials >= 1
    ensures Reaches(cfg, es, RetryTime(cfg), Probed(cfg, early, trials))
    decreases trials
  {
    if trials == 1 {
      var init := Failures(cfg, early, cfg.threshold);
      TrialArrives(cfg, early, 0, Open);
      es := ReachesNext(cfg, init, 0.0, Tripping(cfg, early, cfg.threshold), Arrive(RetryTime(cfg)), RetryTime(cfg));
    } else {
      var init := Trials(cfg, early, trials - 1);
      TrialArrives(cfg, early, trials - 1, HalfOpen);
      es := ReachesNext(cfg, init, RetryTime(cfg), Probed(cfg, early, trials - 1), Arrive(RetryTime(cfg)), RetryTime(cfg));
    }
  }

  /** The half-open limit counts successes, not admissions: under every configuration any number of
      trials can be in flight. */
  lemma {:induction false} HalfOpenAdmitsAnyNumber(cfg: Config, n: nat) returns (es: seq<Event>)
    requires Sensible(cfg) && n >= 1
    ensures Feasible(cfg, es) && Ordered(es)
    ensures Run(cfg, es).b.mode.HalfOpen? && Run(cfg, es).inFlight == multiset{}[HalfOpen := n]
  {
    es := Trials(cfg, 0, n);
    assert InFlight(0, n) == multiset{}[HalfOpen := n];
  }

  /** The last event is a failure that lands while half-open and does not reopen. */
  ghost predicate FailsToReopen(cfg: Config, es: seq<Event>) {
    && es != [] && es[|es| - 1].Fail?
    && Run(cfg, es[..|es| - 1]).b.mode.HalfOpen? && !Run(cfg, es).b.mode.Open?
  }

  lemma {:induction false} StaleSuccessLands(cfg: Config)
    requires Sensible(cfg)
    ensures Enabled(Probed(cfg, 1, 1), Succeed(Closed))
    ensures Step(cfg, Probed(cfg, 1, 1), Succeed(Closed)) == System(Breaker(HalfOpen, 0, 0.0, 0), InFlight(0, 1))
    ensures HalfOpen in InFlight(0, 1)
  {
    InFlightMoves(0, 1);
    InFlightMoves(0, 0);
  }

  /** With a threshold above one, a late success from before the trip lets a half-open failure pass. */
  lemma {:induction false} OverlapDefeatsReopening(cfg: Config) returns (es: seq<Event>)
    requires Sensible(cfg) && cfg.threshold > 1
    ensures Feasible(cfg, es) && Ordered(es) && FailsToReopen(cfg, es)
  {
    var t := RetryTime(cfg);
    var init := Trials(cfg, 1, 1);
    StaleSuccessLands(cfg);
    var stale := ReachesNext(cfg, init, t, Probed(cfg, 1, 1), Succeed(Closed), t);
    es := ReachesNext(cfg, stale, t, System(Breaker(HalfOpen, 0, 0.0, 0), InFlight(0, 1)), Fail(HalfOpen, t), t);
    assert es[..|es| - 1] == stale;
  }

  /** One half-open failure reopens the breaker in every run exactly under a threshold of one. */
  lemma {:induction false} HalfOpenFailureReopensExactly(cfg: Config)
    requires Sensible(cfg)
    ensures (forall es :: Feasible(cfg, es) && Ordered(es) ==> !FailsToReopen(cfg, es)) <==> cfg.threshold == 1
  {
    if cfg.threshold == 1 {
      forall es | Feasible(cfg, es) && Ordered(es) ensures !FailsToReopen(cfg, es) {
        if es != [] {
          AlwaysSafe(cfg, es[..|es| - 1]);
        }
      }
    } else {
      var es := OverlapDefeatsReopening(cfg);
    }
  }

  /** A trial succeeds as the last one needed while the breaker is open. */
  predicate LateTrial(cfg: Config, es: seq<Event>, i: nat)
    requires i < |es|
  {
    var b := Run(cfg, es[..i]).b;
    es[i] == Succeed(HalfOpen) && b.mode.Open? && b.trials + 1 >= cfg.trialsNeeded
  }

  lemma {:induction false} ClosesWhileOpen(cfg: Config, es: seq<Event>, i: nat)
    requires i < |es|
    ensures Run(cfg, es[..i]).b.mode.Open? && Run(cfg, es[..i + 1]).b.mode.Closed? <==> LateTrial(cfg, es, i)
  {
    RunStep(cfg, es, i);
  }

  /** Along a run an open breaker is never closed directly exactly when no such trial lands. */
  lemma {:induction false} OpenStaysOpenExactly(cfg: Config, es: seq<Event>)
    ensures (forall i :: 0 <= i < |es| && Run(cfg, es[..i]).b.mode.Open? ==> !Run(cfg, es[..i + 1]).b.mode.Closed?) <==>
      (forall i :: 0 <= i < |es| ==> !LateTrial(cfg, es, i))
  {
    if i :| 0 <= i < |es| && LateTrial(cfg, es, i) {
      ClosesWhileOpen(cfg, es, i);
    } else {
      forall i | 0 <= i < |es| && Run(cfg, es[..i]).b.mode.Open? ensures !Run(cfg, es[..i + 1]).b.mode.Closed? {
        ClosesWhileOpen(cfg, es, i);
      }
    }
  }

  /** Reopened by one failed trial; `k` others have succeeded since, and `left` are still running. */
  function Reopened(cfg: Config, k: nat, left: nat): System {
    System(Breaker(Open, cfg.threshold + 1, RetryTime(cfg), k), InFlight(0, left))
  }

  lemma {:induction false} TrialFails(cfg: Config, left: nat)
    requires Sensible(cfg)
    ensures Enabled(Probed(cfg, 0, left + 1), Fail(HalfOpen, RetryTime(cfg)))
    ensures Step(cfg, Probed(cfg, 0, left + 1), Fail(HalfOpen, RetryTime(cfg))) == Reopened(cfg, 0, left)
  {
    InFlightMoves(0, left);
  }

  lemma {:induction false} LateTrialStep(cfg: Config, k: nat, left: nat)
    requires Sensible(cfg)
    ensures Enabled(Reopened(cfg, k, left + 1), Succeed(HalfOpen))
    ensures k + 1 < cfg.trialsNeeded ==> Step(cfg, Reopened(cfg, k, left + 1), Succeed(HalfOpen)) == Reopened(cfg, k + 1, left)
  {
    InFlightMoves(0, left);
  }

  lemma {:induction false} LateTrials(cfg: Config, k: nat, left: nat) returns (es: seq<Event>)
    requires Sensible(cfg) && k < cfg.trialsNeeded
    ensures Reaches(cfg, es, RetryTime(cfg), Reopened(cfg, k, left))
    decreases k
  {
    var t := RetryTime(cfg);
    if k == 0 {
      var init := Trials(cfg, 0, left + 1);
      TrialFails(cfg, left);
      es := ReachesNext(cfg, init, t, Probed(cfg, 0, left + 1), Fail(HalfOpen, t), t);
    } else {
      var init := LateTrials(cfg, k - 1, left + 1);
      LateTrialStep(cfg, k - 1, left);
      es := ReachesNext(cfg, init, t, Reopened(cfg, k - 1, left + 1), Succeed(HalfOpen), t);
    }
  }

  /** Under every configuration trials that succeed after another trial failed can close an open
      breaker, before the clock has moved on from that failure. */
  lemma {:induction false} StaleTrialClosesOpen(cfg: Config) returns (es: seq<Event>)
    requires Sensible(cfg)
    ensures Feasible(cfg, es) && Ordered(es) && es != [] && LateTrial(cfg, es, |es| - 1) && Run(cfg, es).b.mode.Closed?
    ensures UpTo(es, Run(cfg, es[..|es| - 1]).b.lastFailure)
  {
    var t, last := RetryTime(cfg), Reopened(cfg, cfg.trialsNeeded - 1, 1);
    var init := LateTrials(cfg, cfg.trialsNeeded - 1, 1);
    LateTrialStep(cfg, cfg.trialsNeeded - 1, 0);
    LastTrialCloses(cfg);
    es := ReachesNext(cfg, init, t, last, Succeed(HalfOpen), t);
    EndsWith(cfg, init, es, t, last, Succeed(HalfOpen));
  }

  lemma {:induction false} LastTrialCloses(cfg: Config)
    requires Sensible(cfg)
    ensures var last := Reopened(cfg, cfg.trialsNeeded - 1, 1);
      && last.b.mode.Open? && last.b.trials + 1 >= cfg.trialsNeeded && last.b.lastFailure == RetryTime(cfg)
      && Step(cfg, last, Succeed(HalfOpen)).b.mode.Closed?
  {}

  lemma {:induction false} EndsWith(cfg: Config, init: seq<Event>, es: seq<Event>, t: real, last: System, e: Event)
    requires Reaches(cfg, init, t, last) && es == init + [e] && Reaches(cfg, es, t, Step(cfg, last, e))
    ensures es[..|es| - 1] == init && es[|es| - 1] == e && Run(cfg, es[..|es| - 1]) == last && Run(cfg, es) == Step(cfg, last, e)
    ensures Feasible(cfg, es) && Ordered(es) && UpTo(es, t)
  {
    assert es[..|es| - 1] == init;
  }

  // ----- calls that do not overlap refine a three-state counter machine

  datatype Attempt = Attempt(start: real, ok: bool, end: real)

  function Alone(cfg: Config, b: Breaker, c: Attempt): Breaker {
    var o, a := Observed(cfg, b, c.start), Admit(cfg, b, c.start);
    if !a.Admitted? then o else if c.ok then Succeeded(cfg, o, a.seen) else Failed(cfg, o, c.end)
  }

  /** Serving: failures in a row.  Tripped: since when.  Probing: successes in a row. */
  datatype Spec = Serving(failures: nat) | Tripped(since: real) | Probing(successes: nat)

  function SpecCall(cfg: Config, s: Spec, c: Attempt): Spec {
    match s
    case Serving(k) => if c.ok then Serving(0) else if k + 1 >= cfg.threshold then Tripped(c.end) else Serving(k + 1)
    case Probing(k) => if !c.ok then Tripped(c.end) else if k + 1 >= cfg.trialsNeeded then Serving(0) else Probing(k + 1)
    case Tripped(since) =>
      if c.start - since < cfg.timeout then s
      else if !c.ok then Tripped(c.end) else if 1 >= cfg.trialsNeeded then Serving(0) else Probing(1)
  }

  predicate SpecRefuses(cfg: Config, s: Spec, c: Attempt) {
    s.Tripped? && c.start - s.since < cfg.timeout
  }

  function AfterCalls(cfg: Config, cs: seq<Attempt>): Breaker {
    if cs == [] then Fresh else Alone(cfg, AfterCalls(cfg, cs[..|cs| - 1]), cs[|cs| - 1])
  }

  function SpecAfter(cfg: Config, cs: seq<Attempt>): Spec {
    if cs == [] then Serving(0) else SpecCall(cfg, SpecAfter(cfg, cs[..|cs| - 1]), cs[|cs| - 1])
  }

  function Abstract(b: Breaker): Spec
    requires b.failures >= 0 && b.trials >= 0
  {
    match b.mode
    case Closed => Serving(b.failures)
    case Open => Tripped(b.lastFailure)
    case HalfOpen => Probing(b.trials)
  }

  /** Over every sequential run the breaker is primed, its state abstracts to the machine's, and it
      refuses a call exactly when the machine does. */
  lemma {:induction false} SequentialRefines(cfg: Config, cs: seq<Attempt>, c: Attempt)
    requires Sensible(cfg)
    ensures Safe(cfg, AfterCalls(cfg, cs)) && Primed(cfg, AfterCalls(cfg, cs))
    ensures Abstract(AfterCalls(cfg, cs)) == SpecAfter(cfg, cs)
    ensures Admit(cfg, AfterCalls(cfg, cs), c.start).Admitted? <==> !SpecRefuses(cfg, SpecAfter(cfg, cs), c)
  {
    if cs != [] {
      SequentialRefines(cfg, cs[..|cs| - 1], cs[|cs| - 1]);
    }
  }

  function SpecRun(cfg: Config, s: Spec, cs: seq<Attempt>): Spec {
    if cs == [] then s else SpecCall(cfg, SpecRun(cfg, s, cs[..|cs| - 1]), cs[|cs| - 1])
  }

  /** Recovery: after the timeout, the breaker closes with the trialsNeeded-th success in a row, not
      before. */
  lemma {:induction false} RecoveryTakesExactlyTrials(cfg: Config, since: real, cs: seq<Attempt>)
    requires Sensible(cfg) && 1 <= |cs| <= cfg.trialsNeeded
    requires cs[0].start - since >= cfg.timeout && forall c :: c in cs ==> c.ok
    ensures SpecRun(cfg, Tripped(since), cs) == if |cs| < cfg.trialsNeeded then Probing(|cs|) else Serving(0)
  {
    if |cs| > 1 {
      assert cs[..|cs| - 1][0] == cs[0];
      RecoveryTakesExactlyTrials(cfg, since, cs[..|cs| - 1]);
    }
    assert cs[|cs| - 1].ok;
  }

  /** Tripping: a serving breaker opens with the threshold-th failure in a row, not before. */
  lemma {:induction false} TrippingTakesExactlyThreshold(cfg: Config, cs: seq<Attempt>)
    requires Sensible(cfg) && |cs| <= cfg.threshold && forall c :: c in cs ==> !c.ok
    ensures SpecRun(cfg, Serving(0), cs) == if |cs| < cfg.threshold then Serving(|cs|) else Tripped(cs[|cs| - 1].end)
  {
    if cs != [] {
      TrippingTakesExactlyThreshold(cfg, cs[..|cs| - 1]);
      assert !cs[|cs| - 1].ok;
    }
  }

  lemma {:induction false} SpecContinues(cfg: Config, before: seq<Attempt>, cs: seq<Attempt>)
    ensures SpecAfter(cfg, before + cs) == SpecRun(cfg, SpecAfter(cfg, before), cs)
  {
    if cs == [] {
      assert before + cs == before;
    } else {
      assert (before + cs)[..|before + cs| - 1] == before + cs[..|cs| - 1];
      SpecContinues(cfg, before, cs[..|cs| - 1]);
    }
  }

  /** After any sequential history that left the breaker open: once the timeout has passed, a run of
      successes leaves it half-open until the trialsNeeded-th, which closes it. */
  lemma {:induction false} OpenBreakerRecovers(cfg: Config, before: seq<Attempt>, cs: seq<Attempt>)
    requires Sensible(cfg) && 1 <= |cs| <= cfg.trialsNeeded && forall c :: c in cs ==> c.ok
    requires AfterCalls(cfg, before).mode.Open? && cs[0].start - AfterCalls(cfg, before).lastFailure >= cfg.timeout
    ensures AfterCalls(cfg, before + cs).mode == if |cs| < cfg.trialsNeeded then HalfOpen else Closed
    ensures |cs| == cfg.trialsNeeded ==> AfterCalls(cfg, before + cs).failures == 0
  {
    SequentialRefines(cfg, before, cs[0]);
    SequentialRefines(cfg, before + cs, cs[0]);
    SpecContinues(cfg, before, cs);
    RecoveryTakesExactlyTrials(cfg, AfterCalls(cfg, before).lastFailure, cs);
  }

  /** After any sequential history, one failed trial opens the breaker again. */
  lemma {:induction false} FailedTrialReopens(cfg: Config, before: seq<Attempt>, c: Attempt)
    requires Sensible(cfg) && !c.ok && Observed(cfg, AfterCalls(cfg, before), c.start).mode.HalfOpen?
    ensures var b := AfterCalls(cfg, before + [c]); b.mode.Open? && b.lastFailure == c.end
  {
    SequentialRefines(cfg, before, c);
    assert (before + [c])[..|before|] == before;
  }
}
