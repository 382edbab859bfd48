/** src/adapter/circuit_breaker.rs: Closed, Open and HalfOpen over traces of timed events. */
module CircuitBreakers {

  import opened MachineInts

  datatype CircuitState = Closed | HalfOpen | Open

  datatype Config = Config(failureThreshold: u32, openDuration: nat, probeSuccessCount: u32)

  /** The breaker's fields as a value. */
  datatype Breaker = Breaker(state: CircuitState, failures: u32, successes: u32, since: int)

  /** `Ask` is a call of `state` or `allows_request`. */
  datatype Event = Success(now: int) | Failure(now: int) | Ask(now: int)

  function Transition(state: CircuitState, now: int): Breaker {
    Breaker(state, 0, 0, now)
  }

  function Next(cfg: Config, b: Breaker, e: Event): Breaker {
    match e
    case Ask(now) =>
      if b.state.Open? && now - b.since >= cfg.openDuration then Transition(HalfOpen, now) else b
    case Success(now) =>
      var c := b.(failures := 0);
      if b.state.HalfOpen? then
        var d := c.(successes := (c.successes + 1) % U32_MODULUS);
        if d.successes >= cfg.probeSuccessCount then Transition(Closed, now) else d
      else c
    case Failure(now) =>
      var c := b.(successes := 0, failures := (b.failures + 1) % U32_MODULUS);
      match b.state
      case Closed => if c.failures >= cfg.failureThreshold then Transition(Open, now) else c
      case HalfOpen => Transition(Open, now)
      case Open => c
  }

  ghost function Run(cfg: Config, b: Breaker, evs: seq<Event>): Breaker {
    if evs == [] then b else Next(cfg, Run(cfg, b, evs[..|evs| - 1]), evs[|evs| - 1])
  }

  /** The state reached after the first `k` events. */
  ghost function At(cfg: Config, b: Breaker, evs: seq<Event>, k: nat): Breaker
    requires k <= |evs|
  {
    Run(cfg, b, evs[..k])
  }

  predicate Allows(cfg: Config, b: Breaker, now: int) {
    !Next(cfg, b, Ask(now)).state.Open?
  }

  function Max1(n: u32): u32 { if n == 0 then 1 else n }

  // ------------------------------------------------------------------ the open wait

  /** While open and not asked after the wait, nothing changes the state or restarts the wait. */
  lemma {:induction false} OpenHolds(cfg: Config, b: Breaker, evs: seq<Event>)
    requires b.state.Open?
    requires forall k :: 0 <= k < |evs| && evs[k].Ask? ==> evs[k].now - b.since < cfg.openDuration
    ensures Run(cfg, b, evs).state.Open? && Run(cfg, b, evs).since == b.since
  {
    if evs != [] {
      OpenHolds(cfg, b, evs[..|evs| - 1]);
    }
  }

  lemma {:induction false} RunConcat(cfg: Config, b: Breaker, xs: seq<Event>, ys: seq<Event>)
    ensures Run(cfg, b, xs + ys) == Run(cfg, Run(cfg, b, xs), ys)
    decreases |ys|
  {
    if ys == [] {
      assert xs + ys == xs;
    } else {
      RunConcat(cfg, b, xs, ys[..|ys| - 1]);
      assert (xs + ys)[..|xs + ys| - 1] == xs + ys[..|ys| - 1];
    }
  }

  ghost predicate Trips(cfg: Config, b: Breaker, evs: seq<Event>, i: nat)
    requires i < |evs|
  {
    !At(cfg, b, evs, i).state.Open? && At(cfg, b, evs, i + 1).state.Open?
  }

  ghost predicate Monotone(evs: seq<Event>) {
    forall i, j :: 0 <= i < j < |evs| ==> evs[i].now <= evs[j].now
  }

  /**
   * After a trip at event `i`, a request at event `j` is allowed exactly when the wait since the
   * trip is over, provided nobody asked after the wait before `j`; failures in between do not count.
   */
  lemma RequestAfterTrip(cfg: Config, b: Breaker, evs: seq<Event>, i: nat, j: nat)
    requires i < j < |evs| && Trips(cfg, b, evs, i) && evs[j].Ask?
    requires forall k :: i < k < j && evs[k].Ask? ==> evs[k].now - evs[i].now < cfg.openDuration
    ensures Allows(cfg, At(cfg, b, evs, j), evs[j].now) <==> evs[j].now - evs[i].now >= cfg.openDuration
  {
    var mid := evs[i + 1..j];
    assert evs[..i + 1][..i] == evs[..i];
    assert At(cfg, b, evs, i + 1).since == evs[i].now;
    RunConcat(cfg, b, evs[..i + 1], mid);
    assert evs[..i + 1] + mid == evs[..j];
    OpenHolds(cfg, At(cfg, b, evs, i + 1), mid);
  }

  /** On a monotone clock no request at all is allowed during the wait that follows a trip. */
  lemma NoRequestDuringWait(cfg: Config, b: Breaker, evs: seq<Event>, i: nat, j: nat)
    requires Monotone(evs)
    requires i < j < |evs| && Trips(cfg, b, evs, i) && evs[j].Ask?
    requires evs[j].now - evs[i].now < cfg.openDuration
    ensures !Allows(cfg, At(cfg, b, evs, j), evs[j].now)
  {
    RequestAfterTrip(cfg, b, evs, i, j);
  }

  /** While closed or half-open every request is let through, however many there are, and none is counted. */
  lemma {:induction false} UnlessOpenAllAreAdmitted(cfg: Config, b: Breaker, evs: seq<Event>)
    requires (b.state.HalfOpen? || b.state.Closed?) && forall k :: 0 <= k < |evs| ==> evs[k].Ask?
    ensures Run(cfg, b, evs) == b
    ensures forall k :: 0 <= k < |evs| ==> Allows(cfg, At(cfg, b, evs, k), evs[k].now)
    decreases |evs|
  {
    if evs != [] {
      var init := evs[..|evs| - 1];
      UnlessOpenAllAreAdmitted(cfg, b, init);
      forall k | 0 <= k < |evs| ensures Allows(cfg, At(cfg, b, evs, k), evs[k].now) {
        if k < |init| {
          assert init[..k] == evs[..k];
          assert Allows(cfg, At(cfg, b, init, k), init[k].now);
        }
      }
    }
  }

  // ------------------------------------------------------------- recovery from open

  ghost function Successes(evs: seq<Event>): nat {
    if evs == [] then 0 else Successes(evs[..|evs| - 1]) + if evs[|evs| - 1].Success? then 1 else 0
  }

  ghost function Failures(evs: seq<Event>): nat {
    if evs == [] then 0 else Failures(evs[..|evs| - 1]) + if evs[|evs| - 1].Failure? then 1 else 0
  }

  /** Event `i` let the first probe through after a full wait; since then `n` successes, no failure. */
  ghost predicate ProbingSince(cfg: Config, b: Breaker, evs: seq<Event>, i: nat, n: nat) {
    && i < |evs|
    && evs[i].Ask?
    && At(cfg, b, evs, i).state.Open?
    && evs[i].now - At(cfg, b, evs, i).since >= cfg.openDuration
    && Failures(evs[i + 1..]) == 0
    && Successes(evs[i + 1..]) == n
  }

  lemma ProbingSnoc(cfg: Config, b: Breaker, evs: seq<Event>, e: Event, i: nat, n: nat)
    requires ProbingSince(cfg, b, evs, i, n) && !e.Failure?
    ensures ProbingSince(cfg, b, evs + [e], i, if e.Success? then n + 1 else n)
  {
    var all := evs + [e];
    assert all[..i] == evs[..i];
    assert all[i + 1..][..|evs| - i - 1] == evs[i + 1..];
  }

  /** A half-open breaker that was open has been probing since the wait ended. */
  lemma {:induction false} HalfOpenOrigin(cfg: Config, b: Breaker, evs: seq<Event>) returns (i: nat)
    requires b.state.Open? && Run(cfg, b, evs).state.HalfOpen?
    ensures ProbingSince(cfg, b, evs, i, Run(cfg, b, evs).successes)
    ensures Run(cfg, b, evs).successes < Max1(cfg.probeSuccessCount)
    decreases |evs|
  {
    var n := |evs| - 1;
    var init, e := evs[..n], evs[n];
    assert evs == init + [e];
    if Run(cfg, b, init).state.HalfOpen? {
      i := HalfOpenOrigin(cfg, b, init);
      ProbingSnoc(cfg, b, init, e, i, Run(cfg, b, init).successes);
    } else {
      i := n;
      assert evs[i + 1..] == [];
    }
  }

  /**
   * The return to closed at the end of `evs` came from a probe after a full wait, then exactly
   * max(1, probeSuccessCount) successes and no failure, the last event being the last success.
   */
  ghost predicate Recovered(cfg: Config, b: Breaker, evs: seq<Event>) {
    && evs != [] && evs[|evs| - 1].Success?
    && exists i :: ProbingSince(cfg, b, evs, i, Max1(cfg.probeSuccessCount))
  }

  lemma LastProbe(cfg: Config, b: Breaker, init: seq<Event>, e: Event)
    requires b.state.Open? && !Run(cfg, b, init).state.Closed?
    requires Next(cfg, Run(cfg, b, init), e).state.Closed?
    ensures Run(cfg, b, init).state.HalfOpen? && Recovered(cfg, b, init + [e])
  {
    var i := HalfOpenOrigin(cfg, b, init);
    ProbingSnoc(cfg, b, init, e, i, Run(cfg, b, init).successes);
  }

  /** Whenever an opened breaker is closed again, its last return to closed was such a recovery. */
  lemma {:induction false} OpenClosesOnlyByProbing(cfg: Config, b: Breaker, evs: seq<Event>) returns (k: nat)
    requires b.state.Open? && Run(cfg, b, evs).state.Closed?
    ensures 0 < k <= |evs| && Recovered(cfg, b, evs[..k])
    ensures At(cfg, b, evs, k - 1).state.HalfOpen?
    ensures forall m :: k <= m <= |evs| ==> At(cfg, b, evs, m).state.Closed?
    decreases |evs|
  {
    hide Next, Recovered;
    var n := |evs| - 1;
    var init, e := evs[..n], evs[n];
    assert evs[..|evs|] == evs;
    if Run(cfg, b, init).state.Closed? {
      k := OpenClosesOnlyByProbing(cfg, b, init);
      assert init[..k] == evs[..k] && init[..k - 1] == evs[..k - 1];
      forall m | k <= m <= |evs| ensures At(cfg, b, evs, m).state.Closed? {
        if m <= n {
          assert evs[..m] == init[..m];
          assert At(cfg, b, init, m).state.Closed?;
        }
      }
    } else {
      LastProbe(cfg, b, init, e);
      assert evs == init + [e];
      k := |evs|;
    }
  }

  /**
   * A half-open breaker that sees no failure closes exactly when the successes since probing began
   * reach max(1, probeSuccessCount), and keeps probing until then.
   */
  lemma {:induction false} HalfOpenClosesIff(cfg: Config, b: Breaker, evs: seq<Event>)
    requires b.state.HalfOpen? && b.successes < Max1(cfg.probeSuccessCount) && Failures(evs) == 0
    ensures Run(cfg, b, evs).state.Closed? <==> b.successes + Successes(evs) >= Max1(cfg.probeSuccessCount)
    ensures !Run(cfg, b, evs).state.Closed? ==>
      Run(cfg, b, evs).state.HalfOpen? && Run(cfg, b, evs).successes == b.successes + Successes(evs)
    decreases |evs|
  {
    if evs != [] { HalfOpenClosesIff(cfg, b, evs[..|evs| - 1]); }
  }

  /** Recovery: a probe let in after the full wait, then enough successes without a failure. */
  lemma RecoveryCloses(cfg: Config, b: Breaker, now: int, evs: seq<Event>)
    requires b.state.Open? && now - b.since >= cfg.openDuration && Failures(evs) == 0
    ensures Run(cfg, b, [Ask(now)] + evs).state.Closed? <==> Successes(evs) >= Max1(cfg.probeSuccessCount)
  {
    RunConcat(cfg, b, [Ask(now)], evs);
    assert [Ask(now)][..0] == [];
    HalfOpenClosesIff(cfg, Run(cfg, b, [Ask(now)]), evs);
  }

  /** One failure before the probes are complete opens it again, and the wait starts anew. */
  lemma FailureReopens(cfg: Config, b: Breaker, evs: seq<Event>, now: int, later: int)
    requires b.state.HalfOpen? && Failures(evs) == 0
    requires b.successes + Successes(evs) < Max1(cfg.probeSuccessCount)
    ensures var t := Run(cfg, b, evs + [Failure(now)]);
      t.state.Open? && (Allows(cfg, t, later) <==> later - now >= cfg.openDuration)
  {
    HalfOpenClosesIff(cfg, b, evs);
    assert (evs + [Failure(now)])[..|evs|] == evs;
  }

  // --------------------------------------------------------- the closed failure count

  /** The last `n` failures follow, with no success between them, the last success or state change. */
  ghost predicate TrailingFailures(cfg: Config, b: Breaker, evs: seq<Event>, k: nat, n: nat) {
    && k <= |evs|
    && Successes(evs[k..]) == 0
    && Failures(evs[k..]) == n
    && (k > 0 ==> evs[k - 1].Success? || !At(cfg, b, evs, k - 1).state.Closed?)
  }

  lemma TrailingSnoc(cfg: Config, b: Breaker, evs: seq<Event>, e: Event, k: nat, n: nat)
    requires TrailingFailures(cfg, b, evs, k, n) && !e.Success?
    ensures TrailingFailures(cfg, b, evs + [e], k, if e.Failure? then n + 1 else n)
  {
    var all := evs + [e];
    if k > 0 { assert all[..k - 1] == evs[..k - 1]; }
    assert all[k..][..|evs| - k] == evs[k..];
  }

  /** One event seen by a breaker that is closed afterwards. */
  lemma IntoClosed(cfg: Config, b: Breaker, e: Event)
    requires b.state.Closed? ==> b.failures < Max1(cfg.failureThreshold)
    requires Next(cfg, b, e).state.Closed?
    ensures Next(cfg, b, e).failures < Max1(cfg.failureThreshold)
    ensures Next(cfg, b, e).failures ==
      if !b.state.Closed? || e.Success? then 0 else if e.Failure? then b.failures + 1 else b.failures
  {
  }

  lemma NoTrailing(cfg: Config, b: Breaker, evs: seq<Event>)
    requires evs != []
    requires evs[|evs| - 1].Success? || !Run(cfg, b, evs[..|evs| - 1]).state.Closed?
    ensures TrailingFailures(cfg, b, evs, |evs|, 0)
  {
  }

  /** A closed breaker's counter is the trailing run of failures and stays below the threshold. */
  lemma {:induction false} ClosedCounter(cfg: Config, b: Breaker, evs: seq<Event>) returns (k: nat)
    requires b.state.Closed? ==> b.failures == 0
    requires Run(cfg, b, evs).state.Closed?
    ensures TrailingFailures(cfg, b, evs, k, Run(cfg, b, evs).failures)
    ensures Run(cfg, b, evs).failures < Max1(cfg.failureThreshold)
    decreases |evs|
  {
    if evs == [] {
      k := 0;
    } else {
      hide Next;
      var init, e := evs[..|evs| - 1], evs[|evs| - 1];
      assert evs == init + [e];
      var before := Run(cfg, b, init);
      k := |evs|;
      if before.state.Closed? {
        var j := ClosedCounter(cfg, b, init);
        if !e.Success? {
          k := j;
          TrailingSnoc(cfg, b, init, e, k, before.failures);
        }
      }
      IntoClosed(cfg, before, e);
      if k == |evs| { NoTrailing(cfg, b, evs); }
    }
  }

  lemma OutOfClosed(cfg: Config, b: Breaker, e: Event)
    requires b.state.Closed? && b.failures < Max1(cfg.failureThreshold)
    ensures Next(cfg, b, e).state.Open? <==> e.Failure? && b.failures + 1 == Max1(cfg.failureThreshold)
    ensures !Next(cfg, b, e).state.HalfOpen?
  {
  }

  lemma SuccessEndsTrail(cfg: Config, b: Breaker, evs: seq<Event>, e: Event, k: nat, n: nat)
    requires e.Success? && k <= |evs|
    ensures !TrailingFailures(cfg, b, evs + [e], k, n)
  {
    assert (evs + [e])[k..] == evs[k..] + [e];
    assert (evs[k..] + [e])[..|evs| - k] == evs[k..];
  }

  /** A closed breaker trips at an event exactly when that completes max(1, threshold) straight failures. */
  lemma ClosedTripsExactly(cfg: Config, b: Breaker, evs: seq<Event>, e: Event) returns (k: nat)
    requires b.state.Closed? ==> b.failures == 0
    requires Run(cfg, b, evs).state.Closed?
    ensures TrailingFailures(cfg, b, evs, k, Run(cfg, b, evs).failures)
    ensures Run(cfg, b, evs + [e]).state.Open? <==>
      TrailingFailures(cfg, b, evs + [e], k, Max1(cfg.failureThreshold))
    ensures !Run(cfg, b, evs + [e]).state.HalfOpen?
  {
    hide Next;
    k := ClosedCounter(cfg, b, evs);
    assert (evs + [e])[..|evs|] == evs;
    OutOfClosed(cfg, Run(cfg, b, evs), e);
    if e.Success? {
      SuccessEndsTrail(cfg, b, evs, e, k, Max1(cfg.failureThreshold));
    } else {
      TrailingSnoc(cfg, b, evs, e, k, Run(cfg, b, evs).failures);
    }
  }

  class CircuitBreaker {
    const config: Config
    var state: CircuitState
    var consecutiveFailures: u32
    var consecutiveSuccesses: u32
    var lastStateChange: int

    function Value(): Breaker
      reads this
    {
      Breaker(state, consecutiveFailures, consecutiveSuccesses, lastStateChange)
    }

    constructor (config: Config, now: int)
      ensures this.config == config && Value() == Breaker(Closed, 0, 0, now)
    {
      this.config, state, consecutiveFailures, consecutiveSuccesses := config, Closed, 0, 0;
      lastStateChange := now;
    }

    constructor Recovering(config: Config, now: int)
      ensures this.config == config && Value() == Breaker(HalfOpen, 0, 0, now)
    {
      this.config, state, consecutiveFailures, consecutiveSuccesses := config, HalfOpen, 0, 0;
      lastStateChange := now;
    }

    method ChangeTo(newState: CircuitState, now: int)
      modifies this
      ensures Value() == Breaker(newState, 0, 0, now)
    {
      state := newState;
      lastStateChange := now;
      consecutiveFailures, consecutiveSuccesses := 0, 0;
    }

    method State(now: int) returns (s: CircuitState)
      modifies this
      ensures Value() == Next(config, old(Value()), Ask(now)) && s == state
    {
      if state == Open && now - lastStateChange >= config.openDuration {
        ChangeTo(HalfOpen, now);
      }
      s := state;
    }

    method RecordSuccess(now: int)
      modifies this
      ensures Value() == Next(config, old(Value()), Success(now))
    {
      consecutiveFailures := 0;
      if state == HalfOpen {
        consecutiveSuccesses := (consecutiveSuccesses + 1) % U32_MODULUS;
        if consecutiveSuccesses >= config.probeSuccessCount {
          ChangeTo(Closed, now);
        }
      }
    }

    method RecordFailure(now: int)
      modifies this
      ensures Value() == Next(config, old(Value()), Failure(now))
    {
      consecutiveSuccesses := 0;
      consecutiveFailures := (consecutiveFailures + 1) % U32_MODULUS;
      match state
      case Closed =>
        if consecutiveFailures >= config.failureThreshold {
          ChangeTo(Open, now);
        }
      case HalfOpen => ChangeTo(Open, now);
      case Open =>
    }

    method AllowsRequest(now: int) returns (allowed: bool)
      modifies this
      ensures Value() == Next(config, old(Value()), Ask(now))
      ensures allowed <==> Allows(config, old(Value()), now)
    {
      var s := State(now);
      allowed := s != Open;
    }
  }
}
