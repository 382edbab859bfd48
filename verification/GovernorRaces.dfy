/**
 * Callers submit tasks through the governor at once, each one task at a time. A caller reads the
 * counters one by one, then starts its task with two atomic updates; a finished task undoes them
 * with two more. Anything may happen between two of these accesses.
 */
module GovernorRaces {
  import opened MachineInts
  import opened Governors

  /** Megabytes asked for: an envelope that asks for none is refused before admission. */
  type Request = r: u32 | 1 <= r witness 1

  /** Where a submission by caller `k`, of tier `p` and `r` megabytes, stands. */
  datatype Phase =
    | Checking(k: nat, p: Priority, r: Request)      // nothing checked yet
    | PassedActive(k: nat, p: Priority, r: Request)  // concurrency limit checked
    | Summing(k: nat, p: Priority, r: Request, seen: set<Priority>, sum: u64)  // tier RSS checked, adding up
    | Granted(k: nat, p: Priority, r: Request)       // system ceiling checked: admitted
    | Counted(k: nat, p: Priority, r: Request)       // active count raised
    | Live(k: nat, p: Priority, r: Request)          // RSS raised: the task runs
    | Leaving(k: nat, p: Priority, r: Request)       // active count lowered
    | Gone                                       // finished or refused
  {
    /** Between submission and start. */
    predicate IsInFlight() { Checking? || PassedActive? || Summing? || Granted? || Counted? }
  }

  const ALL_TIERS: set<Priority> := {P0Critical, P1Normal, P2Background}

  /** `n` callers. */
  datatype Setup = Setup(budgets: Tiers<TierBudget>, config: Config, n: u32)

  datatype Sys = Sys(active: Tiers<u64>, rss: Tiers<u64>, tasks: seq<Phase>)

  function Put<T>(t: Tiers<T>, p: Priority, v: T): Tiers<T> {
    match p
    case P0Critical => t.(p0 := v)
    case P1Normal => t.(p1 := v)
    case P2Background => t.(p2 := v)
  }

  /** `Read(i, q)` loads the RSS counter of tier `q` for the total, the tiers coming in any order. */
  datatype Step = Submit(k: nat, p: Priority, r: Request) | Refuse(i: nat) | Read(i: nat, q: Priority) | Advance(i: nat)

  function Loaded(ph: Phase, q: Priority, value: u64): Phase
    requires ph.Summing?
  {
    ph.(seen := ph.seen + {q}, sum := Add64(ph.sum, value))
  }

  /** Some usage of tokens lets some envelope, which asks for at least one, through the token check. */
  ghost predicate TokensMayPass(b: TierBudget) {
    exists used: u64, estimate: u32 :: estimate >= 1 && WithinTokens(b, used, estimate)
  }

  lemma TokensMayPassIff(b: TierBudget)
    ensures TokensMayPass(b) <==> b.maxTokensPerHour >= 1
  {
    if b.maxTokensPerHour >= 1 { assert WithinTokens(b, 0, 1); }
  }

  ghost predicate Next(c: Setup, s: Sys, step: Step, t: Sys) {
    match step
    case Submit(k, p, r) =>
      && k < c.n
      && (forall ph :: ph in s.tasks && ph.IsInFlight() ==> ph.k != k)
      && t == s.(tasks := s.tasks + [Checking(k, p, r)])
    case Refuse(i) =>
      && i < |s.tasks|
      && (s.tasks[i].Checking? || s.tasks[i].PassedActive? || s.tasks[i].Summing?)
      && t == s.(tasks := s.tasks[i := Gone])
    case Read(i, q) =>
      && i < |s.tasks|
      && s.tasks[i].Summing?
      && q !in s.tasks[i].seen
      && t == s.(tasks := s.tasks[i := Loaded(s.tasks[i], q, s.rss.At(q))])
    case Advance(i) =>
      && i < |s.tasks|
      && match s.tasks[i]
         case Checking(k, p, r) =>
           BelowConcurrency(c.budgets.At(p), s.active.At(p)) && t == s.(tasks := s.tasks[i := PassedActive(k, p, r)])
         case PassedActive(k, p, r) =>
           && TokensMayPass(c.budgets.At(p))
           && WithinRss(c.budgets.At(p), s.rss.At(p), r)
           && t == s.(tasks := s.tasks[i := Summing(k, p, r, {}, 0)])
         case Summing(k, p, r, seen, sum) =>
           seen == ALL_TIERS && WithinCeiling(c.config, sum, r) && t == s.(tasks := s.tasks[i := Granted(k, p, r)])
         case Granted(k, p, r) =>
           t == s.(active := Put(s.active, p, Add64(s.active.At(p), 1)), tasks := s.tasks[i := Counted(k, p, r)])
         case Counted(k, p, r) =>
           t == s.(rss := Put(s.rss, p, Add64(s.rss.At(p), r)), tasks := s.tasks[i := Live(k, p, r)])
         case Live(k, p, r) =>
           t == Sys(Put(s.active, p, WrappingSub64(s.active.At(p), 1)), s.rss, s.tasks[i := Leaving(k, p, r)])
         case Leaving(k, p, r) =>
           t == s.(rss := Put(s.rss, p, SaturatingSub(s.rss.At(p), r)), tasks := s.tasks[i := Gone])
         case Gone => false
  }

  // -------------------------------------------- left alone, a submission is one admission check

  ghost predicate Chain(c: Setup, ss: seq<Sys>, steps: seq<Step>) {
    && |ss| == |steps| + 1
    && forall i :: 0 <= i < |steps| ==> Next(c, ss[i], steps[i], ss[i + 1])
  }

  /** The checks of submission `i`, which reads the tiers in the order `qs`. */
  function CheckSteps(i: nat, qs: seq<Priority>): seq<Step>
    requires |qs| == 3
  {
    [Advance(i), Advance(i), Read(i, qs[0]), Read(i, qs[1]), Read(i, qs[2]), Advance(i)]
  }

  /** It goes through all checks with nothing in between. */
  ghost predicate Checked(c: Setup, s: Sys, i: nat, qs: seq<Priority>, t: Sys)
    requires |qs| == 3
  {
    exists ss :: Chain(c, ss, CheckSteps(i, qs)) && |ss| == 7 && ss[0] == s && ss[6] == t
  }

  lemma ReadInAnyOrder(rss: Tiers<u64>, qs: seq<Priority>, r: u32)
    requires |qs| == 3 && qs[0] != qs[1] && qs[0] != qs[2] && qs[1] != qs[2]
    ensures Add64(Add64(Add64(Add64(0, rss.At(qs[0])), rss.At(qs[1])), rss.At(qs[2])), r) ==
      (rss.p0 + rss.p1 + rss.p2 + r) % U64_MODULUS
    ensures {} + {qs[0]} + {qs[1]} + {qs[2]} == ALL_TIERS
  {
    AddThree(rss.At(qs[0]), rss.At(qs[1]), rss.At(qs[2]), r);
    assert Add64(0, rss.At(qs[0])) == rss.At(qs[0]);
    assert rss.At(qs[0]) + rss.At(qs[1]) + rss.At(qs[2]) == rss.p0 + rss.p1 + rss.p2;
  }

  function With(s: Sys, i: nat, ph: Phase): Sys
    requires i < |s.tasks|
  {
    s.(tasks := s.tasks[i := ph])
  }

  lemma Replaced(s: Sys, i: nat, a: Phase, b: Phase)
    requires i < |s.tasks|
    ensures s.tasks[i := a][i := b] == s.tasks[i := b]
  {
  }

  /** What the checks of submission `i`, at phase `a`, lead to. */
  lemma CheckLeads(c: Setup, s: Sys, i: nat, a: Phase, t: Sys)
    requires i < |s.tasks|
    ensures a.Checking? ==>
      (Next(c, With(s, i, a), Advance(i), t) <==>
         BelowConcurrency(c.budgets.At(a.p), s.active.At(a.p)) && t == With(s, i, PassedActive(a.k, a.p, a.r)))
    ensures a.PassedActive? ==>
      (Next(c, With(s, i, a), Advance(i), t) <==>
         && TokensMayPass(c.budgets.At(a.p))
         && WithinRss(c.budgets.At(a.p), s.rss.At(a.p), a.r)
         && t == With(s, i, Summing(a.k, a.p, a.r, {}, 0)))
    ensures a.Summing? ==>
      (Next(c, With(s, i, a), Advance(i), t) <==>
         a.seen == ALL_TIERS && WithinCeiling(c.config, a.sum, a.r) && t == With(s, i, Granted(a.k, a.p, a.r)))
  {
    if !a.Gone? {
      Replaced(s, i, a, PassedActive(a.k, a.p, a.r));
      Replaced(s, i, a, Summing(a.k, a.p, a.r, {}, 0));
      Replaced(s, i, a, Granted(a.k, a.p, a.r));
    }
  }

  lemma ReadLeads(c: Setup, s: Sys, i: nat, a: Phase, q: Priority, t: Sys)
    requires i < |s.tasks| && a.Summing? && q !in a.seen
    ensures Next(c, With(s, i, a), Read(i, q), t) <==> t == With(s, i, Loaded(a, q, s.rss.At(q)))
  {
    Replaced(s, i, a, Loaded(a, q, s.rss.At(q)));
  }

  /** The three limits, as the code computes them from the counters. */
  ghost predicate LimitsLeaveRoom(c: Setup, s: Sys, p: Priority, r: Request) {
    && s.active.At(p) < c.budgets.At(p).maxConcurrent
    && c.budgets.At(p).maxTokensPerHour >= 1
    && (s.rss.At(p) + r) % U64_MODULUS <= c.budgets.At(p).maxRssMb
    && (s.rss.p0 + s.rss.p1 + s.rss.p2 + r) % U64_MODULUS <=
         (c.config.systemRssCeilingMb - c.config.headroomMb) % U64_MODULUS
  }

  lemma WithItself(s: Sys, i: nat)
    requires i < |s.tasks|
    ensures With(s, i, s.tasks[i]) == s
  {
  }

  /** The phases a submission goes through on its own, with the totals it reads. */
  function Phases(s: Sys, i: nat, qs: seq<Priority>): (ps: seq<Phase>)
    requires i < |s.tasks| && s.tasks[i].Checking? && |qs| == 3
    ensures |ps| == 7
  {
    var a := s.tasks[i];
    var reading := Summing(a.k, a.p, a.r, {}, 0);
    var read0 := Loaded(reading, qs[0], s.rss.At(qs[0]));
    var read1 := Loaded(read0, qs[1], s.rss.At(qs[1]));
    var read2 := Loaded(read1, qs[2], s.rss.At(qs[2]));
    [a, PassedActive(a.k, a.p, a.r), reading, read0, read1, read2, Granted(a.k, a.p, a.r)]
  }

  /** The code's three comparisons are the limits in plain numbers, whatever the order of reading. */
  lemma ComparisonsArePlain(c: Setup, s: Sys, i: nat, qs: seq<Priority>)
    requires i < |s.tasks| && s.tasks[i].Checking?
    requires |qs| == 3 && qs[0] != qs[1] && qs[0] != qs[2] && qs[1] != qs[2]
    ensures var ps, p, r := Phases(s, i, qs), s.tasks[i].p, s.tasks[i].r;
      && ps[5].seen == ALL_TIERS
      && (LimitsLeaveRoom(c, s, p, r) <==>
            && BelowConcurrency(c.budgets.At(p), s.active.At(p))
            && TokensMayPass(c.budgets.At(p))
            && WithinRss(c.budgets.At(p), s.rss.At(p), r)
            && WithinCeiling(c.config, ps[5].sum, r))
  {
    hide Add64, TokensMayPass, EffectiveCeiling;
    var p, r := s.tasks[i].p, s.tasks[i].r;
    ReadInAnyOrder(s.rss, qs, r);
    TokensMayPassIff(c.budgets.At(p));
    PlainSum(s.rss.At(p), r);
    PlainCeiling(c.config);
  }

  lemma UninterruptedOnly(c: Setup, s: Sys, i: nat, qs: seq<Priority>, ss: seq<Sys>)
    requires i < |s.tasks| && s.tasks[i].Checking?
    requires |qs| == 3 && qs[0] != qs[1] && qs[0] != qs[2] && qs[1] != qs[2]
    requires Chain(c, ss, CheckSteps(i, qs)) && ss[0] == s
    ensures LimitsLeaveRoom(c, s, s.tasks[i].p, s.tasks[i].r) && ss[6] == With(s, i, Phases(s, i, qs)[6])
  {
    var ps := Phases(s, i, qs);
    var steps := CheckSteps(i, qs);
    assert Next(c, ss[0], steps[0], ss[1]) && Next(c, ss[1], steps[1], ss[2]) && Next(c, ss[2], steps[2], ss[3]);
    assert Next(c, ss[3], steps[3], ss[4]) && Next(c, ss[4], steps[4], ss[5]) && Next(c, ss[5], steps[5], ss[6]);
    ComparisonsArePlain(c, s, i, qs);
    WithItself(s, i);
    hide Next, LimitsLeaveRoom, BelowConcurrency, TokensMayPass, WithinRss, WithinCeiling, With;
    CheckLeads(c, s, i, ps[0], ss[1]);
    CheckLeads(c, s, i, ps[1], ss[2]);
    ReadLeads(c, s, i, ps[2], qs[0], ss[3]);
    ReadLeads(c, s, i, ps[3], qs[1], ss[4]);
    ReadLeads(c, s, i, ps[4], qs[2], ss[5]);
    CheckLeads(c, s, i, ps[5], ss[6]);
  }

  lemma UninterruptedIf(c: Setup, s: Sys, i: nat, qs: seq<Priority>) returns (ss: seq<Sys>)
    requires i < |s.tasks| && s.tasks[i].Checking?
    requires |qs| == 3 && qs[0] != qs[1] && qs[0] != qs[2] && qs[1] != qs[2]
    requires LimitsLeaveRoom(c, s, s.tasks[i].p, s.tasks[i].r)
    ensures Chain(c, ss, CheckSteps(i, qs)) && |ss| == 7 && ss[0] == s && ss[6] == With(s, i, Phases(s, i, qs)[6])
  {
    var ps := Phases(s, i, qs);
    ComparisonsArePlain(c, s, i, qs);
    WithItself(s, i);
    hide Next, LimitsLeaveRoom, BelowConcurrency, TokensMayPass, WithinRss, WithinCeiling, With;
    CheckLeads(c, s, i, ps[0], With(s, i, ps[1]));
    CheckLeads(c, s, i, ps[1], With(s, i, ps[2]));
    ReadLeads(c, s, i, ps[2], qs[0], With(s, i, ps[3]));
    ReadLeads(c, s, i, ps[3], qs[1], With(s, i, ps[4]));
    ReadLeads(c, s, i, ps[4], qs[2], With(s, i, ps[5]));
    CheckLeads(c, s, i, ps[5], With(s, i, ps[6]));
    ss := [s, With(s, i, ps[1]), With(s, i, ps[2]), With(s, i, ps[3]), With(s, i, ps[4]), With(s, i, ps[5]),
           With(s, i, ps[6])];
  }

  /**
   * An uninterrupted submission is let in exactly on the conditions on tasks and memory on which
   * `CheckAdmission` admits, and changes no counter.
   */
  lemma UninterruptedIff(c: Setup, s: Sys, i: nat, qs: seq<Priority>, t: Sys)
    requires i < |s.tasks| && s.tasks[i].Checking?
    requires |qs| == 3 && qs[0] != qs[1] && qs[0] != qs[2] && qs[1] != qs[2]
    ensures var k, p, r := s.tasks[i].k, s.tasks[i].p, s.tasks[i].r;
      Checked(c, s, i, qs, t) <==>
        && t == s.(tasks := s.tasks[i := Granted(k, p, r)])
        && s.active.At(p) < c.budgets.At(p).maxConcurrent
        && c.budgets.At(p).maxTokensPerHour >= 1
        && (s.rss.At(p) + r) % U64_MODULUS <= c.budgets.At(p).maxRssMb
        && (s.rss.p0 + s.rss.p1 + s.rss.p2 + r) % U64_MODULUS <=
             (c.config.systemRssCeilingMb - c.config.headroomMb) % U64_MODULUS
  {
    hide Chain;
    if Checked(c, s, i, qs, t) {
      var ss :| Chain(c, ss, CheckSteps(i, qs)) && |ss| == 7 && ss[0] == s && ss[6] == t;
      UninterruptedOnly(c, s, i, qs, ss);
    }
    if LimitsLeaveRoom(c, s, s.tasks[i].p, s.tasks[i].r) {
      var ss := UninterruptedIf(c, s, i, qs);
    }
  }

  function UsageOf(s: Sys, p: Priority, tokens: u64): Usage {
    Usage(s.active.At(p), tokens, s.rss.At(p))
  }

  /** The two updates of a start, and of an end, are together what the governor's counters record. */
  lemma UpdatesAreRecorded(c: Setup, s: Sys, i: nat, t: Sys, u: Sys, tokens: u64)
    requires Next(c, s, Advance(i), t) && Next(c, t, Advance(i), u)
    requires i < |s.tasks| && (s.tasks[i].Granted? || s.tasks[i].Live?)
    ensures var p, r := s.tasks[i].p, s.tasks[i].r;
      && UsageOf(u, p, tokens) ==
           (if s.tasks[i].Granted? then AfterStart(UsageOf(s, p, tokens), r) else AfterEnd(UsageOf(s, p, tokens), r))
      && forall q :: q != p ==> UsageOf(u, q, tokens) == UsageOf(s, q, tokens)
  {
    hide Add64, WrappingSub64, SaturatingSub;
    var p := s.tasks[i].p;
    assert t.tasks[i].p == p && t.tasks[i].r == s.tasks[i].r;
  }

  // ------------------------------------------------------------- what the tasks add up to

  datatype Measure =
    | Running(p: Priority)      // tasks in the active counter
    | Passed(p: Priority)       // submissions past the concurrency check, not yet in the counter
    | Held(ps: set<Priority>)   // megabytes in the RSS counters of these tiers
    | Taken(p: Priority)        // megabytes of one tier held or past the tier check
    | TakenInAll                // megabytes of all tiers held or past the ceiling check
    | Through(p: Priority)      // submissions past the tier check and tasks not yet leaving
    | Fitting(p: Priority, ceiling: nat) // those of them that have read their own tier and may still fit the ceiling
    | Flight                    // submissions in flight
    | Of(k: nat, m: Measure)    // the part of one caller
    | Below(n: nat, m: Measure) // the part of the first n callers

  predicate MayFit(ph: Phase, ceiling: nat) {
    ph.Summing? && ph.p in ph.seen && ph.sum + ph.r <= ceiling
  }

  function Weight(m: Measure, ph: Phase): nat {
    if ph.Gone? then 0 else
    match m
    case Running(p) => if ph.p == p && (ph.Counted? || ph.Live?) then 1 else 0
    case Passed(p) => if ph.p == p && (ph.PassedActive? || ph.Summing? || ph.Granted?) then 1 else 0
    case Held(ps) => if ph.p in ps && (ph.Live? || ph.Leaving?) then ph.r else 0
    case Taken(p) => if ph.p == p && !ph.Checking? && !ph.PassedActive? then ph.r else 0
    case TakenInAll => if !ph.Checking? && !ph.PassedActive? && !ph.Summing? then ph.r else 0
    case Through(p) => if ph.p == p && (ph.Summing? || ph.Granted? || ph.Counted? || ph.Live?) then 1 else 0
    case Fitting(p, e) =>
      if ph.p == p && (MayFit(ph, e) || ph.Granted? || ph.Counted? || ph.Live?) then 1 else 0
    case Flight => if ph.IsInFlight() then 1 else 0
    case Of(k, m') => if ph.k == k then Weight(m', ph) else 0
    case Below(n, m') => if ph.k < n then Weight(m', ph) else 0
  }

  ghost function Sum(m: Measure, tasks: seq<Phase>): nat {
    if tasks == [] then 0 else Weight(m, tasks[|tasks| - 1]) + Sum(m, tasks[..|tasks| - 1])
  }

  lemma {:induction false} SumUpdate(m: Measure, tasks: seq<Phase>, i: nat, ph: Phase)
    requires i < |tasks|
    ensures Sum(m, tasks[i := ph]) == Sum(m, tasks) - Weight(m, tasks[i]) + Weight(m, ph)
  {
    hide Weight;
    var n := |tasks| - 1;
    if i < n {
      SumUpdate(m, tasks[..n], i, ph);
      assert tasks[i := ph][..n] == tasks[..n][i := ph];
    } else {
      assert tasks[i := ph][..n] == tasks[..n];
    }
  }

  lemma SumSnoc(m: Measure, tasks: seq<Phase>, ph: Phase)
    ensures Sum(m, tasks + [ph]) == Sum(m, tasks) + Weight(m, ph)
  {
    assert (tasks + [ph])[..|tasks|] == tasks;
  }

  lemma {:induction false} PartOfSum(m: Measure, tasks: seq<Phase>, i: nat)
    requires i < |tasks|
    ensures Weight(m, tasks[i]) <= Sum(m, tasks)
  {
    hide Weight;
    var n := |tasks| - 1;
    if i < n { PartOfSum(m, tasks[..n], i); }
  }

  lemma {:induction false} SumAtMost(m: Measure, m': Measure, tasks: seq<Phase>)
    requires forall ph :: ph in tasks ==> Weight(m, ph) <= Weight(m', ph)
    ensures Sum(m, tasks) <= Sum(m', tasks)
  {
    hide Weight;
    if tasks != [] {
      SumAtMost(m, m', tasks[..|tasks| - 1]);
      assert tasks[|tasks| - 1] in tasks;
    }
  }

  lemma {:induction false} SumZero(m: Measure, tasks: seq<Phase>)
    requires forall ph :: ph in tasks ==> Weight(m, ph) == 0
    ensures Sum(m, tasks) == 0
  {
    hide Weight;
    if tasks != [] {
      SumZero(m, tasks[..|tasks| - 1]);
      assert tasks[|tasks| - 1] in tasks;
    }
  }

  lemma {:induction false} SplitBelow(n: nat, m: Measure, tasks: seq<Phase>)
    ensures Sum(Below(n + 1, m), tasks) == Sum(Below(n, m), tasks) + Sum(Of(n, m), tasks)
  {
    if tasks != [] { SplitBelow(n, m, tasks[..|tasks| - 1]); }
  }

  lemma Distribute(k: nat, x: nat, y: nat)
    ensures k * (x + y) == k * x + k * y
  {
  }

  lemma BelowNone(m: Measure, tasks: seq<Phase>)
    ensures Sum(Below(0, m), tasks) == 0
  {
    SumZero(Below(0, m), tasks);
  }

  /** If no caller has more than `limit`, the first `n` together have at most `limit * n`. */
  lemma {:induction false} CallersAddUp(n: nat, m: Measure, tasks: seq<Phase>, limit: nat)
    requires forall k: nat :: Sum(Of(k, m), tasks) <= limit
    ensures Sum(Below(n, m), tasks) <= limit * n
    decreases n
  {
    hide Weight, Sum;
    if n == 0 {
      BelowNone(m, tasks);
    } else {
      CallersAddUp(n - 1, m, tasks, limit);
      SplitBelow(n - 1, m, tasks);
      Distribute(limit, n - 1, 1);
    }
  }

  // ---------------------------------------------------------------------- the invariant

  /** The counters are exact at every moment, not only when all is quiet. */
  ghost predicate Conserved(s: Sys) {
    forall p: Priority :: s.active.At(p) == Sum(Running(p), s.tasks) && s.rss.At(p) == Sum(Held({p}), s.tasks)
  }

  /** Each caller has one submission in flight at most. */
  ghost predicate FlightOk(c: Setup, tasks: seq<Phase>) {
    && (forall ph :: ph in tasks && !ph.Gone? ==> ph.k < c.n)
    && (forall k: nat :: Sum(Of(k, Flight), tasks) <= 1)
  }

  /** Tasks running or past the concurrency check exceed the limit by at most the other callers. */
  ghost predicate ActiveOk(c: Setup, tasks: seq<Phase>, p: Priority) {
    Sum(Running(p), tasks) + Sum(Passed(p), tasks) <= c.budgets.At(p).maxConcurrent + c.n - 1
  }

  /** No single caller has taken more of a tier than the tier has. */
  ghost predicate TierOk(c: Setup, tasks: seq<Phase>, p: Priority) {
    forall k: nat :: Sum(Of(k, Taken(p)), tasks) <= c.budgets.At(p).maxRssMb
  }

  /** No single caller has taken more than the system has. */
  ghost predicate CeilingOk(c: Setup, tasks: seq<Phase>) {
    forall k: nat :: Sum(Of(k, TakenInAll), tasks) <= EffectiveCeiling(c.config)
  }

  function MbOf(c: Setup, ps: set<Priority>): nat {
    (if P0Critical in ps then c.budgets.p0.maxRssMb else 0) +
    (if P1Normal in ps then c.budgets.p1.maxRssMb else 0) +
    (if P2Background in ps then c.budgets.p2.maxRssMb else 0)
  }

  /** A total being read covers what the reading caller itself already holds, however stale its parts. */
  ghost predicate ReadOk(c: Setup, tasks: seq<Phase>, ph: Phase) {
    ph.Summing? ==> Sum(Of(ph.k, Held(ph.seen)), tasks) <= ph.sum <= c.n * MbOf(c, ph.seen)
  }

  /** No u64 sum of the three counters and a request can wrap. */
  predicate SumsFit(c: Setup) {
    c.n * MbOf(c, ALL_TIERS) + U32_MODULUS <= U64_MODULUS
  }

  ghost predicate Inv(c: Setup, s: Sys) {
    && Conserved(s)
    && FlightOk(c, s.tasks)
    && (forall p: Priority :: ActiveOk(c, s.tasks, p) && TierOk(c, s.tasks, p))
    && (SumsFit(c) ==> CeilingOk(c, s.tasks) && forall ph :: ph in s.tasks ==> ReadOk(c, s.tasks, ph))
  }

  lemma InvParts(c: Setup, s: Sys, p: Priority)
    requires Inv(c, s)
    ensures s.active.At(p) == Sum(Running(p), s.tasks) && s.rss.At(p) == Sum(Held({p}), s.tasks)
    ensures FlightOk(c, s.tasks) && ActiveOk(c, s.tasks, p) && TierOk(c, s.tasks, p)
    ensures SumsFit(c) ==> CeilingOk(c, s.tasks) && forall ph :: ph in s.tasks ==> ReadOk(c, s.tasks, ph)
  {
  }

  /** With fewer than 2^30 callers no sum of counters can wrap, whatever the budgets. */
  lemma FewCallersFit(c: Setup)
    requires c.n < 0x4000_0000
    ensures SumsFit(c)
  {
    var k := MbOf(c, ALL_TIERS);
    assert k <= 3 * 0xffff_ffff;
    Distribute(k, c.n, 0x4000_0000 - c.n);
  }

  // ------------------------------------------------------------------ consequences of it

  lemma AllBelow(c: Setup, m: Measure, tasks: seq<Phase>)
    requires FlightOk(c, tasks)
    ensures Sum(m, tasks) <= Sum(Below(c.n, m), tasks)
  {
    hide Sum;
    SumAtMost(m, Below(c.n, m), tasks);
  }

  lemma FlightTotal(c: Setup, tasks: seq<Phase>)
    requires FlightOk(c, tasks)
    ensures Sum(Flight, tasks) <= c.n
  {
    hide Weight, Sum;
    AllBelow(c, Flight, tasks);
    CallersAddUp(c.n, Flight, tasks, 1);
  }

  lemma TierTotal(c: Setup, tasks: seq<Phase>, p: Priority)
    requires FlightOk(c, tasks) && TierOk(c, tasks, p)
    ensures Sum(Held({p}), tasks) <= Sum(Taken(p), tasks) <= c.budgets.At(p).maxRssMb * c.n
  {
    hide Sum;
    AllBelow(c, Taken(p), tasks);
    CallersAddUp(c.n, Taken(p), tasks, c.budgets.At(p).maxRssMb);
    SumAtMost(Held({p}), Taken(p), tasks);
  }

  lemma {:induction false} TiersAddUp(tasks: seq<Phase>)
    ensures Sum(Held({P0Critical}), tasks) + Sum(Held({P1Normal}), tasks) + Sum(Held({P2Background}), tasks) ==
      Sum(Held(ALL_TIERS), tasks)
  {
    if tasks != [] { TiersAddUp(tasks[..|tasks| - 1]); }
  }

  lemma CeilingTotal(c: Setup, tasks: seq<Phase>)
    requires FlightOk(c, tasks) && CeilingOk(c, tasks)
    ensures Sum(Held(ALL_TIERS), tasks) <= Sum(TakenInAll, tasks) <= EffectiveCeiling(c.config) * c.n
  {
    hide EffectiveCeiling, Sum;
    AllBelow(c, TakenInAll, tasks);
    CallersAddUp(c.n, TakenInAll, tasks, EffectiveCeiling(c.config));
    SumAtMost(Held(ALL_TIERS), TakenInAll, tasks);
  }

  lemma EveryTier()
    ensures forall p: Priority :: p in ALL_TIERS
  {
    forall p: Priority ensures p in ALL_TIERS {
      match p
      case P0Critical =>
      case P1Normal =>
      case P2Background =>
    }
  }

  /** Two submissions of one caller are never both in flight. */
  lemma OneInFlight(c: Setup, tasks: seq<Phase>, i: nat, j: nat)
    requires FlightOk(c, tasks) && i < |tasks| && j < |tasks|
    requires tasks[i].IsInFlight() && tasks[j].IsInFlight() && tasks[i].k == tasks[j].k
    ensures i == j
  {
    if i != j {
      var m := Of(tasks[i].k, Flight);
      SumUpdate(m, tasks, i, Gone);
      PartOfSum(m, tasks[i := Gone], j);
    }
  }

  /** While submission `i` is in flight, all else its caller has taken has landed in the counters. */
  lemma OwnLanded(c: Setup, tasks: seq<Phase>, i: nat, m: Measure, ps: set<Priority>)
    requires FlightOk(c, tasks) && i < |tasks| && tasks[i].IsInFlight() && Weight(m, tasks[i]) == 0
    requires forall ph: Phase :: !ph.IsInFlight() ==> Weight(m, ph) <= Weight(Held(ps), ph)
    ensures Sum(Of(tasks[i].k, m), tasks) <= Sum(Of(tasks[i].k, Held(ps)), tasks) <= Sum(Held(ps), tasks)
  {
    hide Sum;
    var k := tasks[i].k;
    forall ph | ph in tasks ensures Weight(Of(k, m), ph) <= Weight(Of(k, Held(ps)), ph) {
      var j :| 0 <= j < |tasks| && tasks[j] == ph;
      if ph.IsInFlight() && ph.k == k { OneInFlight(c, tasks, i, j); }
    }
    SumAtMost(Of(k, m), Of(k, Held(ps)), tasks);
    SumAtMost(Of(k, Held(ps)), Held(ps), tasks);
  }

  /** The other callers past the concurrency check. */
  lemma OthersPass(c: Setup, tasks: seq<Phase>, i: nat, p: Priority)
    requires FlightOk(c, tasks) && i < |tasks| && tasks[i].Checking?
    ensures Sum(Passed(p), tasks) + 1 <= c.n
  {
    hide Sum;
    var others := tasks[i := Gone];
    FlightTotal(c, tasks);
    SumUpdate(Flight, tasks, i, Gone);
    SumUpdate(Passed(p), tasks, i, Gone);
    SumAtMost(Passed(p), Flight, others);
  }

  lemma PlainArithmetic(x: u64, k: u64)
    ensures x + k < U64_MODULUS ==> Add64(x, k) == x + k
    ensures x >= k ==> WrappingSub64(x, k) == x - k && SaturatingSub(x, k) == x - k
  {
  }

  lemma NotMore(x: u32, y: nat)
    ensures x * y <= 0xffff_ffff * y
  {
    Distribute(y, x, 0xffff_ffff - x);
  }

  lemma ProductFits(x: u32, y: u32)
    ensures x * y + U32_MODULUS <= U64_MODULUS
  {
    NotMore(x, y);
  }

  // -------------------------------------------------------------- one step, one measure

  /** The phase that `step` moves its task to, given the RSS counters. */
  function After(rss: Tiers<u64>, ph: Phase, step: Step): Phase {
    match step
    case Submit(_, _, _) => ph
    case Refuse(_) => Gone
    case Read(_, q) => if ph.Summing? then Loaded(ph, q, rss.At(q)) else ph
    case Advance(_) =>
      match ph
      case Checking(k, p, r) => PassedActive(k, p, r)
      case PassedActive(k, p, r) => Summing(k, p, r, {}, 0)
      case Summing(k, p, r, _, _) => Granted(k, p, r)
      case Granted(k, p, r) => Counted(k, p, r)
      case Counted(k, p, r) => Live(k, p, r)
      case Live(k, p, r) => Leaving(k, p, r)
      case Leaving(k, p, r) => Gone
      case Gone => Gone
  }

  /** Every step appends one new submission or moves one existing task. */
  ghost predicate Moves(rss: Tiers<u64>, tasks: seq<Phase>, step: Step, after: seq<Phase>) {
    if step.Submit? then after == tasks + [Checking(step.k, step.p, step.r)]
    else
      && step.i < |tasks|
      && after == tasks[step.i := After(rss, tasks[step.i], step)]
      && (step.Refuse? ==> tasks[step.i].Checking? || tasks[step.i].PassedActive? || tasks[step.i].Summing?)
      && (step.Read? ==> tasks[step.i].Summing?)
  }

  lemma NextMoves(c: Setup, s: Sys, step: Step, t: Sys)
    requires Next(c, s, step, t)
    ensures Moves(s.rss, s.tasks, step, t.tasks)
  {
  }

  /** How a step changes one sum. */
  lemma SumMoves(m: Measure, rss: Tiers<u64>, tasks: seq<Phase>, step: Step, after: seq<Phase>)
    requires Moves(rss, tasks, step, after)
    ensures step.Submit? ==> Sum(m, after) == Sum(m, tasks) + Weight(m, Checking(step.k, step.p, step.r))
    ensures !step.Submit? ==>
      Sum(m, after) == Sum(m, tasks) - Weight(m, tasks[step.i]) + Weight(m, After(rss, tasks[step.i], step))
  {
    hide Weight, Sum, After;
    if step.Submit? {
      SumSnoc(m, tasks, Checking(step.k, step.p, step.r));
    } else {
      SumUpdate(m, tasks, step.i, After(rss, tasks[step.i], step));
    }
  }

  /** A new submission weighs nothing but being in flight. */
  lemma SubmissionIsWeightless(k: nat, p: Priority, r: Request, j: nat, q: Priority, ps: set<Priority>)
    ensures var ph := Checking(k, p, r);
      && Weight(Running(q), ph) == Weight(Passed(q), ph) == Weight(Held(ps), ph) == Weight(Of(j, Held(ps)), ph) == 0
      && Weight(Of(j, Taken(q)), ph) == Weight(Of(j, TakenInAll), ph) == 0
  {
  }

  /** A step adds weight to a limit only through that limit's own check. */
  lemma WeightGains(rss: Tiers<u64>, ph: Phase, step: Step, j: nat, q: Priority, ps: set<Priority>)
    requires !step.Submit?
    ensures var ph' := After(rss, ph, step);
      && Weight(Of(j, Flight), ph') <= Weight(Of(j, Flight), ph)
      && Weight(Running(q), ph') + Weight(Passed(q), ph') <= Weight(Running(q), ph) + Weight(Passed(q), ph) +
           (if step.Advance? && ph.Checking? && ph.p == q then 1 else 0)
      && Weight(Of(j, Taken(q)), ph') <= Weight(Of(j, Taken(q)), ph) +
           (if step.Advance? && ph.PassedActive? && ph.p == q && ph.k == j then ph.r else 0)
      && Weight(Of(j, TakenInAll), ph') <= Weight(Of(j, TakenInAll), ph) +
           (if step.Advance? && ph.Summing? && ph.k == j then ph.r else 0)
      && Weight(Of(j, Held(ps)), ph') <= Weight(Of(j, Held(ps)), ph) +
           (if step.Advance? && ph.Counted? && ph.k == j then ph.r else 0)
  {
  }

  lemma CallersKnown(c: Setup, rss: Tiers<u64>, tasks: seq<Phase>, step: Step, after: seq<Phase>)
    requires Moves(rss, tasks, step, after) && (step.Submit? ==> step.k < c.n)
    requires forall ph :: ph in tasks && !ph.Gone? ==> ph.k < c.n
    ensures forall ph :: ph in after && !ph.Gone? ==> ph.k < c.n
  {
    forall j | 0 <= j < |after| && !after[j].Gone? ensures after[j].k < c.n {
      if j < |tasks| { assert tasks[j] in tasks; }
    }
  }

  lemma StepKeepsFlight(c: Setup, s: Sys, step: Step, t: Sys)
    requires Inv(c, s) && Next(c, s, step, t)
    ensures FlightOk(c, t.tasks)
  {
    hide Inv, Sum;
    InvParts(c, s, P0Critical);
    NextMoves(c, s, step, t);
    forall k: nat ensures Sum(Of(k, Flight), t.tasks) <= 1 {
      SumMoves(Of(k, Flight), s.rss, s.tasks, step, t.tasks);
      if step.Submit? {
        if k == step.k { SumZero(Of(k, Flight), s.tasks); }
      } else {
        WeightGains(s.rss, s.tasks[step.i], step, k, P0Critical, {});
      }
    }
    CallersKnown(c, s.rss, s.tasks, step, t.tasks);
  }

  lemma StepKeepsActive(c: Setup, s: Sys, step: Step, t: Sys, p: Priority)
    requires Inv(c, s) && Next(c, s, step, t)
    ensures ActiveOk(c, t.tasks, p)
  {
    hide Inv, FlightOk, TierOk, After, Weight, Sum, Put;
    InvParts(c, s, p);
    NextMoves(c, s, step, t);
    SumMoves(Running(p), s.rss, s.tasks, step, t.tasks);
    SumMoves(Passed(p), s.rss, s.tasks, step, t.tasks);
    if step.Submit? {
      SubmissionIsWeightless(step.k, step.p, step.r, 0, p, {});
    } else {
      var ph := s.tasks[step.i];
      WeightGains(s.rss, ph, step, 0, p, {});
      if step.Advance? && ph.Checking? && ph.p == p {
        OthersPass(c, s.tasks, step.i, p);
      }
    }
  }

  /** The tier check, passed by submission `i`, bounds all that its caller takes of the tier. */
  lemma TierGate(c: Setup, s: Sys, i: nat, t: Sys, p: Priority)
    requires Inv(c, s) && Next(c, s, Advance(i), t)
    requires i < |s.tasks| && s.tasks[i].PassedActive? && s.tasks[i].p == p
    ensures Sum(Of(s.tasks[i].k, Taken(p)), s.tasks) + s.tasks[i].r <= c.budgets.At(p).maxRssMb
  {
    hide EffectiveCeiling, Sum;
    InvParts(c, s, p);
    TierTotal(c, s.tasks, p);
    ProductFits(c.budgets.At(p).maxRssMb, c.n);
    OwnLanded(c, s.tasks, i, Taken(p), {p});
  }

  lemma MovedTask(rss: Tiers<u64>, tasks: seq<Phase>, step: Step, after: seq<Phase>)
    requires Moves(rss, tasks, step, after) && !step.Submit?
    ensures step.i < |tasks|
  {
  }

  lemma StepKeepsTier(c: Setup, s: Sys, step: Step, t: Sys, p: Priority)
    requires Inv(c, s) && Next(c, s, step, t)
    ensures TierOk(c, t.tasks, p)
  {
    hide Inv, Next, Moves, FlightOk, After, Weight, Sum;
    InvParts(c, s, p);
    NextMoves(c, s, step, t);
    forall k: nat ensures Sum(Of(k, Taken(p)), t.tasks) <= c.budgets.At(p).maxRssMb {
      SumMoves(Of(k, Taken(p)), s.rss, s.tasks, step, t.tasks);
      if step.Submit? {
        SubmissionIsWeightless(step.k, step.p, step.r, k, p, {});
      } else {
        MovedTask(s.rss, s.tasks, step, t.tasks);
        var ph := s.tasks[step.i];
        WeightGains(s.rss, ph, step, k, p, {});
        if step.Advance? && ph.PassedActive? && ph.p == p && ph.k == k {
          TierGate(c, s, step.i, t, p);
        }
      }
    }
  }

  /** The ceiling check, passed on a total read at three times, bounds all that its caller takes. */
  lemma CeilingGate(c: Setup, s: Sys, i: nat, t: Sys)
    requires Inv(c, s) && SumsFit(c) && Next(c, s, Advance(i), t) && i < |s.tasks| && s.tasks[i].Summing?
    ensures Sum(Of(s.tasks[i].k, TakenInAll), s.tasks) + s.tasks[i].r <= EffectiveCeiling(c.config)
  {
    hide EffectiveCeiling, Sum;
    InvParts(c, s, P0Critical);
    assert ReadOk(c, s.tasks, s.tasks[i]);
    EveryTier();
    OwnLanded(c, s.tasks, i, TakenInAll, ALL_TIERS);
    PlainArithmetic(s.tasks[i].sum, s.tasks[i].r);
  }

  lemma StepKeepsCeiling(c: Setup, s: Sys, step: Step, t: Sys)
    requires Inv(c, s) && SumsFit(c) && Next(c, s, step, t)
    ensures CeilingOk(c, t.tasks)
  {
    hide Inv, Next, Moves, FlightOk, After, Weight, Sum, EffectiveCeiling, SumsFit;
    InvParts(c, s, P0Critical);
    NextMoves(c, s, step, t);
    forall k: nat ensures Sum(Of(k, TakenInAll), t.tasks) <= EffectiveCeiling(c.config) {
      SumMoves(Of(k, TakenInAll), s.rss, s.tasks, step, t.tasks);
      if step.Submit? {
        SubmissionIsWeightless(step.k, step.p, step.r, k, P0Critical, {});
      } else {
        MovedTask(s.rss, s.tasks, step, t.tasks);
        var ph := s.tasks[step.i];
        WeightGains(s.rss, ph, step, k, P0Critical, {});
        if step.Advance? && ph.Summing? && ph.k == k {
          CeilingGate(c, s, step.i, t);
        }
      }
    }
  }

  /** What others do never makes a reader's own landed megabytes grow. */
  lemma OtherStepKeepsRead(c: Setup, s: Sys, step: Step, t: Sys, j: nat)
    requires Inv(c, s) && Next(c, s, step, t) && j < |s.tasks| && s.tasks[j].Summing?
    requires ReadOk(c, s.tasks, s.tasks[j]) && (step.Submit? || step.i != j)
    ensures ReadOk(c, t.tasks, s.tasks[j])
  {
    hide Inv, Next, Sum;
    var me := s.tasks[j];
    InvParts(c, s, P0Critical);
    NextMoves(c, s, step, t);
    SumMoves(Of(me.k, Held(me.seen)), s.rss, s.tasks, step, t.tasks);
    if step.Submit? {
      SubmissionIsWeightless(step.k, step.p, step.r, me.k, P0Critical, me.seen);
    } else {
      WeightGains(s.rss, s.tasks[step.i], step, me.k, P0Critical, me.seen);
      if s.tasks[step.i].Counted? && s.tasks[step.i].k == me.k {
        OneInFlight(c, s.tasks, step.i, j);
      }
    }
  }

  lemma {:induction false} HeldOneMore(k: nat, ps: set<Priority>, q: Priority, tasks: seq<Phase>)
    requires q !in ps
    ensures Sum(Of(k, Held(ps + {q})), tasks) == Sum(Of(k, Held(ps)), tasks) + Sum(Of(k, Held({q})), tasks)
  {
    if tasks != [] {
      HeldOneMore(k, ps, q, tasks[..|tasks| - 1]);
      var ph := tasks[|tasks| - 1];
      assert Weight(Held(ps + {q}), ph) == Weight(Held(ps), ph) + Weight(Held({q}), ph);
    }
  }

  lemma MbGrows(c: Setup, ps: set<Priority>, q: Priority)
    requires q !in ps
    ensures MbOf(c, ps + {q}) == MbOf(c, ps) + c.budgets.At(q).maxRssMb
    ensures MbOf(c, ps + {q}) <= MbOf(c, ALL_TIERS)
  {
  }

  lemma Scaled(n: nat, x: nat, y: nat, most: nat)
    requires x + y <= most
    ensures n * (x + y) == n * x + n * y && n * (x + y) <= n * most
  {
    Distribute(n, x, y);
    Distribute(n, x + y, most - (x + y));
  }

  lemma MbOneMore(c: Setup, ps: set<Priority>, q: Priority)
    requires q !in ps
    ensures c.n * MbOf(c, ps + {q}) == c.n * MbOf(c, ps) + c.n * c.budgets.At(q).maxRssMb
    ensures c.n * MbOf(c, ps + {q}) <= c.n * MbOf(c, ALL_TIERS)
  {
    MbGrows(c, ps, q);
    hide MbOf, Tiers.At;
    Scaled(c.n, MbOf(c, ps), c.budgets.At(q).maxRssMb, MbOf(c, ALL_TIERS));
  }

  /** One more counter read: the part of the caller in that tier is in the value it loads. */
  lemma OwnReadKeepsRead(c: Setup, s: Sys, j: nat, q: Priority, t: Sys)
    requires Inv(c, s) && SumsFit(c) && Next(c, s, Read(j, q), t)
    requires ReadOk(c, s.tasks, s.tasks[j])
    ensures ReadOk(c, t.tasks, t.tasks[j])
  {
    hide Inv, Sum;
    var me := s.tasks[j];
    InvParts(c, s, q);
    SumUpdate(Of(me.k, Held(me.seen + {q})), s.tasks, j, t.tasks[j]);
    HeldOneMore(me.k, me.seen, q, s.tasks);
    MbOneMore(c, me.seen, q);
    TierTotal(c, s.tasks, q);
    SumAtMost(Of(me.k, Held({q})), Held({q}), s.tasks);
    PlainArithmetic(me.sum, s.rss.At(q));
  }

  lemma NotReading(c: Setup, tasks: seq<Phase>, ph: Phase)
    requires !ph.Summing?
    ensures ReadOk(c, tasks, ph)
  {
  }

  lemma NothingReadYet(c: Setup, tasks: seq<Phase>, ph: Phase)
    requires ph.Summing? && ph.seen == {} && ph.sum == 0
    ensures ReadOk(c, tasks, ph)
  {
    SumZero(Of(ph.k, Held({})), tasks);
  }

  lemma StepKeepsReads(c: Setup, s: Sys, step: Step, t: Sys)
    requires Inv(c, s) && SumsFit(c) && Next(c, s, step, t)
    ensures forall ph :: ph in t.tasks ==> ReadOk(c, t.tasks, ph)
  {
    hide Inv, SumsFit, ReadOk, Sum, Weight;
    InvParts(c, s, P0Critical);
    NextMoves(c, s, step, t);
    forall j | 0 <= j < |t.tasks| ensures ReadOk(c, t.tasks, t.tasks[j]) {
      if !t.tasks[j].Summing? {
        NotReading(c, t.tasks, t.tasks[j]);
      } else if step.Submit? || step.i != j {
        assert s.tasks[j] in s.tasks && t.tasks[j] == s.tasks[j];
        OtherStepKeepsRead(c, s, step, t, j);
      } else if step.Read? {
        assert s.tasks[j] in s.tasks;
        OwnReadKeepsRead(c, s, j, step.q, t);
      } else {
        NothingReadYet(c, t.tasks, t.tasks[j]);
      }
    }
  }

  lemma StepConservesActive(c: Setup, s: Sys, step: Step, t: Sys, p: Priority)
    requires Inv(c, s) && Next(c, s, step, t)
    ensures t.active.At(p) == Sum(Running(p), t.tasks)
  {
    hide Inv, Add64, WrappingSub64, SaturatingSub, EffectiveCeiling, Sum;
    InvParts(c, s, p);
    NextMoves(c, s, step, t);
    SumMoves(Running(p), s.rss, s.tasks, step, t.tasks);
    if step.Advance? && !s.tasks[step.i].Gone? && s.tasks[step.i].p == p {
      PartOfSum(Running(p), s.tasks, step.i);
      PlainArithmetic(s.active.At(p), 1);
    }
  }

  /** A tier's counter stays so far below 2^64 that one more request does not wrap it. */
  lemma RssFits(c: Setup, tasks: seq<Phase>, p: Priority)
    requires FlightOk(c, tasks) && TierOk(c, tasks, p)
    ensures Sum(Held({p}), tasks) + U32_MODULUS <= U64_MODULUS
  {
    TierTotal(c, tasks, p);
    ProductFits(c.budgets.At(p).maxRssMb, c.n);
  }

  lemma StepConservesRss(c: Setup, s: Sys, step: Step, t: Sys, p: Priority)
    requires Inv(c, s) && Next(c, s, step, t)
    ensures t.rss.At(p) == Sum(Held({p}), t.tasks)
  {
    hide Inv, Add64, WrappingSub64, SaturatingSub, EffectiveCeiling, Sum;
    InvParts(c, s, p);
    NextMoves(c, s, step, t);
    SumMoves(Held({p}), s.rss, s.tasks, step, t.tasks);
    if step.Advance? && !s.tasks[step.i].Gone? && s.tasks[step.i].p == p {
      RssFits(c, s.tasks, p);
      PartOfSum(Held({p}), s.tasks, step.i);
      PlainArithmetic(s.rss.At(p), s.tasks[step.i].r);
    }
  }

  lemma InvFrom(c: Setup, s: Sys)
    requires Conserved(s) && FlightOk(c, s.tasks)
    requires forall p: Priority :: ActiveOk(c, s.tasks, p) && TierOk(c, s.tasks, p)
    requires SumsFit(c) ==> CeilingOk(c, s.tasks) && forall ph :: ph in s.tasks ==> ReadOk(c, s.tasks, ph)
    ensures Inv(c, s)
  {
  }

  lemma StepKeepsInv(c: Setup, s: Sys, step: Step, t: Sys)
    requires Inv(c, s) && Next(c, s, step, t)
    ensures Inv(c, t)
  {
    hide Inv, Next, Sum, ActiveOk, TierOk, CeilingOk, ReadOk, FlightOk, SumsFit;
    StepKeepsFlight(c, s, step, t);
    if SumsFit(c) {
      StepKeepsCeiling(c, s, step, t);
      StepKeepsReads(c, s, step, t);
    }
    forall p: Priority
      ensures ActiveOk(c, t.tasks, p) && TierOk(c, t.tasks, p)
      ensures t.active.At(p) == Sum(Running(p), t.tasks) && t.rss.At(p) == Sum(Held({p}), t.tasks)
    {
      StepKeepsActive(c, s, step, t, p);
      StepKeepsTier(c, s, step, t, p);
      StepConservesActive(c, s, step, t, p);
      StepConservesRss(c, s, step, t, p);
    }
    InvFrom(c, t);
  }

  // ------------------------------------------------------------------------- whole runs

  const START := Sys(Tiers(0, 0, 0), Tiers(0, 0, 0), [])

  ghost predicate Behaviour(c: Setup, ss: seq<Sys>, steps: seq<Step>) {
    && |ss| == |steps| + 1
    && ss[0] == START
    && forall i :: 0 <= i < |steps| ==> Next(c, ss[i], steps[i], ss[i + 1])
  }

  lemma {:induction false} InvAlways(c: Setup, ss: seq<Sys>, steps: seq<Step>, i: nat)
    requires Behaviour(c, ss, steps) && c.n >= 1 && i < |ss|
    ensures Inv(c, ss[i])
  {
    if i == 0 {
      assert ss[0].tasks == [];
    } else {
      InvAlways(c, ss, steps, i - 1);
      StepKeepsInv(c, ss[i - 1], steps[i - 1], ss[i]);
    }
  }

  /**
   * At every moment of every run the counters are the counted tasks. Running and let-in tasks stay
   * within the limit plus n - 1, and megabytes held or let in within n times the tier limit.
   */
  lemma RacesAreBounded(c: Setup, ss: seq<Sys>, steps: seq<Step>, i: nat, p: Priority)
    requires Behaviour(c, ss, steps) && c.n >= 1 && i < |ss|
    ensures ss[i].active.At(p) == Sum(Running(p), ss[i].tasks)
    ensures ss[i].rss.At(p) == Sum(Held({p}), ss[i].tasks)
    ensures ss[i].active.At(p) + Sum(Passed(p), ss[i].tasks) <= c.budgets.At(p).maxConcurrent + c.n - 1
    ensures ss[i].rss.At(p) <= Sum(Taken(p), ss[i].tasks) <= c.budgets.At(p).maxRssMb * c.n
  {
    InvAlways(c, ss, steps, i);
    InvParts(c, ss[i], p);
    TierTotal(c, ss[i].tasks, p);
  }

  /** All tiers together stay within n times the ceiling, though no caller reads them at one time. */
  lemma CeilingIsBounded(c: Setup, ss: seq<Sys>, steps: seq<Step>, i: nat)
    requires Behaviour(c, ss, steps) && c.n >= 1 && SumsFit(c) && i < |ss|
    ensures ss[i].rss.p0 + ss[i].rss.p1 + ss[i].rss.p2 <= Sum(TakenInAll, ss[i].tasks) <=
      EffectiveCeiling(c.config) * c.n
  {
    InvAlways(c, ss, steps, i);
    var s := ss[i];
    InvParts(c, s, P0Critical);
    InvParts(c, s, P1Normal);
    InvParts(c, s, P2Background);
    hide Inv, EffectiveCeiling;
    assert s.rss.At(P0Critical) + s.rss.At(P1Normal) + s.rss.At(P2Background) == s.rss.p0 + s.rss.p1 + s.rss.p2;
    TiersAddUp(s.tasks);
    CeilingTotal(c, s.tasks);
  }

  /** One caller at a time: no tier limit and no system limit is ever exceeded. */
  lemma OneCallerIsSafe(c: Setup, ss: seq<Sys>, steps: seq<Step>, i: nat, p: Priority)
    requires Behaviour(c, ss, steps) && c.n == 1 && i < |ss|
    requires c.config.headroomMb <= c.config.systemRssCeilingMb
    ensures ss[i].active.At(p) <= c.budgets.At(p).maxConcurrent
    ensures ss[i].rss.At(p) <= c.budgets.At(p).maxRssMb
    ensures ss[i].rss.p0 + ss[i].rss.p1 + ss[i].rss.p2 <= c.config.systemRssCeilingMb - c.config.headroomMb
  {
    FewCallersFit(c);
    RacesAreBounded(c, ss, steps, i, p);
    CeilingIsBounded(c, ss, steps, i);
    CeilingIsMeantIff(c.config);
  }

  /** Ends undo starts: a live or leaving task is always in the counters it is about to be taken from. */
  lemma EndsNeverUnderflow(c: Setup, ss: seq<Sys>, steps: seq<Step>, i: nat, k: nat)
    requires Behaviour(c, ss, steps) && c.n >= 1 && i < |ss| && k < |ss[i].tasks|
    ensures ss[i].tasks[k].Live? ==> ss[i].active.At(ss[i].tasks[k].p) >= 1
    ensures ss[i].tasks[k].Leaving? ==> ss[i].rss.At(ss[i].tasks[k].p) >= ss[i].tasks[k].r
  {
    InvAlways(c, ss, steps, i);
    var ph := ss[i].tasks[k];
    if !ph.Gone? {
      PartOfSum(Running(ph.p), ss[i].tasks, k);
      PartOfSum(Held({ph.p}), ss[i].tasks, k);
    }
  }
}
