/**
 * How many tasks of a tier racing callers can have running. The task limit is not the only limit on
 * their number: every task holds a megabyte at least, so both memory limits are two more.
 */
module GovernorTaskCounts {
  import opened MachineInts
  import opened Governors
  import opened GovernorRaces

  /** The most that one request of a tier can ask for and still be admitted. */
  function Largest(c: Setup, p: Priority): u32 { Min(c.budgets.At(p).maxRssMb, EffectiveCeiling(c.config)) }

  /** As every task holds a megabyte at least, both memory limits also limit their number. */
  ghost predicate CrowdOk(c: Setup, tasks: seq<Phase>, p: Priority) {
    && Sum(Through(p), tasks) <= c.budgets.At(p).maxRssMb + c.n - 1
    && Sum(Fitting(p, EffectiveCeiling(c.config)), tasks) <= EffectiveCeiling(c.config) + c.n - 1
  }

  lemma {:induction false} SumAtMostBoth(m: Measure, a: Measure, b: Measure, tasks: seq<Phase>)
    requires forall ph :: ph in tasks ==> Weight(m, ph) <= Weight(a, ph) + Weight(b, ph)
    ensures Sum(m, tasks) <= Sum(a, tasks) + Sum(b, tasks)
  {
    hide Weight, Sum;
    if tasks == [] {
      SumZero(m, tasks);
    } else {
      var init, last := tasks[..|tasks| - 1], tasks[|tasks| - 1];
      SumAtMostBoth(m, a, b, init);
      assert last in tasks && init + [last] == tasks;
      SumSnoc(m, init, last);
      SumSnoc(a, init, last);
      SumSnoc(b, init, last);
    }
  }

  /** What is counted has landed in the tier's RSS, a megabyte at least, or is another caller's in flight. */
  lemma OthersCrowd(c: Setup, tasks: seq<Phase>, i: nat, m: Measure, p: Priority)
    requires FlightOk(c, tasks) && i < |tasks| && tasks[i].IsInFlight() && Weight(m, tasks[i]) == 0
    requires forall ph: Phase :: Weight(m, ph) <= Weight(Held({p}), ph) + Weight(Flight, ph)
    ensures Sum(m, tasks) <= Sum(Held({p}), tasks) + c.n - 1
  {
    hide Sum;
    FlightTotal(c, tasks);
    SumUpdate(m, tasks, i, Gone);
    SumUpdate(Held({p}), tasks, i, Gone);
    SumUpdate(Flight, tasks, i, Gone);
    SumAtMostBoth(m, Held({p}), Flight, tasks[i := Gone]);
  }

  /** At the tier check. */
  lemma ThroughGate(c: Setup, s: Sys, i: nat, t: Sys, p: Priority)
    requires Inv(c, s) && Next(c, s, Advance(i), t)
    requires i < |s.tasks| && s.tasks[i].PassedActive? && s.tasks[i].p == p
    ensures Sum(Through(p), s.tasks) + 1 <= c.budgets.At(p).maxRssMb + c.n - 1
  {
    hide EffectiveCeiling, Sum;
    InvParts(c, s, p);
    RssFits(c, s.tasks, p);
    PlainArithmetic(s.rss.At(p), s.tasks[i].r);
    OthersCrowd(c, s.tasks, i, Through(p), p);
  }

  lemma StepKeepsThrough(c: Setup, s: Sys, step: Step, t: Sys, p: Priority)
    requires Inv(c, s) && Next(c, s, step, t)
    requires Sum(Through(p), s.tasks) <= c.budgets.At(p).maxRssMb + c.n - 1
    ensures Sum(Through(p), t.tasks) <= c.budgets.At(p).maxRssMb + c.n - 1
  {
    hide Inv, Next, Sum;
    NextMoves(c, s, step, t);
    SumMoves(Through(p), s.rss, s.tasks, step, t.tasks);
    if step.Advance? && s.tasks[step.i].PassedActive? && s.tasks[step.i].p == p {
      ThroughGate(c, s, step.i, t, p);
    }
  }

  /** Adding a counter to a total being read does not wrap. */
  lemma ReadingFits(c: Setup, s: Sys, i: nat, q: Priority)
    requires Inv(c, s) && SumsFit(c) && i < |s.tasks| && s.tasks[i].Summing? && q !in s.tasks[i].seen
    ensures Add64(s.tasks[i].sum, s.rss.At(q)) == s.tasks[i].sum + s.rss.At(q)
  {
    hide Sum;
    var ph := s.tasks[i];
    InvParts(c, s, q);
    assert ReadOk(c, s.tasks, ph);
    MbOneMore(c, ph.seen, q);
    TierTotal(c, s.tasks, q);
    PlainArithmetic(ph.sum, s.rss.At(q));
  }

  /** At the reading of the submission's own tier for the total. */
  lemma FittingGate(c: Setup, s: Sys, i: nat, t: Sys, p: Priority)
    requires Inv(c, s) && SumsFit(c) && Next(c, s, Read(i, p), t)
    requires s.tasks[i].p == p && MayFit(t.tasks[i], EffectiveCeiling(c.config))
    ensures Sum(Fitting(p, EffectiveCeiling(c.config)), s.tasks) + 1 <= EffectiveCeiling(c.config) + c.n - 1
  {
    hide EffectiveCeiling, Sum;
    InvParts(c, s, p);
    ReadingFits(c, s, i, p);
    OthersCrowd(c, s.tasks, i, Fitting(p, EffectiveCeiling(c.config)), p);
  }

  /** A submission that passes the ceiling check has counted as fitting since it read its tier. */
  lemma AdmittedWasFitting(c: Setup, s: Sys, i: nat, t: Sys)
    requires Inv(c, s) && SumsFit(c) && Next(c, s, Advance(i), t) && i < |s.tasks| && s.tasks[i].Summing?
    ensures MayFit(s.tasks[i], EffectiveCeiling(c.config))
  {
    hide EffectiveCeiling, Sum;
    InvParts(c, s, P0Critical);
    assert ReadOk(c, s.tasks, s.tasks[i]);
    EveryTier();
    PlainArithmetic(s.tasks[i].sum, s.tasks[i].r);
  }

  lemma NotYetRead(c: Setup, s: Sys, step: Step, t: Sys)
    requires step.Read? && Next(c, s, step, t)
    ensures step.i < |s.tasks| && s.tasks[step.i].Summing? && step.q !in s.tasks[step.i].seen
  {
  }

  lemma StepKeepsFitting(c: Setup, s: Sys, step: Step, t: Sys, p: Priority)
    requires Inv(c, s) && SumsFit(c) && Next(c, s, step, t)
    requires Sum(Fitting(p, EffectiveCeiling(c.config)), s.tasks) <= EffectiveCeiling(c.config) + c.n - 1
    ensures Sum(Fitting(p, EffectiveCeiling(c.config)), t.tasks) <= EffectiveCeiling(c.config) + c.n - 1
  {
    hide Inv, Next, Sum, EffectiveCeiling, SumsFit, Add64;
    var e := EffectiveCeiling(c.config);
    NextMoves(c, s, step, t);
    SumMoves(Fitting(p, e), s.rss, s.tasks, step, t.tasks);
    if step.Read? {
      NotYetRead(c, s, step, t);
      ReadingFits(c, s, step.i, step.q);
      if step.q == p && s.tasks[step.i].p == p && MayFit(t.tasks[step.i], e) {
        FittingGate(c, s, step.i, t, p);
      }
    } else if step.Advance? && s.tasks[step.i].Summing? {
      AdmittedWasFitting(c, s, step.i, t);
    }
  }

  lemma {:induction false} CrowdAlways(c: Setup, ss: seq<Sys>, steps: seq<Step>, i: nat, p: Priority)
    requires Behaviour(c, ss, steps) && c.n >= 1 && SumsFit(c) && i < |ss|
    ensures CrowdOk(c, ss[i].tasks, p)
  {
    if i == 0 {
      assert ss[0].tasks == [];
    } else {
      CrowdAlways(c, ss, steps, i - 1, p);
      InvAlways(c, ss, steps, i - 1);
      hide Inv, Next, Sum, EffectiveCeiling, SumsFit;
      StepKeepsThrough(c, ss[i - 1], steps[i - 1], ss[i], p);
      StepKeepsFitting(c, ss[i - 1], steps[i - 1], ss[i], p);
    }
  }

  /** Whether the budget of a tier lets in anybody at all, whatever the memory. */
  predicate LetsIn(b: TierBudget) { b.maxConcurrent >= 1 && b.maxTokensPerHour >= 1 }

  /** A tier that lets in nobody keeps its submissions before the check they fail. */
  lemma {:induction false} NobodyPasses(c: Setup, ss: seq<Sys>, steps: seq<Step>, i: nat, p: Priority)
    requires Behaviour(c, ss, steps) && i < |ss| && !LetsIn(c.budgets.At(p))
    ensures forall ph :: ph in ss[i].tasks && !ph.Gone? && ph.p == p ==>
      ph.Checking? || (ph.PassedActive? && c.budgets.At(p).maxConcurrent >= 1)
  {
    if i > 0 {
      NobodyPasses(c, ss, steps, i - 1, p);
      var s, step, t := ss[i - 1], steps[i - 1], ss[i];
      assert Next(c, s, step, t);
      TokensMayPassIff(c.budgets.At(p));
      forall j | 0 <= j < |t.tasks| && !t.tasks[j].Gone? && t.tasks[j].p == p
        ensures t.tasks[j].Checking? || (t.tasks[j].PassedActive? && c.budgets.At(p).maxConcurrent >= 1)
      {
        if j < |s.tasks| { assert s.tasks[j] in s.tasks; }
      }
    }
  }

  /** The most tasks of a tier that `n` racing callers can have running. */
  function MostTasks(c: Setup, p: Priority): nat
    requires c.n >= 1
  {
    if LetsIn(c.budgets.At(p)) && Largest(c, p) >= 1 then
      Min(c.budgets.At(p).maxConcurrent, Largest(c, p)) + c.n - 1
    else 0
  }

  /** No room for a megabyte, no task. */
  lemma NoRoomNoTask(c: Setup, tasks: seq<Phase>, p: Priority)
    requires FlightOk(c, tasks) && TierOk(c, tasks, p) && CeilingOk(c, tasks) && Largest(c, p) == 0
    ensures Sum(Running(p), tasks) == 0
  {
    hide EffectiveCeiling, Sum;
    TierTotal(c, tasks, p);
    CeilingTotal(c, tasks);
    SumAtMost(Running(p), Taken(p), tasks);
    SumAtMost(Running(p), TakenInAll, tasks);
  }

  /** The task limit is not the only one on the number of tasks: the memory limits are two more. */
  lemma TasksAreBounded(c: Setup, ss: seq<Sys>, steps: seq<Step>, i: nat, p: Priority)
    requires Behaviour(c, ss, steps) && c.n >= 1 && SumsFit(c) && i < |ss|
    ensures ss[i].active.At(p) <= MostTasks(c, p)
  {
    var tasks := ss[i].tasks;
    InvAlways(c, ss, steps, i);
    InvParts(c, ss[i], p);
    CrowdAlways(c, ss, steps, i, p);
    hide Inv, Sum, EffectiveCeiling, SumsFit;
    if !LetsIn(c.budgets.At(p)) {
      NobodyPasses(c, ss, steps, i, p);
      SumZero(Running(p), tasks);
    } else if Largest(c, p) == 0 {
      NoRoomNoTask(c, tasks, p);
    } else {
      SumAtMost(Running(p), Through(p), tasks);
      SumAtMost(Running(p), Fitting(p, EffectiveCeiling(c.config)), tasks);
    }
  }
}
