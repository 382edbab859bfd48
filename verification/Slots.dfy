/** src/scheduler/admission.rs and src/scheduler/allocator.rs: the slot count and the admission gate. */
module Slots {

  import opened MachineInts
  import opened MemoryPressure

  const U32_MAX := U32_MODULUS - 1

  datatype Requirements = Requirements(cpu: u32, memory: u32)

  datatype Allocated = Allocated(cpu: u32, memory: u32, agents: u32)

  // ---------------------------------------------------------------- the gate and the count

  /** The controller's limit, the allocator's active agents, and what the caller reports as available. */
  datatype Gate = Gate(limit: u32, active: u32, pressure: MemoryPressureLevel, cpu: u32, memory: u32)

  predicate CanSchedule(g: Gate, req: Requirements) {
    && g.pressure != Critical
    && g.cpu >= req.cpu
    && g.memory >= req.memory
    && g.active < g.limit
  }

  function AvailableSlots(g: Gate, req: Requirements): u32 {
    if g.pressure == Critical then 0 else
    var headroom := SaturatingSub(g.limit, g.active);
    var cpuSlots := if req.cpu > 0 then g.cpu / req.cpu else U32_MAX;
    var memSlots := if req.memory > 0 then g.memory / req.memory else U32_MAX;
    Min(Min(headroom, cpuSlots), memSlots)
  }

  lemma Mul(x: nat, y: nat, b: nat)
    requires x <= y
    ensures x * b <= y * b
  {
  }

  lemma QuotientIsLargest(k: nat, a: nat, b: nat)
    requires b > 0
    ensures k <= a / b <==> k * b <= a
  {
    var q := a / b;
    assert a == q * b + a % b;
    if k <= q {
      Mul(k, q, b);
    } else {
      Mul(q + 1, k, b);
      assert (q + 1) * b == q * b + b;
    }
  }

  /** The count is the largest number of agents that fit together, and none fits under critical pressure. */
  lemma SlotsAreLargest(g: Gate, req: Requirements, k: nat)
    ensures k <= AvailableSlots(g, req) <==>
      k == 0 ||
      (g.pressure != Critical && k * req.cpu <= g.cpu && k * req.memory <= g.memory && g.active + k <= g.limit)
  {
    if req.cpu > 0 { QuotientIsLargest(k, g.cpu, req.cpu); }
    if req.memory > 0 { QuotientIsLargest(k, g.memory, req.memory); }
  }

  /** The gate after one agent has been allocated and its requirement taken off what is available. */
  function AfterOne(g: Gate, req: Requirements): Gate
    requires CanSchedule(g, req)
  {
    g.(active := g.active + 1, cpu := g.cpu - req.cpu, memory := g.memory - req.memory)
  }

  /** Ask the gate and allocate; count until refused. */
  ghost function Rounds(g: Gate, req: Requirements): nat
    decreases g.limit - g.active
  {
    if CanSchedule(g, req) then 1 + Rounds(AfterOne(g, req), req) else 0
  }

  lemma QuotientDrops(a: nat, b: nat)
    requires 0 < b <= a
    ensures (a - b) / b == a / b - 1 && a / b >= 1
  {
    QuotientIsLargest(1, a, b);
    var q := a / b - 1;
    assert a == (q + 1) * b + a % b;
    assert (q + 1) * b == q * b + b;
    QuotientIsLargest(q, a - b, b);
    QuotientIsLargest(q + 1, a - b, b);
  }

  lemma OneRoundLess(g: Gate, req: Requirements)
    requires CanSchedule(g, req)
    ensures AvailableSlots(AfterOne(g, req), req) + 1 == AvailableSlots(g, req)
  {
    if req.cpu > 0 { QuotientDrops(g.cpu, req.cpu); }
    if req.memory > 0 { QuotientDrops(g.memory, req.memory); }
  }

  /** The count says how many rounds of asking and allocating succeed before the first refusal. */
  lemma {:induction false} SlotsCountRounds(g: Gate, req: Requirements)
    ensures Rounds(g, req) == AvailableSlots(g, req)
    decreases g.limit - g.active
  {
    if g.pressure != Critical {
      if CanSchedule(g, req) {
        SlotsCountRounds(AfterOne(g, req), req);
        OneRoundLess(g, req);
      } else {
        SlotsAreLargest(g, req, 1);
      }
    }
  }

  // -------------------------------------------------------------------- the allocator

  function AfterAllocate(a: Allocated, req: Requirements): Allocated {
    Allocated((a.cpu + req.cpu) % U32_MODULUS, (a.memory + req.memory) % U32_MODULUS, (a.agents + 1) % U32_MODULUS)
  }

  function AfterRelease(a: Allocated, req: Requirements): Allocated {
    Allocated(SaturatingSub(a.cpu, req.cpu), SaturatingSub(a.memory, req.memory), SaturatingSub(a.agents, 1))
  }

  /** A release undoes an allocation exactly when none of the three counters overflowed. */
  lemma ReleaseRestoresIff(a: Allocated, req: Requirements)
    ensures AfterRelease(AfterAllocate(a, req), req) == a <==>
      a.cpu + req.cpu < U32_MODULUS && a.memory + req.memory < U32_MODULUS && a.agents + 1 < U32_MODULUS
  {
  }

  datatype Op = Allocate(req: Requirements) | Release(i: nat)

  ghost function CpuOf(live: seq<Requirements>): nat {
    if live == [] then 0 else live[|live| - 1].cpu + CpuOf(live[..|live| - 1])
  }

  ghost function MemoryOf(live: seq<Requirements>): nat {
    if live == [] then 0 else live[|live| - 1].memory + MemoryOf(live[..|live| - 1])
  }

  /** An allocation adds one requirement to what is out; a release returns any one of them. */
  function LiveAfter(live: seq<Requirements>, op: Op): seq<Requirements> {
    match op
    case Allocate(req) => live + [req]
    case Release(i) => if i < |live| then live[..i] + live[i + 1..] else live
  }

  function Applied(a: Allocated, live: seq<Requirements>, op: Op): Allocated {
    match op
    case Allocate(req) => AfterAllocate(a, req)
    case Release(i) => if i < |live| then AfterRelease(a, live[i]) else a
  }

  ghost function Live(ops: seq<Op>): seq<Requirements> {
    if ops == [] then [] else LiveAfter(Live(ops[..|ops| - 1]), ops[|ops| - 1])
  }

  ghost function State(ops: seq<Op>): Allocated {
    if ops == [] then Allocated(0, 0, 0)
    else Applied(State(ops[..|ops| - 1]), Live(ops[..|ops| - 1]), ops[|ops| - 1])
  }

  ghost predicate Fits(live: seq<Requirements>) {
    CpuOf(live) < U32_MODULUS && MemoryOf(live) < U32_MODULUS && |live| < U32_MODULUS
  }

  /** At no time was more out than the counters can hold. */
  ghost predicate AlwaysFits(ops: seq<Op>) {
    Fits(Live(ops)) && (ops != [] ==> AlwaysFits(ops[..|ops| - 1]))
  }

  ghost predicate Exact(a: Allocated, live: seq<Requirements>) {
    a.cpu == CpuOf(live) && a.memory == MemoryOf(live) && a.agents == |live|
  }

  lemma {:induction false} WithoutOne(live: seq<Requirements>, i: nat)
    requires i < |live|
    ensures CpuOf(live[..i] + live[i + 1..]) == CpuOf(live) - live[i].cpu
    ensures MemoryOf(live[..i] + live[i + 1..]) == MemoryOf(live) - live[i].memory
    decreases |live|
  {
    var n := |live| - 1;
    var rest := live[..i] + live[i + 1..];
    if i == n {
      assert rest == live[..n];
    } else {
      WithoutOne(live[..n], i);
      assert rest[..|rest| - 1] == live[..n][..i] + live[..n][i + 1..];
      assert rest[|rest| - 1] == live[n];
    }
  }

  lemma AddFits(x: u32, y: u32)
    ensures x + y < U32_MODULUS ==> (x + y) % U32_MODULUS == x + y
  {
  }

  lemma OpKeepsExact(a: Allocated, live: seq<Requirements>, op: Op)
    requires Exact(a, live) && Fits(LiveAfter(live, op))
    ensures Exact(Applied(a, live, op), LiveAfter(live, op))
  {
    match op
    case Allocate(req) =>
      assert (live + [req])[..|live|] == live;
      AddFits(a.cpu, req.cpu);
      AddFits(a.memory, req.memory);
    case Release(i) =>
      if i < |live| { WithoutOne(live, i); }
  }

  /** Whatever the order of releases, the allocator holds exactly the sum of what is still out. */
  lemma {:induction false} AllocatorConserves(ops: seq<Op>)
    requires AlwaysFits(ops)
    ensures Exact(State(ops), Live(ops))
    decreases |ops|
  {
    if ops != [] {
      hide Exact;
      AllocatorConserves(ops[..|ops| - 1]);
      OpKeepsExact(State(ops[..|ops| - 1]), Live(ops[..|ops| - 1]), ops[|ops| - 1]);
    }
  }

  lemma WrapTwice(x: nat, y: nat)
    ensures (x % U32_MODULUS + y) % U32_MODULUS == (x + y) % U32_MODULUS
  {
  }

  /** Allocations alone add up with wrap-around, whether they fit the counters or not. */
  lemma {:induction false} AllocationsWrap(ops: seq<Op>)
    requires forall i :: 0 <= i < |ops| ==> ops[i].Allocate?
    ensures |Live(ops)| == |ops| && forall i :: 0 <= i < |ops| ==> Live(ops)[i] == ops[i].req
    ensures State(ops) == Allocated(
      CpuOf(Live(ops)) % U32_MODULUS, MemoryOf(Live(ops)) % U32_MODULUS, |ops| % U32_MODULUS)
    decreases |ops|
  {
    if ops != [] {
      var init, req := ops[..|ops| - 1], ops[|ops| - 1].req;
      AllocationsWrap(init);
      var live := Live(init);
      assert (live + [req])[..|live|] == live;
      WrapTwice(CpuOf(live), req.cpu);
      WrapTwice(MemoryOf(live), req.memory);
      WrapTwice(|live|, 1);
    }
  }

  class ResourceAllocator {
    var allocatedCpu: u32
    var allocatedMemory: u32
    var activeAgents: u32

    function Value(): Allocated
      reads this
    {
      Allocated(allocatedCpu, allocatedMemory, activeAgents)
    }

    constructor ()
      ensures Value() == Allocated(0, 0, 0)
    {
      allocatedCpu, allocatedMemory, activeAgents := 0, 0, 0;
    }

    method Allocate(req: Requirements)
      modifies this
      ensures Value() == AfterAllocate(old(Value()), req)
    {
      allocatedCpu := (allocatedCpu + req.cpu) % U32_MODULUS;
      allocatedMemory := (allocatedMemory + req.memory) % U32_MODULUS;
      activeAgents := (activeAgents + 1) % U32_MODULUS;
    }

    method Release(req: Requirements)
      modifies this
      ensures Value() == AfterRelease(old(Value()), req)
    {
      allocatedCpu := SaturatingSub(allocatedCpu, req.cpu);
      allocatedMemory := SaturatingSub(allocatedMemory, req.memory);
      activeAgents := SaturatingSub(activeAgents, 1);
    }
  }
}
