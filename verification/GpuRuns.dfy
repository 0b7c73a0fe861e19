/**
  Filter and Reserve on the pods of one node, and every run the scheduler can make of
  them: the allocator keeps no state of its own, so safety is a property of the pods' annotations.
 */
module GpuRuns {
  import opened Options
  import opened GpuModel
  import opened Listings

  /** The node's allocatable amounts of the two resources, where it reports them. */
  datatype Node = Node(gpu: Option<int>, memory: Option<int>) {
    /** What the division of memory by GPU count demands of a node that reports GPUs. */
    predicate Divisible() { gpu.Some? ==> gpu.value > 0 }
    predicate Known() { gpu.Some? && memory.Some? && gpu.value > 0 && memory.value >= 0 }
    function Count(): nat
      requires Known()
    { gpu.value }
    /** Memory of each GPU: the node is taken to carry equal GPUs. */
    function PerGpu(): int
      requires Known()
    { memory.value / gpu.value }
    function Gpus(pods: seq<PodView>): seq<GpuView>
      requires Known()
    { BuildGpus(Count(), pods) }
  }

  datatype Verdict =
    | Admit
    | ConflictingResources
    | UnknownResource
    | InsufficientGpus
    | InsufficientMemory
    | NoFittingIndex

  /** `memory` is not negative wherever it is reported; the division needs a positive GPU count. */
  function Filter(node: Node, pods: seq<PodView>, pod: PodView): Verdict
    requires node.Divisible() && (node.memory.Some? ==> node.memory.value >= 0)
  {
    if !pod.Exclusive() && !pod.Shared() then Admit
    else if pod.Exclusive() && pod.Shared() then ConflictingResources
    else if node.gpu.None? || node.memory.None? then UnknownResource
    else if Total(LimitOf(GPU_RESOURCE), pods) + LimitSum(GPU_RESOURCE, pod.containers) > node.gpu.value then InsufficientGpus
    else if Total(LimitOf(MEM_RESOURCE), pods) + pod.Memory() > node.memory.value then InsufficientMemory
    else if pod.Shared() && FitIndexes(node.Gpus(pods), node.PerGpu(), pod.Memory()) == [] then NoFittingIndex
    else Admit
  }

  /**
    The annotations Reserve may leave on `pod`. An exclusive pod gets the lowest free GPU. A memory
    pod gets the head of a list whose sort compares one shared quantity with itself, so any
    element of the fitting indexes may come first.
   */
  ghost predicate MayReserve(node: Node, pods: seq<PodView>, pod: PodView, written: Annotation)
    requires node.Known()
  {
    if !pod.Exclusive() && !pod.Shared() then written == pod.index
    else if pod.Exclusive() && pod.Shared() then false
    else if pod.Exclusive() then
      var free := FreeIndexes(node.Gpus(pods), node.Count());
      free != [] && written == Index(free[0])
    else
      written.Index? && written.value in FitIndexes(node.Gpus(pods), node.PerGpu(), pod.Memory())
  }

  /** What the plugin is for. */
  ghost predicate Safe(node: Node, pods: seq<PodView>)
    requires node.Known()
  {
    && InRange(node.Count(), pods)
    && AllPositive(pods)
    // an exclusive pod is alone on its GPU
    && (forall g :: Total(ExclusivesOn(g), pods) > 0 ==> Total(HoldersOn(g), pods) == 1)
    // shared memory is never oversubscribed
    && (forall g :: UsedMemory(pods, g) <= node.PerGpu())
    // and neither is the node
    && Total(LimitOf(GPU_RESOURCE), pods) <= node.gpu.value
    && Total(LimitOf(MEM_RESOURCE), pods) <= node.memory.value
  }

  /** A pod that names a resource nowhere asks for none of it. */
  lemma {:induction false} NoLimitNoAmount(name: string, containers: seq<Limits>)
    requires !HasLimit(name, containers)
    ensures LimitSum(name, containers) == 0
  {
    if containers != [] {
      var rest := containers[..|containers| - 1];
      assert forall i :: 0 <= i < |rest| ==> rest[i] == containers[i];
      NoLimitNoAmount(name, rest);
    }
  }

  lemma LimitsNonNegative(p: PodView)
    requires p.PositiveLimits()
    ensures LimitOf(GPU_RESOURCE).Of(p) >= 0 && LimitOf(MEM_RESOURCE).Of(p) >= 0
  {
    if !p.Shared() {
      NoLimitNoAmount(MEM_RESOURCE, p.containers);
    }
  }

  // ---------------------------------------------------------------------------
  // Steps

  /** A scheduling cycle that got through: Filter, then Reserve, then the pod is on the node. */
  ghost predicate Scheduled(node: Node, s: seq<PodView>, t: seq<PodView>, pod: PodView, written: Annotation)
    requires node.Known()
  {
    && pod.PositiveLimits()
    && Filter(node, s, pod) == Admit
    && MayReserve(node, s, pod, written)
    && multiset(t) == multiset(s + [pod.(index := written)])
  }

  /** Unreserve drops the annotation; the pod leaves the node in a later step. */
  ghost predicate Unreserved(s: seq<PodView>, t: seq<PodView>, k: nat) {
    k < |s| && multiset(t) == multiset(s[k := s[k].(index := Missing)])
  }

  ghost predicate Removed(s: seq<PodView>, t: seq<PodView>, k: nat) {
    k < |s| && multiset(t) == multiset(Without(s, k))
  }

  /** Every step leaves the pods in any order: the node swaps the last pod into a gap. */
  ghost predicate Step(node: Node, s: seq<PodView>, t: seq<PodView>)
    requires node.Known()
  {
    || multiset(t) == multiset(s) // a cycle that was turned down, or a new snapshot
    || (exists pod, written :: Scheduled(node, s, t, pod, written))
    || (exists k: nat :: Unreserved(s, t, k))
    || (exists k: nat :: Removed(s, t, k))
  }

  ghost predicate Run(node: Node, states: seq<seq<PodView>>)
    requires node.Known()
  {
    && |states| > 0
    && states[0] == []
    && forall i :: 0 <= i < |states| - 1 ==> Step(node, states[i], states[i + 1])
  }

  // ---------------------------------------------------------------------------
  // Safety

  lemma SafeUnordered(node: Node, s: seq<PodView>, t: seq<PodView>)
    requires node.Known() && Safe(node, s) && multiset(s) == multiset(t)
    ensures Safe(node, t)
  {
    forall g
      ensures Total(ExclusivesOn(g), t) > 0 ==> Total(HoldersOn(g), t) == 1
      ensures UsedMemory(t, g) <= node.PerGpu()
    {
      assert UsedMemory(s, g) <= node.PerGpu();
      TotalUnordered(ExclusivesOn(g), s, t);
      TotalUnordered(HoldersOn(g), s, t);
      TotalUnordered(MemoryOn(g), s, t);
    }
    TotalUnordered(LimitOf(GPU_RESOURCE), s, t);
    TotalUnordered(LimitOf(MEM_RESOURCE), s, t);
    forall i | 0 <= i < |t|
      ensures t[i] in s
    {
      assert t[i] in multiset(s);
    }
  }

  /** The GPU Reserve picked takes the pod: free for an exclusive one, roomy and unmonopolised for a shared one. */
  lemma ReservedGpuTakesPod(node: Node, s: seq<PodView>, pod: PodView, written: Annotation)
    requires node.Known() && Safe(node, s) && pod.PositiveLimits()
    requires (pod.Exclusive() || pod.Shared()) && MayReserve(node, s, pod, written)
    ensures written.Index? && 0 <= written.value < node.Count()
    ensures Total(ExclusivesOn(written.value), s) == 0
    ensures pod.Exclusive() ==> Total(HoldersOn(written.value), s) == 0 && UsedMemory(s, written.value) == 0
    ensures pod.Shared() ==> UsedMemory(s, written.value) + pod.Memory() <= node.PerGpu()
  {
    var gpus := node.Gpus(s);
    forall g | 0 <= g < node.Count()
      ensures gpus[g].used >= 0
    {
      UsedMemoryNonNegative(s, g);
    }
    if pod.Exclusive() {
      FreeIndexesExact(gpus, node.Count());
      var free := FreeIndexes(gpus, node.Count());
      assert free[0] in free;
    } else {
      FitIndexesSound(gpus, node.PerGpu(), pod.Memory());
    }
    CountsNonNegative(s, written.value);
    UsedMemoryNonNegative(s, written.value);
  }

  lemma ScheduledSafe(node: Node, s: seq<PodView>, pod: PodView, written: Annotation)
    requires node.Known() && Safe(node, s)
    requires pod.PositiveLimits() && Filter(node, s, pod) == Admit && MayReserve(node, s, pod, written)
    ensures Safe(node, s + [pod.(index := written)])
  {
    hide Filter, MayReserve, LimitSum, HasLimit, Total;
    var placed := pod.(index := written);
    var t := s + [placed];
    assert pod.Exclusive() == placed.Exclusive() && pod.Shared() == placed.Shared() && pod.Memory() == placed.Memory();
    if pod.Exclusive() || pod.Shared() {
      ReservedGpuTakesPod(node, s, pod, written);
    }
    forall g
      ensures Total(ExclusivesOn(g), t) > 0 ==> Total(HoldersOn(g), t) == 1
      ensures UsedMemory(t, g) <= node.PerGpu()
    {
      assert UsedMemory(s, g) <= node.PerGpu();
      TotalWithPod(ExclusivesOn(g), s, placed);
      TotalWithPod(HoldersOn(g), s, placed);
      TotalWithPod(MemoryOn(g), s, placed);
    }
    AdmittedWithinTotals(node, s, pod, written);
  }

  /** Filter keeps the node's sums within what the node offers. */
  lemma AdmittedWithinTotals(node: Node, s: seq<PodView>, pod: PodView, written: Annotation)
    requires node.Known() && Filter(node, s, pod) == Admit
    requires Total(LimitOf(GPU_RESOURCE), s) <= node.gpu.value && Total(LimitOf(MEM_RESOURCE), s) <= node.memory.value
    ensures Total(LimitOf(GPU_RESOURCE), s + [pod.(index := written)]) <= node.gpu.value
    ensures Total(LimitOf(MEM_RESOURCE), s + [pod.(index := written)]) <= node.memory.value
  {
    TotalWithPod(LimitOf(GPU_RESOURCE), s, pod.(index := written));
    TotalWithPod(LimitOf(MEM_RESOURCE), s, pod.(index := written));
    if !pod.Exclusive() {
      NoLimitNoAmount(GPU_RESOURCE, pod.containers);
    }
    if !pod.Shared() {
      NoLimitNoAmount(MEM_RESOURCE, pod.containers);
    }
  }

  lemma RemovedSafe(node: Node, s: seq<PodView>, k: nat)
    requires node.Known() && Safe(node, s) && k < |s|
    ensures Safe(node, Without(s, k))
  {
    var t := Without(s, k);
    forall g
      ensures Total(ExclusivesOn(g), t) > 0 ==> Total(HoldersOn(g), t) == 1
      ensures UsedMemory(t, g) <= node.PerGpu()
    {
      assert UsedMemory(s, g) <= node.PerGpu();
      TotalWithout(ExclusivesOn(g), s, k);
      TotalWithout(HoldersOn(g), s, k);
      TotalWithout(MemoryOn(g), s, k);
      CountsNonNegative(t, g);
    }
    TotalWithout(LimitOf(GPU_RESOURCE), s, k);
    TotalWithout(LimitOf(MEM_RESOURCE), s, k);
    LimitsNonNegative(s[k]);
  }

  lemma UnreservedSafe(node: Node, s: seq<PodView>, k: nat)
    requires node.Known() && Safe(node, s) && k < |s|
    ensures Safe(node, s[k := s[k].(index := Missing)])
  {
    RemovedSafe(node, s, k);
    var bare := s[k].(index := Missing);
    assert bare.Shared() == s[k].Shared() && bare.Memory() == s[k].Memory();
    var t, rest := s[k := bare], Without(s, k);
    assert Without(t, k) == rest;
    forall g
      ensures Total(ExclusivesOn(g), t) == Total(ExclusivesOn(g), rest)
      ensures Total(HoldersOn(g), t) == Total(HoldersOn(g), rest)
      ensures UsedMemory(t, g) == UsedMemory(rest, g)
    {
      TotalWithout(ExclusivesOn(g), t, k);
      TotalWithout(HoldersOn(g), t, k);
      TotalWithout(MemoryOn(g), t, k);
    }
    TotalWithout(LimitOf(GPU_RESOURCE), s, k);
    TotalWithout(LimitOf(GPU_RESOURCE), t, k);
    TotalWithout(LimitOf(MEM_RESOURCE), s, k);
    TotalWithout(LimitOf(MEM_RESOURCE), t, k);
  }

  lemma StepSafe(node: Node, s: seq<PodView>, t: seq<PodView>)
    requires node.Known() && Safe(node, s) && Step(node, s, t)
    ensures Safe(node, t)
  {
    if multiset(t) == multiset(s) {
      SafeUnordered(node, s, t);
    } else if pod, written :| Scheduled(node, s, t, pod, written) {
      ScheduledSafe(node, s, pod, written);
      SafeUnordered(node, s + [pod.(index := written)], t);
    } else if k: nat :| Unreserved(s, t, k) {
      UnreservedSafe(node, s, k);
      SafeUnordered(node, s[k := s[k].(index := Missing)], t);
    } else {
      var k: nat :| Removed(s, t, k);
      RemovedSafe(node, s, k);
      SafeUnordered(node, Without(s, k), t);
    }
  }

  /**
    Every state of every run: indexes in range, an exclusive pod alone on its GPU, each GPU's
    summed memory limits within the memory of one GPU, and the node's sums within what it offers.
   */
  lemma {:induction false} EveryRunSafe(node: Node, states: seq<seq<PodView>>, i: nat)
    requires node.Known() && Run(node, states) && i < |states|
    ensures Safe(node, states[i])
  {
    if i > 0 {
      EveryRunSafe(node, states, i - 1);
      StepSafe(node, states[i - 1], states[i]);
    } else {
      DivNonNegative(node.memory.value, node.gpu.value);
    }
  }

  lemma DivNonNegative(a: int, b: int)
    requires a >= 0 && b > 0
    ensures a / b >= 0
  {
  }

  /** Two pods on one GPU, in any safe state: neither is exclusive. */
  lemma {:induction false} ExclusivePodsAlone(node: Node, pods: seq<PodView>, i: nat, j: nat)
    requires node.Known() && Safe(node, pods) && i < j < |pods|
    requires pods[i].Placed() && pods[j].Placed() && pods[i].index == pods[j].index
    ensures !pods[i].Exclusive() && !pods[j].Exclusive()
  {
    var g := pods[i].index.value;
    var rest := Without(pods, j);
    assert rest[i] == pods[i];
    var fewer := Without(rest, i);
    TotalWithout(HoldersOn(g), pods, j);
    TotalWithout(HoldersOn(g), rest, i);
    TotalWithout(ExclusivesOn(g), pods, j);
    TotalWithout(ExclusivesOn(g), rest, i);
    CountsNonNegative(fewer, g);
  }

  // ---------------------------------------------------------------------------
  // Filter against Reserve

  /** With the pod the node asks for no more of the resource than it has. */
  predicate SumFits(name: string, available: int, pods: seq<PodView>, pod: PodView) {
    Total(LimitOf(name), pods + [pod]) <= available
  }

  /** Some GPU carries no exclusive pod and has, of its equal share, what the pod asks for left. */
  ghost predicate SomeGpuTakes(node: Node, pods: seq<PodView>, pod: PodView)
    requires node.Known()
  {
    exists g :: 0 <= g < node.Count() && Total(ExclusivesOn(g), pods) == 0 &&
      UsedMemory(pods, g) + pod.Memory() <= node.memory.value / node.gpu.value
  }

  /**
    When a pod of one kind is admitted: exactly when both sums fit and, for a memory pod, some GPU takes
    it. A pod turned down hears the first of these that fails.
   */
  lemma AdmitsIff(node: Node, pods: seq<PodView>, pod: PodView)
    requires node.Known() && AllPositive(pods) && pod.PositiveLimits() && pod.Exclusive() != pod.Shared()
    ensures var verdict := Filter(node, pods, pod);
            var gpus, memory := SumFits(GPU_RESOURCE, node.gpu.value, pods, pod), SumFits(MEM_RESOURCE, node.memory.value, pods, pod);
            && (verdict == Admit <==> gpus && memory && (pod.Shared() ==> SomeGpuTakes(node, pods, pod)))
            && (verdict == InsufficientGpus <==> !gpus)
            && (verdict == InsufficientMemory <==> gpus && !memory)
            && (verdict == NoFittingIndex <==> gpus && memory && pod.Shared() && !SomeGpuTakes(node, pods, pod))
  {
    TotalWithPod(LimitOf(GPU_RESOURCE), pods, pod);
    TotalWithPod(LimitOf(MEM_RESOURCE), pods, pod);
    if pod.Shared() {
      IndexIff(node, pods, pod);
    }
  }

  lemma IndexIff(node: Node, pods: seq<PodView>, pod: PodView)
    requires node.Known() && AllPositive(pods) && pod.Shared() && pod.Memory() > 0
    ensures FitIndexes(node.Gpus(pods), node.PerGpu(), pod.Memory()) != [] <==> SomeGpuTakes(node, pods, pod)
  {
    var gpus := node.Gpus(pods);
    forall g | 0 <= g < node.Count()
      ensures gpus[g].used >= 0
      ensures gpus[g].Fits(node.PerGpu(), pod.Memory()) <==>
              Total(ExclusivesOn(g), pods) == 0 && UsedMemory(pods, g) + pod.Memory() <= node.PerGpu()
    {
      UsedMemoryNonNegative(pods, g);
      CountsNonNegative(pods, g);
    }
    FitIndexesSound(gpus, node.PerGpu(), pod.Memory());
  }

  /** Pods of no kind are admitted anywhere, pods of both kinds nowhere, and others need a node that reports both resources. */
  lemma OtherVerdicts(node: Node, pods: seq<PodView>, pod: PodView)
    requires node.Divisible() && (node.memory.Some? ==> node.memory.value >= 0)
    ensures !HasLimit(GPU_RESOURCE, pod.containers) && !HasLimit(MEM_RESOURCE, pod.containers) ==> Filter(node, pods, pod) == Admit
    ensures Filter(node, pods, pod) == ConflictingResources <==> HasLimit(GPU_RESOURCE, pod.containers) && HasLimit(MEM_RESOURCE, pod.containers)
    ensures Filter(node, pods, pod) == UnknownResource <==>
            HasLimit(GPU_RESOURCE, pod.containers) != HasLimit(MEM_RESOURCE, pod.containers) && (node.gpu.None? || node.memory.None?)
  {
  }

  /** A memory pod that Filter admits is given an index by Reserve on the same pods. */
  lemma AdmittedMemoryPodReserves(node: Node, pods: seq<PodView>, pod: PodView)
    requires node.Known() && pod.Shared() && Filter(node, pods, pod) == Admit
    ensures exists written :: MayReserve(node, pods, pod, written)
  {
    var i := FitIndexes(node.Gpus(pods), node.PerGpu(), pod.Memory())[0];
    assert MayReserve(node, pods, pod, Index(i));
  }

  /**
    The bin packing that is announced: whatever order the sort leaves, the GPU that Reserve writes for a
    memory pod is a tightest fit exactly when the looser fits are shut out by the tightest ones before them.
   */
  lemma ReservePicksTightestIff(node: Node, pods: seq<PodView>, pod: PodView, tight: nat)
    requires node.Known() && AllPositive(pods) && pod.Shared() && !pod.Exclusive() && pod.PositiveLimits()
    requires Tightest(node.Gpus(pods), node.PerGpu(), pod.Memory(), tight)
    ensures UsedMemory(pods, tight) >= 0
    ensures (forall written :: MayReserve(node, pods, pod, written) ==>
               Tightest(node.Gpus(pods), node.PerGpu(), pod.Memory(), written.value))
            <==> LooserShutOut(node.Gpus(pods), node.Count(), node.PerGpu(), pod.Memory(), UsedMemory(pods, tight))
  {
    var gpus, memory, limit := node.Gpus(pods), node.PerGpu(), pod.Memory();
    forall g | 0 <= g < node.Count()
      ensures gpus[g].used >= 0
    {
      UsedMemoryNonNegative(pods, g);
    }
    PicksTightestIff(gpus, memory, limit, tight);
    forall i | i in FitIndexes(gpus, memory, limit)
      ensures MayReserve(node, pods, pod, Index(i))
    {
    }
  }

  /** Reserve finds an index for an exclusive pod exactly when some GPU carries no pod at all. */
  lemma ExclusiveReserveIff(node: Node, pods: seq<PodView>, pod: PodView)
    requires node.Known() && AllPositive(pods) && pod.Exclusive() && !pod.Shared()
    ensures (exists written :: MayReserve(node, pods, pod, written))
            <==> exists g :: 0 <= g < node.Count() && Total(HoldersOn(g), pods) == 0
  {
    var gpus := node.Gpus(pods);
    var free := FreeIndexes(gpus, node.Count());
    FreeIndexesExact(gpus, node.Count());
    forall g | 0 <= g < node.Count()
      ensures gpus[g].Free() <==> Total(HoldersOn(g), pods) == 0
    {
      FreeIff(node, pods, g);
    }
    if free != [] {
      assert free[0] in free;
      assert MayReserve(node, pods, pod, Index(free[0]));
    }
    if g :| 0 <= g < node.Count() && Total(HoldersOn(g), pods) == 0 {
      assert g in free;
    }
  }

  /** And it is the lowest such GPU. A pod of neither kind keeps the annotation it has, and one of both kinds gets none. */
  lemma ExclusiveGetsLowest(node: Node, pods: seq<PodView>, pod: PodView, written: Annotation)
    requires node.Known() && AllPositive(pods)
    ensures pod.Exclusive() && !pod.Shared() ==>
      (MayReserve(node, pods, pod, written) <==>
         && written.Index? && 0 <= written.value < node.Count() && Total(HoldersOn(written.value), pods) == 0
         && forall g :: 0 <= g < written.value ==> Total(HoldersOn(g), pods) > 0)
    ensures !pod.Exclusive() && !pod.Shared() ==> (MayReserve(node, pods, pod, written) <==> written == pod.index)
    ensures pod.Exclusive() && pod.Shared() ==> !MayReserve(node, pods, pod, written)
  {
    if pod.Exclusive() && !pod.Shared() {
      var free := FreeIndexes(node.Gpus(pods), node.Count());
      FreeIndexesExact(node.Gpus(pods), node.Count());
      forall g: nat | g < node.Count()
        ensures g in free <==> Total(HoldersOn(g), pods) == 0
        ensures Total(HoldersOn(g), pods) >= 0
      {
        FreeIff(node, pods, g);
      }
      if free != [] {
        assert free[0] in free;
        assert forall i :: 0 <= i < |free| ==> free[0] <= free[i];
      }
    }
  }

  lemma FreeIff(node: Node, pods: seq<PodView>, g: nat)
    requires node.Known() && AllPositive(pods) && g < node.Count()
    ensures node.Gpus(pods)[g].Free() <==> Total(HoldersOn(g), pods) == 0
    ensures Total(HoldersOn(g), pods) >= 0
  {
    CountsNonNegative(pods, g);
    UsedMemoryNonNegative(pods, g);
    if Total(HoldersOn(g), pods) == 0 {
      NoHoldersNoMemory(pods, g);
    }
  }

  lemma {:induction false} NoHoldersNoMemory(pods: seq<PodView>, g: int)
    requires Total(HoldersOn(g), pods) == 0
    ensures UsedMemory(pods, g) == 0
  {
    if pods != [] {
      CountsNonNegative(pods[..|pods| - 1], g);
      NoHoldersNoMemory(pods[..|pods| - 1], g);
    }
  }

  /**
    Filter asks less of an exclusive pod: it compares sums of limits and looks at no GPU. Here one
    GPU carries a memory pod; Filter admits an exclusive pod and Reserve has no index for it.
   */
  lemma AdmittedExclusivePodMayFail()
    ensures var node := Node(Some(1), Some(10));
            var pods := [PodView([map[MEM_RESOURCE := 4]], Index(0))];
            var pod := PodView([map[GPU_RESOURCE := 1]], Missing);
            && Safe(node, pods)
            && Filter(node, pods, pod) == Admit
            && !exists written :: MayReserve(node, pods, pod, written)
  {
    var node := Node(Some(1), Some(10));
    var shared := PodView([map[MEM_RESOURCE := 4]], Index(0));
    var pods := [shared];
    var pod := PodView([map[GPU_RESOURCE := 1]], Missing);
    OneContainer(MEM_RESOURCE, MEM_RESOURCE, 4);
    OneContainer(GPU_RESOURCE, MEM_RESOURCE, 4);
    OneContainer(MEM_RESOURCE, GPU_RESOURCE, 1);
    OneContainer(GPU_RESOURCE, GPU_RESOURCE, 1);
    assert |GPU_RESOURCE| != |MEM_RESOURCE|;
    forall m: Measure
      ensures Total(m, pods) == m.Of(shared)
    {
      TotalWithPod(m, [], shared);
      assert [] + [shared] == pods;
    }
    assert Safe(node, pods);
    ExclusiveReserveIff(node, pods, pod);
  }

  lemma OneContainer(name: string, key: string, amount: int)
    ensures HasLimit(name, [map[key := amount]]) <==> name == key
    ensures LimitSum(name, [map[key := amount]]) == if name == key then amount else 0
  {
    var one: seq<Limits> := [map[key := amount]];
    assert name in one[0] <==> name == key;
    assert one[..0] == [];
    assert LimitSum(name, one) == LimitSum(name, one[..0]) + if name == key then amount else 0;
  }

  // ---------------------------------------------------------------------------
  // Scores

  /** The GPUs that carry no pod. */
  function IdleGpus(node: Node, pods: seq<PodView>): set<int>
    requires node.Known()
  {
    set g | 0 <= g < node.Count() && Total(HoldersOn(g), pods) == 0
  }

  /** What the scores are: the free memory of all GPUs together, and the number of GPUs that carry no pod. */
  lemma ScoresAre(node: Node, pods: seq<PodView>)
    requires node.Known() && AllPositive(pods) && InRange(node.Count(), pods)
    ensures MemScore(node.Gpus(pods), node.PerGpu()) == node.Count() * node.PerGpu() - Total(IndexedMemory, pods)
    ensures GpuScore(node.Gpus(pods)) == |IdleGpus(node, pods)|
  {
    hide Total, MemScore, FreeIndexes, TotalUsed;
    var gpus := node.Gpus(pods);
    MemScoreIs(gpus, node.PerGpu());
    MemoryConserved(node.Count(), pods);
    FreeCount(gpus, |gpus|);
    forall g
      ensures g in FreeGpus(gpus, |gpus|) <==> g in IdleGpus(node, pods)
    {
      if 0 <= g < node.Count() {
        FreeIff(node, pods, g);
      }
    }
    assert FreeGpus(gpus, |gpus|) == IdleGpus(node, pods);
  }

  /** An accepted memory reservation of `m` lowers the node's memory score by exactly `m`. */
  lemma MemoryReserveLowersScore(node: Node, s: seq<PodView>, pod: PodView, written: Annotation)
    requires node.Known() && Safe(node, s) && pod.PositiveLimits()
    requires pod.Shared() && MayReserve(node, s, pod, written)
    ensures MemScore(node.Gpus(s + [pod.(index := written)]), node.PerGpu())
            == MemScore(node.Gpus(s), node.PerGpu()) - pod.Memory()
  {
    ReservedGpuTakesPod(node, s, pod, written);
    var placed := pod.(index := written);
    assert placed.Shared() && placed.Memory() == pod.Memory();
    forall g { CountsNonNegative(s, g); }
    BuildGpusWithPod(node.Count(), s, placed);
    TotalUsedUpdate(node.Gpus(s), node.Gpus(s + [placed]), written.value, pod.Memory());
    MemScoreUpdate(node.Gpus(s), node.Gpus(s + [placed]), node.PerGpu());
  }

  /** An accepted exclusive reservation lowers the number of free GPUs by exactly one. */
  lemma ExclusiveReserveLowersScore(node: Node, s: seq<PodView>, pod: PodView, written: Annotation)
    requires node.Known() && Safe(node, s) && pod.PositiveLimits()
    requires pod.Exclusive() && MayReserve(node, s, pod, written)
    ensures GpuScore(node.Gpus(s + [pod.(index := written)])) == GpuScore(node.Gpus(s)) - 1
  {
    ReservedGpuTakesPod(node, s, pod, written);
    var placed := pod.(index := written);
    assert placed.Exclusive() && !placed.Shared();
    forall g { CountsNonNegative(s, g); }
    BuildGpusWithPod(node.Count(), s, placed);
    FreeIndexesAfterUse(node.Gpus(s), node.Gpus(s + [placed]), node.Count(), written.value);
  }
}
