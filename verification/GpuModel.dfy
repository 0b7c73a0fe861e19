/**
  The values behind the FlexGPU plugin: what a pod asks for, what each GPU of a
  node carries given the pods' index annotations, and which GPUs a request fits.
  The heap-level code in module `FlexGpu` is proved against these definitions.
 */
module GpuModel {
  import opened Listings

  const GPU_RESOURCE := "nvidia.flex.com/gpu"
  const MEM_RESOURCE := "nvidia.flex.com/memory"

  /** The `nvidia.flex.com/index` annotation after `strconv.Atoi`. */
  datatype Annotation = Missing | Malformed | Index(value: int)

  type Limits = map<string, int>

  /** Sum of one limit over a pod's containers. */
  function LimitSum(name: string, containers: seq<Limits>): int {
    if containers == [] then 0
    else
      var last := containers[|containers| - 1];
      LimitSum(name, containers[..|containers| - 1]) + if name in last then last[name] else 0
  }

  predicate HasLimit(name: string, containers: seq<Limits>) {
    exists i :: 0 <= i < |containers| && name in containers[i]
  }

  datatype PodView = PodView(containers: seq<Limits>, index: Annotation) {
    predicate Exclusive() { HasLimit(GPU_RESOURCE, containers) }
    predicate Shared() { HasLimit(MEM_RESOURCE, containers) }
    function Memory(): int { LimitSum(MEM_RESOURCE, containers) }

    predicate Placed() { (Exclusive() || Shared()) && index.Index? }

    /** A memory limit that is set is positive, and no limit is negative. */
    predicate PositiveLimits() { (Shared() ==> Memory() > 0) && LimitSum(GPU_RESOURCE, containers) >= 0 }
  }

  /** The quantities that are summed over the pods of a node. */
  datatype Measure =
    | MemoryOn(g: int)      // memory limit, if placed on GPU `g`
    | HoldersOn(g: int)     // one, if placed on GPU `g`
    | ExclusivesOn(g: int)  // one, if exclusive and placed on GPU `g`
    | IndexedMemory         // memory limit, if placed on any GPU
    | LimitOf(name: string) // the limit itself, placed or not
  {
    function Of(p: PodView): int {
      match this
      case MemoryOn(g) => if p.Shared() && p.index == Index(g) then p.Memory() else 0
      case HoldersOn(g) => if p.Placed() && p.index == Index(g) then 1 else 0
      case ExclusivesOn(g) => if p.Exclusive() && p.index == Index(g) then 1 else 0
      case IndexedMemory => if p.Shared() && p.index.Index? then p.Memory() else 0
      case LimitOf(name) => LimitSum(name, p.containers)
    }
  }

  function Total(m: Measure, pods: seq<PodView>): int {
    if pods == [] then 0 else Total(m, pods[..|pods| - 1]) + m.Of(pods[|pods| - 1])
  }

  datatype GpuView = GpuView(monopoly: bool, used: int) {
    predicate Free() { !monopoly && used == 0 }
    predicate Fits(memory: int, limit: int) { !monopoly && memory >= used + limit }
  }

  function UsedMemory(pods: seq<PodView>, g: int): int { Total(MemoryOn(g), pods) }

  /** Some exclusive pod is placed on GPU `g`. */
  predicate Monopolised(pods: seq<PodView>, g: int) { Total(ExclusivesOn(g), pods) > 0 }

  /** The usage of every GPU, as it follows from the pods alone. */
  function BuildGpus(count: nat, pods: seq<PodView>): seq<GpuView> {
    seq(count, g => GpuView(Monopolised(pods, g), UsedMemory(pods, g)))
  }

  predicate InRange(count: nat, pods: seq<PodView>) {
    forall i :: 0 <= i < |pods| && pods[i].Placed() ==> 0 <= pods[i].index.value < count
  }

  ghost predicate AllPositive(pods: seq<PodView>) {
    forall i :: 0 <= i < |pods| ==> pods[i].PositiveLimits()
  }

  // ---------------------------------------------------------------------------
  // Usage as a function of the pods

  lemma TotalWithPod(m: Measure, pods: seq<PodView>, pod: PodView)
    ensures Total(m, pods + [pod]) == Total(m, pods) + m.Of(pod)
  {
    assert (pods + [pod])[..|pods|] == pods;
  }

  /** Taking one pod out takes exactly its share out. */
  lemma {:induction false} TotalWithout(m: Measure, pods: seq<PodView>, k: nat)
    requires k < |pods|
    ensures Total(m, pods) == Total(m, Without(pods, k)) + m.Of(pods[k])
  {
    var last := |pods| - 1;
    var rest := Without(pods, k);
    if k == last {
      assert rest == pods[..last];
    } else {
      TotalWithout(m, pods[..last], k);
      var fewer := Without(pods[..last], k);
      WithoutInit(pods, k);
      TotalWithPod(m, fewer, pods[last]);
    }
  }

  lemma {:induction false} TotalUnordered(m: Measure, p: seq<PodView>, q: seq<PodView>)
    requires multiset(p) == multiset(q)
    ensures Total(m, p) == Total(m, q)
    decreases |p|
  {
    if p == [] {
      assert |q| == |multiset(q)| == |multiset(p)| == 0;
    } else {
      assert p[|p| - 1] in multiset(p);
      var k :| 0 <= k < |q| && q[k] == p[|p| - 1];
      TotalWithout(m, q, k);
      MatchRemoved(p, q, k);
      TotalUnordered(m, p[..|p| - 1], Without(q, k));
    }
  }

  /** The rebuilt usage does not depend on the order in which the node lists its pods. */
  lemma BuildGpusUnordered(count: nat, p: seq<PodView>, q: seq<PodView>)
    requires multiset(p) == multiset(q)
    ensures BuildGpus(count, p) == BuildGpus(count, q)
  {
    forall g | 0 <= g < count
      ensures BuildGpus(count, p)[g] == BuildGpus(count, q)[g]
    {
      TotalUnordered(MemoryOn(g), p, q);
      TotalUnordered(ExclusivesOn(g), p, q);
    }
  }

  /** One more pod changes the usage of the GPU it is placed on, and of no other. */
  lemma BuildGpusWithPod(count: nat, pods: seq<PodView>, pod: PodView)
    requires forall g :: Total(ExclusivesOn(g), pods) >= 0
    ensures |BuildGpus(count, pods + [pod])| == count
    ensures forall g :: 0 <= g < count ==>
      BuildGpus(count, pods + [pod])[g] ==
        GpuView(BuildGpus(count, pods)[g].monopoly || (pod.Exclusive() && pod.index == Index(g)),
                BuildGpus(count, pods)[g].used + MemoryOn(g).Of(pod))
  {
    forall g | 0 <= g < count
      ensures Total(ExclusivesOn(g), pods + [pod]) == Total(ExclusivesOn(g), pods) + ExclusivesOn(g).Of(pod)
      ensures Total(MemoryOn(g), pods + [pod]) == Total(MemoryOn(g), pods) + MemoryOn(g).Of(pod)
    {
      TotalWithPod(ExclusivesOn(g), pods, pod);
      TotalWithPod(MemoryOn(g), pods, pod);
    }
  }

  lemma {:induction false} CountsNonNegative(pods: seq<PodView>, g: int)
    ensures 0 <= Total(ExclusivesOn(g), pods) <= Total(HoldersOn(g), pods)
  {
    if pods != [] {
      CountsNonNegative(pods[..|pods| - 1], g);
    }
  }

  /** With positive limits a GPU shows no used memory only when no memory pod is placed on it. */
  lemma {:induction false} UsedMemoryNonNegative(pods: seq<PodView>, g: int)
    requires AllPositive(pods)
    ensures UsedMemory(pods, g) >= 0
    ensures UsedMemory(pods, g) == 0 ==> Total(HoldersOn(g), pods) == Total(ExclusivesOn(g), pods)
  {
    if pods != [] {
      UsedMemoryNonNegative(pods[..|pods| - 1], g);
      CountsNonNegative(pods[..|pods| - 1], g);
    }
  }

  /** Used memory summed over the GPUs. */
  function TotalUsed(gpus: seq<GpuView>): int {
    if gpus == [] then 0 else TotalUsed(gpus[..|gpus| - 1]) + gpus[|gpus| - 1].used
  }

  lemma {:induction false} TotalUsedUpdate(before: seq<GpuView>, after: seq<GpuView>, k: int, m: int)
    requires |before| == |after|
    requires forall g :: 0 <= g < |before| ==> after[g].used == before[g].used + (if g == k then m else 0)
    ensures TotalUsed(after) == TotalUsed(before) + if 0 <= k < |before| then m else 0
  {
    if before != [] {
      TotalUsedUpdate(before[..|before| - 1], after[..|after| - 1], k, m);
    }
  }

  lemma {:induction false} TotalUsedOfNone(count: nat)
    ensures TotalUsed(BuildGpus(count, [])) == 0
  {
    if count > 0 {
      TotalUsedOfNone(count - 1);
      assert BuildGpus(count, [])[..count - 1] == BuildGpus(count - 1, []);
    }
  }

  /** Conservation: with every index in range, no memory limit is lost or counted twice. */
  lemma {:induction false} MemoryConserved(count: nat, pods: seq<PodView>)
    requires InRange(count, pods)
    ensures TotalUsed(BuildGpus(count, pods)) == Total(IndexedMemory, pods)
  {
    if pods == [] {
      TotalUsedOfNone(count);
    } else {
      var n := |pods| - 1;
      var rest, last := pods[..n], pods[n];
      assert pods == rest + [last];
      MemoryConserved(count, rest);
      forall g { CountsNonNegative(rest, g); }
      BuildGpusWithPod(count, rest, last);
      var k := if last.index.Index? then last.index.value else -1;
      TotalUsedUpdate(BuildGpus(count, rest), BuildGpus(count, pods), k, IndexedMemory.Of(last));
    }
  }

  // ---------------------------------------------------------------------------
  // The index search for a memory request

  /**
    The search over the first `n` GPUs. Each GPU that is accepted takes its whole
    assumed usage out of the one memory quantity that all GPUs share, so later GPUs
    are compared with what is left (`.1`), not with the memory of a GPU.
   */
  function Scan(gpus: seq<GpuView>, n: nat, memory: int, limit: int): (seq<nat>, int)
    requires n <= |gpus|
  {
    if n == 0 then ([], memory)
    else
      var (fits, left) := Scan(gpus, n - 1, memory, limit);
      if gpus[n - 1].Fits(left, limit)
      then (fits + [n - 1], left - (gpus[n - 1].used + limit))
      else (fits, left)
  }

  function FitIndexes(gpus: seq<GpuView>, memory: int, limit: int): seq<nat> {
    Scan(gpus, |gpus|, memory, limit).0
  }

  ghost predicate NonNegativeUse(gpus: seq<GpuView>) {
    forall g :: 0 <= g < |gpus| ==> gpus[g].used >= 0
  }

  lemma {:induction false} ScanSound(gpus: seq<GpuView>, n: nat, memory: int, limit: int)
    requires n <= |gpus| && NonNegativeUse(gpus) && limit >= 0
    ensures Scan(gpus, n, memory, limit).1 <= memory
    ensures forall i :: i in Scan(gpus, n, memory, limit).0 ==> i < n && gpus[i].Fits(memory, limit)
    ensures Scan(gpus, n, memory, limit).0 == [] ==> Scan(gpus, n, memory, limit).1 == memory
    ensures Scan(gpus, n, memory, limit).0 == [] ==> forall i :: 0 <= i < n ==> !gpus[i].Fits(memory, limit)
  {
    if n > 0 {
      ScanSound(gpus, n - 1, memory, limit);
    }
  }

  /**
    Although the search shrinks the shared quantity, an index it returns fits by the values
    before the call, and it returns nothing exactly when no GPU fits by those values.
   */
  lemma FitIndexesSound(gpus: seq<GpuView>, memory: int, limit: int)
    requires NonNegativeUse(gpus) && limit >= 0
    ensures forall i :: i in FitIndexes(gpus, memory, limit) ==> i < |gpus| && gpus[i].Fits(memory, limit)
    ensures FitIndexes(gpus, memory, limit) == [] <==> forall i :: 0 <= i < |gpus| ==> !gpus[i].Fits(memory, limit)
  {
    ScanSound(gpus, |gpus|, memory, limit);
    var fits := FitIndexes(gpus, memory, limit);
    if fits != [] {
      assert fits[0] in fits;
    }
  }

  /** Assumed usage of the GPUs among the first `n` that fit by the values before the call. */
  function FittingDemand(gpus: seq<GpuView>, n: nat, memory: int, limit: int): int
    requires n <= |gpus|
  {
    if n == 0 then 0
    else FittingDemand(gpus, n - 1, memory, limit) +
         if gpus[n - 1].Fits(memory, limit) then gpus[n - 1].used + limit else 0
  }

  ghost predicate Complete(gpus: seq<GpuView>, n: nat, memory: int, limit: int)
    requires n <= |gpus|
  {
    forall i :: 0 <= i < n && gpus[i].Fits(memory, limit) ==> i in Scan(gpus, n, memory, limit).0
  }

  lemma {:induction false} ScanComplete(gpus: seq<GpuView>, n: nat, memory: int, limit: int)
    requires n <= |gpus| && NonNegativeUse(gpus) && limit >= 0 && memory >= 0
    ensures Scan(gpus, n, memory, limit).1 >= 0
    ensures Complete(gpus, n, memory, limit) ==> Scan(gpus, n, memory, limit).1 == memory - FittingDemand(gpus, n, memory, limit)
    ensures FittingDemand(gpus, n, memory, limit) <= memory <==> Complete(gpus, n, memory, limit)
  {
    if n > 0 {
      ScanComplete(gpus, n - 1, memory, limit);
      ScanSound(gpus, n - 1, memory, limit);
      ScanSound(gpus, n, memory, limit);
      var before, after := Scan(gpus, n - 1, memory, limit), Scan(gpus, n, memory, limit);
      assert forall i :: 0 <= i < n - 1 ==> (i in before.0 <==> i in after.0);
      assert n - 1 !in before.0;
      assert Complete(gpus, n, memory, limit) <==>
             Complete(gpus, n - 1, memory, limit) && (gpus[n - 1].Fits(memory, limit) ==> n - 1 in after.0);
    }
  }

  /**
    The search returns every GPU that fits exactly when the fitting GPUs' assumed usages
    together are within the memory of ONE GPU; otherwise some fitting GPU is missed.
   */
  lemma FitIndexesCompleteIff(gpus: seq<GpuView>, memory: int, limit: int)
    requires NonNegativeUse(gpus) && limit >= 0 && memory >= 0
    ensures (forall i :: 0 <= i < |gpus| && gpus[i].Fits(memory, limit) ==> i in FitIndexes(gpus, memory, limit))
            <==> FittingDemand(gpus, |gpus|, memory, limit) <= memory
  {
    ScanComplete(gpus, |gpus|, memory, limit);
  }

  /**
    The bin-packing the code announces does not happen: here GPU 1 would be left with
    nothing to spare, the tightest fit there is, and it is not even a candidate.
   */
  lemma TightestFitMissed()
    ensures var gpus := [GpuView(false, 0), GpuView(false, 95)];
            && gpus[1].Fits(100, 5)
            && 100 - (gpus[1].used + 5) < 100 - (gpus[0].used + 5)
            && FitIndexes(gpus, 100, 5) == [0]
  {
    var gpus := [GpuView(false, 0), GpuView(false, 95)];
    assert Scan(gpus, 0, 100, 5) == ([], 100);
    assert [] + [0] == [0];
    assert Scan(gpus, 1, 100, 5) == ([0], 95);
    assert Scan(gpus, 2, 100, 5) == ([0], 95);
  }

  /** Nothing that fits would leave less to spare. */
  ghost predicate Tightest(gpus: seq<GpuView>, memory: int, limit: int, i: int) {
    && 0 <= i < |gpus| && gpus[i].Fits(memory, limit)
    && forall j :: 0 <= j < |gpus| && gpus[j].Fits(memory, limit) ==> gpus[j].used <= gpus[i].used
  }

  /** How many of the first `n` GPUs take the request and carry `used` already. */
  function CountFitting(gpus: seq<GpuView>, n: nat, memory: int, limit: int, used: int): nat
    requires n <= |gpus|
  {
    if n == 0 then 0
    else CountFitting(gpus, n - 1, memory, limit, used) +
         if gpus[n - 1].Fits(memory, limit) && gpus[n - 1].used == used then 1 else 0
  }

  /**
    What is left of the memory of one GPU when as many of the tightest fits among the first `n` GPUs as
    it can hold together, each with `used` and the request, are taken out of it.
   */
  function LeftByTightest(gpus: seq<GpuView>, n: nat, memory: int, limit: int, used: int): int
    requires n <= |gpus| && used + limit > 0
  {
    var count := CountFitting(gpus, n, memory, limit, used);
    memory - (used + limit) * if count <= memory / (used + limit) then count else memory / (used + limit)
  }

  /** No looser fit among the first `n` GPUs fits in what the tightest fits before it leave. */
  ghost predicate LooserShutOut(gpus: seq<GpuView>, n: nat, memory: int, limit: int, used: int)
    requires n <= |gpus| && used + limit > 0
  {
    forall j :: 0 <= j < n && gpus[j].Fits(memory, limit) && gpus[j].used < used ==>
      gpus[j].used + limit > LeftByTightest(gpus, j, memory, limit, used)
  }

  /** One more tightest fit goes in exactly while there is room for a whole one. */
  lemma LeftByTightestNext(gpus: seq<GpuView>, n: nat, memory: int, limit: int, used: int)
    requires n < |gpus| && used + limit > 0 && memory >= 0
    requires gpus[n].Fits(memory, limit) && gpus[n].used == used
    ensures var left := LeftByTightest(gpus, n, memory, limit, used);
            LeftByTightest(gpus, n + 1, memory, limit, used) == if left >= used + limit then left - (used + limit) else left
  {
    OneMoreWhole(memory, used + limit, CountFitting(gpus, n, memory, limit, used));
  }

  lemma OneMoreWhole(memory: int, full: int, count: nat)
    requires full > 0 && memory >= 0
    ensures var whole := memory / full;
            var left := memory - full * if count <= whole then count else whole;
            memory - (full * if count + 1 <= whole then count + 1 else whole) == if left >= full then left - full else left
  {
    var whole := memory / full;
    assert memory == full * whole + memory % full;
    if count < whole {
      Scaled(full, count + 1, whole);
      assert full * (count + 1) == full * count + full;
    }
  }

  lemma Scaled(m: int, a: int, b: int)
    requires m >= 0 && a <= b
    ensures m * a <= m * b
  {
    assert m * (b - a) >= 0;
    assert m * (b - a) == m * b - m * a;
  }

  lemma {:induction false} ScanTightest(gpus: seq<GpuView>, n: nat, memory: int, limit: int, tight: nat)
    requires n <= |gpus| && NonNegativeUse(gpus) && limit > 0 && memory >= 0
    requires Tightest(gpus, memory, limit, tight)
    ensures (forall i :: i in Scan(gpus, n, memory, limit).0 ==> i < |gpus| && gpus[i].used == gpus[tight].used)
            <==> LooserShutOut(gpus, n, memory, limit, gpus[tight].used)
    ensures LooserShutOut(gpus, n, memory, limit, gpus[tight].used) ==>
            Scan(gpus, n, memory, limit).1 == LeftByTightest(gpus, n, memory, limit, gpus[tight].used)
  {
    if n > 0 {
      var used := gpus[tight].used;
      ScanTightest(gpus, n - 1, memory, limit, tight);
      ScanSound(gpus, n - 1, memory, limit);
      ScanSound(gpus, n, memory, limit);
      var (before, left) := Scan(gpus, n - 1, memory, limit);
      if gpus[n - 1].Fits(memory, limit) && gpus[n - 1].used == used {
        LeftByTightestNext(gpus, n - 1, memory, limit, used);
      }
      var after := Scan(gpus, n, memory, limit).0;
      assert forall i :: i in before ==> i in after;
      assert gpus[n - 1].Fits(left, limit) ==> after[|before|] == n - 1 && n - 1 in after;
      assert forall i :: i in after ==> i in before || (i == n - 1 && gpus[n - 1].Fits(left, limit));
    }
  }

  /**
    The code picks a tightest fit, whichever of the indexes the sort puts first, exactly when no looser
    fit is low enough to find room beside the tightest ones before it. In particular the lowest GPU
    that fits must be a tightest one.
   */
  lemma PicksTightestIff(gpus: seq<GpuView>, memory: int, limit: int, tight: nat)
    requires NonNegativeUse(gpus) && limit > 0 && memory >= 0
    requires Tightest(gpus, memory, limit, tight)
    ensures (forall i :: i in FitIndexes(gpus, memory, limit) ==> Tightest(gpus, memory, limit, i))
            <==> LooserShutOut(gpus, |gpus|, memory, limit, gpus[tight].used)
  {
    ScanTightest(gpus, |gpus|, memory, limit, tight);
    FitIndexesSound(gpus, memory, limit);
    var indexes := FitIndexes(gpus, memory, limit);
    forall i | i in indexes
      ensures Tightest(gpus, memory, limit, i) <==> gpus[i].used == gpus[tight].used
    {
      assert gpus[i].Fits(memory, limit);
    }
  }

  /** The condition fails at once where the lowest GPU that fits is not a tightest one. */
  lemma LowestMustBeTightest(gpus: seq<GpuView>, memory: int, limit: int, tight: nat, lowest: nat)
    requires NonNegativeUse(gpus) && limit > 0 && memory >= 0 && Tightest(gpus, memory, limit, tight)
    requires lowest < |gpus| && gpus[lowest].Fits(memory, limit)
    requires forall j :: 0 <= j < lowest ==> !gpus[j].Fits(memory, limit)
    requires LooserShutOut(gpus, |gpus|, memory, limit, gpus[tight].used)
    ensures Tightest(gpus, memory, limit, lowest)
  {
    NoneFitting(gpus, lowest, memory, limit, gpus[tight].used);
  }

  lemma {:induction false} NoneFitting(gpus: seq<GpuView>, n: nat, memory: int, limit: int, used: int)
    requires n <= |gpus| && forall j :: 0 <= j < n ==> !gpus[j].Fits(memory, limit)
    ensures CountFitting(gpus, n, memory, limit, used) == 0
  {
    if n > 0 {
      NoneFitting(gpus, n - 1, memory, limit, used);
    }
  }

  // ---------------------------------------------------------------------------
  // The index search for an exclusive request, and the scores

  function FreeIndexes(gpus: seq<GpuView>, n: nat): seq<nat>
    requires n <= |gpus|
  {
    if n == 0 then []
    else FreeIndexes(gpus, n - 1) + if gpus[n - 1].Free() then [n - 1] else []
  }

  lemma {:induction false} FreeIndexesExact(gpus: seq<GpuView>, n: nat)
    requires n <= |gpus|
    ensures forall i: nat :: i in FreeIndexes(gpus, n) <==> i < n && gpus[i].Free()
    ensures forall i, j :: 0 <= i < j < |FreeIndexes(gpus, n)| ==> FreeIndexes(gpus, n)[i] < FreeIndexes(gpus, n)[j]
  {
    if n > 0 {
      FreeIndexesExact(gpus, n - 1);
      var fits := FreeIndexes(gpus, n - 1);
      assert forall i :: 0 <= i < |fits| ==> fits[i] in fits;
    }
  }

  /** The number of free GPUs. */
  function GpuScore(gpus: seq<GpuView>): int {
    |FreeIndexes(gpus, |gpus|)|
  }

  /** Remaining memory summed over the GPUs. */
  function MemScore(gpus: seq<GpuView>, memory: int): int {
    if gpus == [] then 0 else MemScore(gpus[..|gpus| - 1], memory) + memory - gpus[|gpus| - 1].used
  }

  lemma {:induction false} MemScoreIs(gpus: seq<GpuView>, memory: int)
    ensures MemScore(gpus, memory) == |gpus| * memory - TotalUsed(gpus)
  {
    if gpus != [] {
      var n := |gpus|;
      MemScoreIs(gpus[..n - 1], memory);
      assert n * memory == (n - 1) * memory + memory;
    }
  }

  function FreeGpus(gpus: seq<GpuView>, n: nat): set<int>
    requires n <= |gpus|
  {
    set g | 0 <= g < n && gpus[g].Free()
  }

  lemma {:induction false} FreeCount(gpus: seq<GpuView>, n: nat)
    requires n <= |gpus|
    ensures |FreeIndexes(gpus, n)| == |FreeGpus(gpus, n)|
  {
    if n > 0 {
      FreeCount(gpus, n - 1);
      var before := FreeGpus(gpus, n - 1);
      assert FreeGpus(gpus, n) == if gpus[n - 1].Free() then before + {n - 1} else before;
    }
  }

  lemma {:induction false} MemScoreUpdate(before: seq<GpuView>, after: seq<GpuView>, memory: int)
    requires |before| == |after|
    ensures MemScore(after, memory) - MemScore(before, memory) == TotalUsed(before) - TotalUsed(after)
  {
    if before != [] {
      MemScoreUpdate(before[..|before| - 1], after[..|after| - 1], memory);
    }
  }

  lemma {:induction false} FreeIndexesAfterUse(before: seq<GpuView>, after: seq<GpuView>, n: nat, k: nat)
    requires |before| == |after| && n <= |before|
    requires forall g :: 0 <= g < |before| ==> (after[g].Free() <==> before[g].Free() && g != k)
    ensures |FreeIndexes(after, n)| == |FreeIndexes(before, n)| - if k < n && before[k].Free() then 1 else 0
  {
    if n > 0 {
      FreeIndexesAfterUse(before, after, n - 1, k);
    }
  }
}
