/**
  The FlexGPU plugin as it works on the heap: quantities are cells, every GPU of a node
  points at ONE memory cell, and Reserve writes its choice into the pod.
 */
module FlexGpu {
  import opened Options
  import opened GpuModel
  import opened GpuRuns
  import opened Listings

  /** `resource.Quantity` behind a pointer; `Add` and `Sub` work in place. */
  class Quantity {
    var value: int
    /** Which GPU's usage the cell holds; tells the cells of a node apart. */
    ghost const owner: int

    constructor (v: int, ghost owner: int)
      ensures value == v && this.owner == owner
    {
      value := v;
      this.owner := owner;
    }

    method Add(y: int)
      modifies this
      ensures value == old(value) + y
    {
      value := value + y;
    }

    method Sub(y: int)
      modifies this
      ensures value == old(value) - y
    {
      value := value - y;
    }
  }

  class Gpu {
    const index: nat
    var monopoly: bool
    const memory: Quantity
    const usedMemory: Quantity

    constructor (i: nat, memory: Quantity, used: Quantity)
      ensures index == i && !monopoly && this.memory == memory && usedMemory == used
    {
      index, monopoly, this.memory, usedMemory := i, false, memory, used;
    }
  }

  class Pod {
    const containers: seq<Limits>
    var index: Annotation

    constructor (containers: seq<Limits>, index: Annotation)
      ensures this.containers == containers && this.index == index
    {
      this.containers, this.index := containers, index;
    }

    ghost function View(): PodView
      reads this
    {
      PodView(containers, index)
    }
  }

  ghost function PodViews(pods: seq<Pod>): (views: seq<PodView>)
    reads pods
    ensures |views| == |pods|
    ensures forall i :: 0 <= i < |pods| ==> views[i] == pods[i].View()
  {
    seq(|pods|, i requires 0 <= i < |pods| reads pods => pods[i].View())
  }

  /** All GPUs share the memory cell; each has a usage cell of its own. */
  ghost predicate WellFormed(gpus: seq<Gpu>, memory: Quantity) {
    && memory.owner == -1
    && forall i :: 0 <= i < |gpus| ==> gpus[i].index == i == gpus[i].usedMemory.owner && gpus[i].memory == memory
  }

  ghost function Cells(gpus: seq<Gpu>): set<Quantity> {
    set i | 0 <= i < |gpus| :: gpus[i].usedMemory
  }

  ghost function GpuViews(gpus: seq<Gpu>): (views: seq<GpuView>)
    reads gpus, Cells(gpus)
    ensures |views| == |gpus|
    ensures forall i :: 0 <= i < |gpus| ==> views[i] == GpuView(gpus[i].monopoly, gpus[i].usedMemory.value)
  {
    seq(|gpus|, i requires 0 <= i < |gpus| reads gpus, Cells(gpus) => GpuView(gpus[i].monopoly, gpus[i].usedMemory.value))
  }

  // ---------------------------------------------------------------------------
  // Limits

  method PodResourceLimit(name: string, containers: seq<Limits>) returns (sum: int, exist: bool)
    ensures exist <==> HasLimit(name, containers)
    ensures sum == LimitSum(name, containers)
  {
    sum, exist := 0, false;
    for i := 0 to |containers|
      invariant sum == LimitSum(name, containers[..i])
      invariant exist <==> HasLimit(name, containers[..i])
    {
      ghost var done := containers[..i + 1];
      assert done[..i] == containers[..i] && done[i] == containers[i];
      assert HasLimit(name, done) <==> HasLimit(name, containers[..i]) || name in containers[i] by {
        if j :| 0 <= j < i && name in containers[..i][j] {
          assert done[j] == containers[..i][j];
        }
        if j :| 0 <= j < |done| && name in done[j] {
          assert j < i ==> containers[..i][j] == done[j];
        }
      }
      if name in containers[i] {
        exist := true;
        sum := sum + containers[i][name];
      }
    }
    assert containers[..|containers|] == containers;
  }

  method NodeResourceLimitSum(name: string, pods: seq<Pod>) returns (sum: int)
    ensures sum == Total(LimitOf(name), PodViews(pods))
  {
    sum := 0;
    for i := 0 to |pods|
      invariant sum == Total(LimitOf(name), PodViews(pods)[..i])
    {
      var limit, _ := PodResourceLimit(name, pods[i].containers);
      assert PodViews(pods)[..i + 1] == PodViews(pods)[..i] + [PodViews(pods)[i]];
      TotalWithPod(LimitOf(name), PodViews(pods)[..i], PodViews(pods)[i]);
      sum := sum + limit;
    }
    assert PodViews(pods)[..|pods|] == PodViews(pods);
  }

  // ---------------------------------------------------------------------------
  // Rebuilding the usage of every GPU

  method NewGpus(count: nat, memory: Quantity) returns (gpus: seq<Gpu>)
    requires memory.owner == -1
    ensures WellFormed(gpus, memory) && |gpus| == count
    ensures forall u :: u in gpus ==> fresh(u) && fresh(u.usedMemory)
    ensures GpuViews(gpus) == BuildGpus(count, [])
  {
    gpus := [];
    for i := 0 to count
      invariant |gpus| == i
      invariant WellFormed(gpus, memory)
      invariant forall j :: 0 <= j < i ==> fresh(gpus[j]) && fresh(gpus[j].usedMemory)
      invariant forall j :: 0 <= j < i ==> !gpus[j].monopoly && gpus[j].usedMemory.value == 0
    {
      var used := new Quantity(0, i);
      var u := new Gpu(i, memory, used);
      gpus := gpus + [u];
    }
  }

  /** A placed pod takes the GPU of its index. */
  method Occupy(u: Gpu, exclusive: bool, shared: bool, limit: int)
    modifies u, u.usedMemory
    ensures u.monopoly == (old(u.monopoly) || exclusive)
    ensures u.usedMemory.value == old(u.usedMemory.value) + if shared then limit else 0
  {
    if exclusive {
      u.monopoly := true;
    }
    if shared {
      u.usedMemory.Add(limit);
    }
  }

  /** An index outside the node's GPUs would be a panic. */
  method ConstructGpus(count: nat, memory: Quantity, pods: seq<Pod>) returns (gpus: seq<Gpu>)
    requires InRange(count, PodViews(pods)) && memory.owner == -1
    ensures WellFormed(gpus, memory) && |gpus| == count
    ensures forall u :: u in gpus ==> fresh(u) && fresh(u.usedMemory)
    ensures GpuViews(gpus) == BuildGpus(count, PodViews(pods))
  {
    ghost var views := PodViews(pods);
    gpus := NewGpus(count, memory);
    ghost var built := BuildGpus(count, []);
    assert views[..0] == [];
    for i := 0 to |pods|
      invariant PodViews(pods) == views
      invariant forall j :: 0 <= j < count ==> fresh(gpus[j]) && fresh(gpus[j].usedMemory)
      invariant |built| == count && built == BuildGpus(count, views[..i])
      invariant forall j :: 0 <= j < count ==> built[j] == GpuView(gpus[j].monopoly, gpus[j].usedMemory.value)
    {
      var _, exclusive := PodResourceLimit(GPU_RESOURCE, pods[i].containers);
      var limit, shared := PodResourceLimit(MEM_RESOURCE, pods[i].containers);
      assert views[i] == pods[i].View();
      OccupiedGpus(count, views, i);
      if (exclusive || shared) && pods[i].index.Index? {
        assert views[i].Placed();
        var k := pods[i].index.value;
        Occupy(gpus[k], exclusive, shared, limit);
      }
      built := BuildGpus(count, views[..i + 1]);
    }
    assert views[..|pods|] == views;
  }

  lemma OccupiedGpus(count: nat, views: seq<PodView>, i: nat)
    requires i < |views|
    ensures var before, after, view := BuildGpus(count, views[..i]), BuildGpus(count, views[..i + 1]), views[i];
            forall g :: 0 <= g < count ==>
              after[g] == if view.Placed() && g == view.index.value
                          then GpuView(before[g].monopoly || view.Exclusive(),
                                       before[g].used + if view.Shared() then view.Memory() else 0)
                          else before[g]
  {
    forall g { CountsNonNegative(views[..i], g); }
    BuildGpusWithPod(count, views[..i], views[i]);
    assert views[..i + 1] == views[..i] + [views[i]];
  }

  /** `NewGPUNode`: the GPUs of a node whose allocatable amounts are known. */
  method NewGpuNode(node: Node, pods: seq<Pod>) returns (gpus: seq<Gpu>, memory: Quantity)
    requires node.Known() && InRange(node.Count(), PodViews(pods))
    ensures fresh(memory) && memory.value == node.PerGpu()
    ensures WellFormed(gpus, memory) && |gpus| == node.Count()
    ensures forall u :: u in gpus ==> fresh(u) && fresh(u.usedMemory)
    ensures GpuViews(gpus) == node.Gpus(PodViews(pods))
  {
    memory := new Quantity(node.memory.value / node.gpu.value, -1);
    gpus := ConstructGpus(node.gpu.value, memory, pods);
  }

  // ---------------------------------------------------------------------------
  // Index searches

  datatype Fit = Fit(index: nat, remain: Quantity)

  /**
    `sort.Slice` by `fits[i].remain < fits[j].remain`. Every `remain` is the same cell, so the
    comparison is always false and the library may return any permutation.
   */
  method SortByRemaining(fits: seq<Fit>, ghost shared: Quantity) returns (sorted: seq<Fit>)
    requires forall k :: 0 <= k < |fits| ==> fits[k].remain == shared
    ensures multiset(sorted) == multiset(fits)
    ensures forall i, j :: 0 <= i < |sorted| && 0 <= j < |sorted| ==> !(sorted[i].remain.value < sorted[j].remain.value)
  {
    sorted := [];
    var rest := fits;
    while rest != []
      invariant multiset(sorted) + multiset(rest) == multiset(fits)
      invariant forall f :: f in sorted || f in rest ==> f.remain == shared
      decreases |rest|
    {
      var k :| 0 <= k < |rest|;
      WithoutTakesOne(rest, k);
      sorted := sorted + [rest[k]];
      rest := Without(rest, k);
    }
  }

  /**
    `assumed` and `remain` are aliases, not copies: the call adds the limit to every usage
    cell and takes each accepted GPU's assumed usage out of the shared memory cell.
   */
  method MemAssumeFitIndexes(gpus: seq<Gpu>, memory: Quantity, limit: int) returns (indexes: seq<nat>)
    requires WellFormed(gpus, memory)
    modifies memory, Cells(gpus)
    ensures |indexes| == |FitIndexes(old(GpuViews(gpus)), old(memory.value), limit)|
    ensures forall i: nat :: i in indexes <==> i in FitIndexes(old(GpuViews(gpus)), old(memory.value), limit)
    ensures memory.value == Scan(old(GpuViews(gpus)), |gpus|, old(memory.value), limit).1
    ensures forall i :: 0 <= i < |gpus| ==> gpus[i].usedMemory.value == old(gpus[i].usedMemory.value) + limit
  {
    var fits := CollectFits(gpus, memory, limit);
    var sorted := SortByRemaining(fits, memory);
    SameIndexes(sorted, fits);
    SameIndexes(fits, sorted);
    indexes := [];
    for i := 0 to |sorted|
      invariant indexes == Indexes(sorted)[..i]
    {
      indexes := indexes + [sorted[i].index];
    }
  }

  method CollectFits(gpus: seq<Gpu>, memory: Quantity, limit: int) returns (fits: seq<Fit>)
    requires WellFormed(gpus, memory)
    modifies memory, Cells(gpus)
    ensures Indexes(fits) == FitIndexes(old(GpuViews(gpus)), old(memory.value), limit)
    ensures forall k :: 0 <= k < |fits| ==> fits[k].remain == memory
    ensures memory.value == Scan(old(GpuViews(gpus)), |gpus|, old(memory.value), limit).1
    ensures forall i :: 0 <= i < |gpus| ==> gpus[i].usedMemory.value == old(gpus[i].usedMemory.value) + limit
  {
    hide Scan;
    ghost var views, total := GpuViews(gpus), memory.value;
    ghost var scan := Scan(views, 0, total, limit);
    ScanNone(views, total, limit);
    fits := [];
    for i := 0 to |gpus|
      invariant scan == Scan(views, i, total, limit)
      invariant Indexes(fits) == scan.0 && memory.value == scan.1
      invariant forall k :: 0 <= k < |fits| ==> fits[k].remain == memory
      invariant forall j :: 0 <= j < |gpus| ==>
        gpus[j].usedMemory.value == if j < i then views[j].used + limit else views[j].used
    {
      assert gpus[i].usedMemory in Cells(gpus);
      assert views[i] == GpuView(gpus[i].monopoly, gpus[i].usedMemory.value);
      var fit := TryFit(gpus[i], limit);
      if fit.Some? {
        fits := fits + [fit.value];
      }
      scan := ScanStep(views, i, total, limit, scan);
    }
  }

  lemma ScanNone(gpus: seq<GpuView>, memory: int, limit: int)
    ensures Scan(gpus, 0, memory, limit) == ([], memory)
  {
  }

  lemma ScanStep(gpus: seq<GpuView>, n: nat, memory: int, limit: int, scan: (seq<nat>, int)) returns (next: (seq<nat>, int))
    requires n < |gpus| && scan == Scan(gpus, n, memory, limit)
    ensures next == Scan(gpus, n + 1, memory, limit)
    ensures next == if gpus[n].Fits(scan.1, limit) then (scan.0 + [n], scan.1 - (gpus[n].used + limit)) else scan
  {
    next := Scan(gpus, n + 1, memory, limit);
  }

  /** One GPU of the search, through the aliases. */
  method TryFit(u: Gpu, limit: int) returns (fit: Option<Fit>)
    requires u.memory != u.usedMemory
    modifies u.memory, u.usedMemory
    ensures u.usedMemory.value == old(u.usedMemory.value) + limit
    ensures fit == if GpuView(u.monopoly, old(u.usedMemory.value)).Fits(old(u.memory.value), limit)
                   then Some(Fit(u.index, u.memory)) else None
    ensures u.memory.value == old(u.memory.value) - if fit.Some? then u.usedMemory.value else 0
  {
    var assumed := u.usedMemory;
    assumed.Add(limit);
    if !u.monopoly && u.memory.value >= assumed.value {
      var remain := u.memory;
      remain.Sub(assumed.value);
      return Some(Fit(u.index, remain));
    }
    return None;
  }

  function Indexes(fits: seq<Fit>): (indexes: seq<nat>)
    ensures |indexes| == |fits|
    ensures forall i :: 0 <= i < |fits| ==> indexes[i] == fits[i].index
  {
    seq(|fits|, i requires 0 <= i < |fits| => fits[i].index)
  }

  lemma SameIndexes(p: seq<Fit>, q: seq<Fit>)
    requires multiset(p) == multiset(q)
    ensures |p| == |q|
    ensures forall i: nat :: i in Indexes(p) ==> i in Indexes(q)
  {
    assert |p| == |multiset(p)| == |multiset(q)| == |q|;
    forall k | 0 <= k < |p|
      ensures p[k].index in Indexes(q)
    {
      assert p[k] in multiset(q);
      var j :| 0 <= j < |q| && q[j] == p[k];
      assert Indexes(q)[j] == p[k].index;
    }
  }

  method GpuAssumeFitIndexes(gpus: seq<Gpu>, ghost memory: Quantity) returns (fits: seq<nat>)
    requires WellFormed(gpus, memory)
    ensures fits == FreeIndexes(GpuViews(gpus), |gpus|)
  {
    fits := [];
    for i := 0 to |gpus|
      invariant fits == FreeIndexes(GpuViews(gpus), i)
    {
      if !gpus[i].monopoly && gpus[i].usedMemory.value == 0 {
        fits := fits + [gpus[i].index];
      }
    }
  }

  method ComputeGpuScore(gpus: seq<Gpu>) returns (score: int)
    ensures score == GpuScore(GpuViews(gpus))
  {
    score := 0;
    for i := 0 to |gpus|
      invariant score == |FreeIndexes(GpuViews(gpus), i)|
    {
      if !gpus[i].monopoly && gpus[i].usedMemory.value == 0 {
        score := score + 1;
      }
    }
  }

  method ComputeMemScore(gpus: seq<Gpu>, memory: Quantity) returns (score: int)
    requires WellFormed(gpus, memory)
    ensures score == MemScore(GpuViews(gpus), memory.value)
  {
    var remaining := new Quantity(0, -1);
    ghost var views := GpuViews(gpus);
    for i := 0 to |gpus|
      invariant views == GpuViews(gpus) && memory.value == old(memory.value)
      invariant remaining.value == MemScore(views[..i], memory.value)
    {
      assert views[..i + 1][..i] == views[..i];
      remaining.Add(gpus[i].memory.value);
      remaining.Sub(gpus[i].usedMemory.value);
    }
    assert views[..|gpus|] == views;
    score := remaining.value;
  }

  // ---------------------------------------------------------------------------
  // The plugin

  method RunFilter(node: Node, pods: seq<Pod>, pod: Pod) returns (verdict: Verdict)
    requires node.Divisible() && (node.memory.Some? ==> node.memory.value >= 0)
    requires node.Known() ==> InRange(node.Count(), PodViews(pods))
    ensures verdict == Filter(node, PodViews(pods), pod.View())
  {
    var gpuLimit, exclusive := PodResourceLimit(GPU_RESOURCE, pod.containers);
    var memLimit, shared := PodResourceLimit(MEM_RESOURCE, pod.containers);
    if !exclusive && !shared {
      return Admit;
    }
    if exclusive && shared {
      return ConflictingResources;
    }
    if node.gpu.None? || node.memory.None? {
      return UnknownResource;
    }
    var gpuSum := NodeResourceLimitSum(GPU_RESOURCE, pods);
    var memSum := NodeResourceLimitSum(MEM_RESOURCE, pods);
    if gpuSum + gpuLimit > node.gpu.value {
      return InsufficientGpus;
    }
    if memSum + memLimit > node.memory.value {
      return InsufficientMemory;
    }
    if shared {
      var indexes := MemoryIndexes(node, pods, memLimit);
      if |indexes| == 0 {
        return NoFittingIndex;
      }
    }
    return Admit;
  }

  /** Rebuild the node's GPUs and search them, as both Filter and Reserve do. */
  method MemoryIndexes(node: Node, pods: seq<Pod>, limit: int) returns (indexes: seq<nat>)
    requires node.Known() && InRange(node.Count(), PodViews(pods))
    ensures |indexes| == |FitIndexes(node.Gpus(PodViews(pods)), node.PerGpu(), limit)|
    ensures forall i: nat :: i in indexes <==> i in FitIndexes(node.Gpus(PodViews(pods)), node.PerGpu(), limit)
  {
    ghost var views := PodViews(pods);
    var gpus, memory := NewGpuNode(node, pods);
    assert GpuViews(gpus) == node.Gpus(views);
    indexes := MemAssumeFitIndexes(gpus, memory, limit);
    assert PodViews(pods) == views;
  }

  method ExclusiveIndexes(node: Node, pods: seq<Pod>) returns (indexes: seq<nat>)
    requires node.Known() && InRange(node.Count(), PodViews(pods))
    ensures indexes == FreeIndexes(node.Gpus(PodViews(pods)), node.Count())
  {
    ghost var views := PodViews(pods);
    var gpus, memory := NewGpuNode(node, pods);
    assert GpuViews(gpus) == node.Gpus(views);
    indexes := GpuAssumeFitIndexes(gpus, memory);
    assert GpuViews(gpus) == node.Gpus(views) && PodViews(pods) == views;
  }

  /** The node is known: Filter admitted the pod there. `ok` is false when no index was written. */
  method Reserve(node: Node, pods: seq<Pod>, pod: Pod) returns (ok: bool)
    requires node.Known() && InRange(node.Count(), PodViews(pods)) && pod !in pods
    modifies pod
    ensures ok ==> MayReserve(node, PodViews(pods), old(pod.View()), pod.index)
    ensures !ok ==> pod.index == old(pod.index)
    ensures ok <==> exists written :: MayReserve(node, PodViews(pods), old(pod.View()), written)
  {
    ghost var views, view := PodViews(pods), pod.View();
    var _, exclusive := PodResourceLimit(GPU_RESOURCE, pod.containers);
    var memLimit, shared := PodResourceLimit(MEM_RESOURCE, pod.containers);
    if !exclusive && !shared {
      assert MayReserve(node, views, view, pod.index);
      return true;
    }
    if exclusive && shared {
      return false;
    }
    var indexes;
    if exclusive {
      indexes := ExclusiveIndexes(node, pods);
    } else {
      indexes := MemoryIndexes(node, pods, memLimit);
    }
    if |indexes| == 0 {
      return false;
    }
    assert indexes[0] in indexes;
    pod.index := Index(indexes[0]);
    assert PodViews(pods) == views;
    assert MayReserve(node, views, view, pod.index);
    return true;
  }

  method Unreserve(pod: Pod)
    modifies pod
    ensures pod.index == Missing
  {
    pod.index := Missing;
  }

  /** A node with its pods; each method is one step of the runs in `GpuRuns`. */
  class GpuHost {
    const node: Node
    var pods: seq<Pod>

    ghost predicate Valid()
      reads this, pods
    {
      && node.Known()
      && (forall i, j :: 0 <= i < j < |pods| ==> pods[i] != pods[j])
      && Safe(node, PodViews(pods))
    }

    constructor (node: Node)
      requires node.Known()
      ensures this.node == node && pods == [] && Valid()
    {
      this.node, pods := node, [];
      new;
      DivNonNegative(node.memory.value, node.gpu.value);
    }

    /** One scheduling cycle. A pod that is turned down keeps the annotation it came with. */
    method Schedule(pod: Pod) returns (placed: bool)
      requires Valid() && pod !in pods && pod.View().PositiveLimits()
      modifies this, pod
      ensures Valid() && Step(node, old(PodViews(pods)), PodViews(pods))
      ensures pods == if placed then old(pods) + [pod] else old(pods)
      ensures placed <==> && Filter(node, old(PodViews(pods)), old(pod.View())) == Admit
                          && exists written :: MayReserve(node, old(PodViews(pods)), old(pod.View()), written)
      ensures !placed ==> pod.index == old(pod.index)
    {
      hide Filter, MayReserve;
      ghost var views, view := PodViews(pods), pod.View();
      placed := false;
      var verdict := RunFilter(node, pods, pod);
      if verdict == Admit {
        placed := Reserve(node, pods, pod);
      }
      assert PodViews(pods) == views;
      if placed {
        pods := pods + [pod];
        assert PodViews(pods) == views + [view.(index := pod.index)];
        ScheduledStep(node, views, view, pod.index);
      }
    }

    method Drop(k: nat)
      requires Valid() && k < |pods|
      modifies pods[k]
      ensures Valid() && Step(node, old(PodViews(pods)), PodViews(pods))
      ensures pods[k].index == Missing
    {
      ghost var views := PodViews(pods);
      Unreserve(pods[k]);
      assert PodViews(pods) == views[k := views[k].(index := Missing)];
      assert Unreserved(views, PodViews(pods), k);
      StepSafe(node, views, PodViews(pods));
    }

    /** The last pod moves into the gap. */
    method Remove(k: nat)
      requires Valid() && k < |pods|
      modifies this
      ensures Valid() && Step(node, old(PodViews(pods)), PodViews(pods))
      ensures pods == SwapOut(old(pods), k)
    {
      ghost var views := PodViews(pods);
      pods := SwapOut(pods, k);
      SwapOutStep(node, views, k);
      assert PodViews(pods) == SwapOut(views, k);
    }
  }

  lemma ScheduledStep(node: Node, s: seq<PodView>, pod: PodView, written: Annotation)
    requires node.Known() && Safe(node, s) && pod.PositiveLimits()
    requires Filter(node, s, pod) == Admit && MayReserve(node, s, pod, written)
    ensures Step(node, s, s + [pod.(index := written)]) && Safe(node, s + [pod.(index := written)])
  {
    assert Scheduled(node, s, s + [pod.(index := written)], pod, written);
    StepSafe(node, s, s + [pod.(index := written)]);
  }

  lemma SwapOutStep(node: Node, s: seq<PodView>, k: nat)
    requires node.Known() && Safe(node, s) && k < |s|
    ensures Step(node, s, SwapOut(s, k)) && Safe(node, SwapOut(s, k))
  {
    SwapOutIsWithout(s, k);
    assert Removed(s, SwapOut(s, k), k);
    StepSafe(node, s, SwapOut(s, k));
  }
}
