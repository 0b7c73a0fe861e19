/**
  The single-NUMA-node filter on values: which NUMA ids can serve a request, the greedy
  container-by-container placement, and the pod-level variant.
 */
module NumaModel {
  import opened Options

  type ResourceList = map<string, int>

  datatype QosClass = Guaranteed | Burstable | BestEffort

  /** A NUMA node: its id and what it reports as available. */
  datatype Zone = Zone(id: int, resources: ResourceList)

  const CPU := "cpu"
  const MEMORY := "memory"
  const HUGE_PAGES_PREFIX := "hugepages-"
  const NATIVE_DOMAIN := "kubernetes.io/"
  const MASK_BITS := 64

  /** What `resourcesAvailableInAnyNUMANodes` returns as the id when nothing matches. */
  const HIGHEST_NUMA_ID := 8

  predicate IsHugePage(r: string) { HUGE_PAGES_PREFIX <= r }

  predicate IsNative(r: string) {
    || '/' !in r
    || exists i :: 0 <= i <= |r| && NATIVE_DOMAIN <= r[i..]
  }

  function Amount(m: ResourceList, r: string): int { if r in m then m[r] else 0 }

  ghost predicate NonNegative(m: ResourceList) { forall r :: r in m ==> m[r] >= 0 }

  // ---------------------------------------------------------------------------
  // One request

  /** The amount of `r` is compared; otherwise reporting the resource is enough. */
  predicate AmountChecked(qos: QosClass, r: string) {
    qos == Guaranteed || !(r == MEMORY || IsHugePage(r) || r == CPU)
  }

  predicate Suitable(qos: QosClass, r: string, quantity: int, available: int) {
    !AmountChecked(qos, r) || available >= quantity
  }

  /** Some zone reports the resource. */
  predicate Affine(zones: seq<Zone>, r: string) {
    exists i :: 0 <= i < |zones| && r in zones[i].resources
  }

  /** Some zone with this id reports enough of the resource. */
  predicate Serves(zones: seq<Zone>, qos: QosClass, r: string, quantity: int, id: int) {
    exists i :: 0 <= i < |zones| && zones[i].id == id && r in zones[i].resources && Suitable(qos, r, quantity, zones[i].resources[r])
  }

  /** What one resource of a request asks of a NUMA id; `known` are the resources of the node as a whole. */
  predicate Meets(zones: seq<Zone>, qos: QosClass, known: set<string>, r: string, quantity: int, id: int) {
    || quantity == 0
    || (r in known && ((!Affine(zones, r) && !IsNative(r)) || Serves(zones, qos, r, quantity, id)))
  }

  predicate FitsOn(zones: seq<Zone>, qos: QosClass, known: set<string>, request: ResourceList, id: int) {
    0 <= id < MASK_BITS && forall r :: r in request ==> Meets(zones, qos, known, r, request[r], id)
  }

  ghost predicate Alignable(zones: seq<Zone>, qos: QosClass, known: set<string>, request: ResourceList) {
    exists id :: FitsOn(zones, qos, known, request, id)
  }

  ghost predicate IsLeastFit(zones: seq<Zone>, qos: QosClass, known: set<string>, request: ResourceList, id: int) {
    && FitsOn(zones, qos, known, request, id)
    && forall other :: FitsOn(zones, qos, known, request, other) ==> id <= other
  }

  lemma {:induction false} LeastFitExists(zones: seq<Zone>, qos: QosClass, known: set<string>, request: ResourceList, id: int)
    requires FitsOn(zones, qos, known, request, id)
    ensures exists least :: IsLeastFit(zones, qos, known, request, least)
    decreases id
  {
    if !IsLeastFit(zones, qos, known, request, id) {
      var other :| FitsOn(zones, qos, known, request, other) && other < id;
      LeastFitExists(zones, qos, known, request, other);
    }
  }

  /** The least id that can serve the request. */
  ghost function LeastFit(zones: seq<Zone>, qos: QosClass, known: set<string>, request: ResourceList): (least: Option<int>)
    ensures least.Some? ==> IsLeastFit(zones, qos, known, request, least.value)
    ensures least.None? <==> !Alignable(zones, qos, known, request)
  {
    if Alignable(zones, qos, known, request) then
      var id :| FitsOn(zones, qos, known, request, id);
      LeastFitExists(zones, qos, known, request, id);
      var least :| IsLeastFit(zones, qos, known, request, least);
      Some(least)
    else None
  }

  // ---------------------------------------------------------------------------
  // Placing containers one by one

  function SubtractList(resources: ResourceList, request: ResourceList): ResourceList {
    map r | r in resources.Keys + request.Keys :: Amount(resources, r) - Amount(request, r)
  }

  /** Every zone with the chosen id pays for the request, also for what it never reported. */
  function Subtract(zones: seq<Zone>, id: int, request: ResourceList): (after: seq<Zone>)
    ensures |after| == |zones|
    ensures forall i :: 0 <= i < |zones| ==>
      after[i] == if zones[i].id == id then Zone(id, SubtractList(zones[i].resources, request)) else zones[i]
  {
    seq(|zones|, i requires 0 <= i < |zones| =>
      if zones[i].id == id then Zone(id, SubtractList(zones[i].resources, request)) else zones[i])
  }

  datatype Placement = Stuck | Placed(zones: seq<Zone>, ids: seq<int>)

  /** The first `k` containers, each on the least id that can still serve it. */
  ghost function Greedy(zones: seq<Zone>, qos: QosClass, known: set<string>, containers: seq<ResourceList>, k: nat): (p: Placement)
    requires k <= |containers|
    ensures p.Placed? ==> |p.ids| == k && |p.zones| == |zones| && forall i :: 0 <= i < |zones| ==> p.zones[i].id == zones[i].id
  {
    if k == 0 then Placed(zones, [])
    else
      match Greedy(zones, qos, known, containers, k - 1)
      case Stuck => Stuck
      case Placed(left, ids) =>
        match LeastFit(left, qos, known, containers[k - 1])
        case None => Stuck
        case Some(id) => Placed(Subtract(left, id, containers[k - 1]), ids + [id])
  }

  datatype Pod = Pod(inits: seq<ResourceList>, containers: seq<ResourceList>, qos: QosClass)

  /** Init containers run one at a time and first, so each is matched with the untouched zones. */
  ghost predicate ContainerScopeAccepts(pod: Pod, zones: seq<Zone>, known: set<string>) {
    && (forall i :: 0 <= i < |pod.inits| ==> Alignable(zones, pod.qos, known, pod.inits[i]))
    && Greedy(zones, pod.qos, known, pod.containers, |pod.containers|).Placed?
  }

  ghost predicate PodScopeAccepts(pod: Pod, zones: seq<Zone>, known: set<string>) {
    Alignable(zones, pod.qos, known, EffectiveRequest(pod))
  }

  // ---------------------------------------------------------------------------
  // The effective request of a pod

  function MergeSum(sums: ResourceList, request: ResourceList): ResourceList {
    map r | r in sums.Keys + request.Keys :: Amount(sums, r) + Amount(request, r)
  }

  function MergeMax(maxima: ResourceList, request: ResourceList): ResourceList {
    map r | r in maxima.Keys + request.Keys ::
      if r in maxima && (r in request ==> request[r] <= maxima[r]) then maxima[r] else Amount(request, r)
  }

  function SumRequests(containers: seq<ResourceList>): ResourceList {
    if containers == [] then map[]
    else MergeSum(SumRequests(containers[..|containers| - 1]), containers[|containers| - 1])
  }

  function MaxRequests(inits: seq<ResourceList>): ResourceList {
    if inits == [] then map[]
    else MergeMax(MaxRequests(inits[..|inits| - 1]), inits[|inits| - 1])
  }

  function EffectiveRequest(pod: Pod): ResourceList {
    MergeMax(SumRequests(pod.containers), MaxRequests(pod.inits))
  }

  function Total(containers: seq<ResourceList>, k: nat, r: string): int
    requires k <= |containers|
  {
    if k == 0 then 0 else Total(containers, k - 1, r) + Amount(containers[k - 1], r)
  }

  ghost predicate AllNonNegative(requests: seq<ResourceList>) {
    forall i :: 0 <= i < |requests| ==> NonNegative(requests[i])
  }

  lemma {:induction false} TotalMonotone(containers: seq<ResourceList>, j: nat, k: nat, r: string)
    requires j <= k <= |containers| && AllNonNegative(containers)
    ensures 0 <= Total(containers, j, r) <= Total(containers, k, r)
    decreases k
  {
    if j < k {
      TotalMonotone(containers, j, k - 1, r);
    } else if k > 0 {
      TotalMonotone(containers, j - 1, k - 1, r);
    }
  }

  lemma {:induction false} SumRequestsAmount(containers: seq<ResourceList>, k: nat, r: string)
    requires k <= |containers|
    ensures Amount(SumRequests(containers[..k]), r) == Total(containers, k, r)
  {
    if k > 0 {
      SumRequestsAmount(containers, k - 1, r);
      assert containers[..k][..k - 1] == containers[..k - 1];
    }
  }

  lemma {:induction false} MaxRequestsBound(inits: seq<ResourceList>, i: nat, r: string)
    requires i < |inits| && AllNonNegative(inits)
    ensures Amount(MaxRequests(inits), r) >= Amount(inits[i], r)
  {
    var last := |inits| - 1;
    MaxRequestsNonNegative(inits[..last]);
    if i < last {
      MaxRequestsBound(inits[..last], i, r);
    }
  }

  lemma {:induction false} MaxRequestsNonNegative(inits: seq<ResourceList>)
    requires AllNonNegative(inits)
    ensures NonNegative(MaxRequests(inits))
  {
    if inits != [] {
      MaxRequestsNonNegative(inits[..|inits| - 1]);
    }
  }

  /** The effective request covers the containers together and every init container alone. */
  lemma EffectiveCovers(pod: Pod, r: string)
    requires AllNonNegative(pod.containers) && AllNonNegative(pod.inits)
    ensures Amount(EffectiveRequest(pod), r) >= Total(pod.containers, |pod.containers|, r) >= 0
    ensures forall i :: 0 <= i < |pod.inits| ==> Amount(EffectiveRequest(pod), r) >= Amount(pod.inits[i], r)
    ensures forall i :: 0 <= i < |pod.containers| ==> Amount(EffectiveRequest(pod), r) >= Amount(pod.containers[i], r)
  {
    SumRequestsAmount(pod.containers, |pod.containers|, r);
    assert pod.containers[..|pod.containers|] == pod.containers;
    TotalMonotone(pod.containers, 0, |pod.containers|, r);
    MaxRequestsNonNegative(pod.inits);
    forall i | 0 <= i < |pod.inits|
      ensures Amount(EffectiveRequest(pod), r) >= Amount(pod.inits[i], r)
    {
      MaxRequestsBound(pod.inits, i, r);
    }
    forall i | 0 <= i < |pod.containers|
      ensures Amount(EffectiveRequest(pod), r) >= Amount(pod.containers[i], r)
    {
      TotalMonotone(pod.containers, 0, i, r);
      TotalMonotone(pod.containers, i + 1, |pod.containers|, r);
    }
  }
}
