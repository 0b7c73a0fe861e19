/**
  Laws of the NUMA filter, in terms of the amounts that pods ask for and zones report: what each resource of a
  request decides, what does not matter at all, and how containers and init containers combine.
 */
module NumaLaws {
  import opened Options
  import opened NumaModel

  // ---------------------------------------------------------------------------
  // What one resource decides

  ghost predicate ReportedSomewhere(zones: seq<Zone>, r: string) {
    exists i :: 0 <= i < |zones| && r in zones[i].resources
  }

  /** A resource asked for with amount zero decides nothing. */
  lemma ZeroDecidesNothing(zones: seq<Zone>, qos: QosClass, known: set<string>, request: ResourceList, r: string, id: int)
    requires r in request && request[r] == 0
    ensures FitsOn(zones, qos, known, request, id) <==> FitsOn(zones, qos, known, request - {r}, id)
  {
    OthersDecide(zones, qos, known, request, r, id);
  }

  /** Nor does an extended resource of the node that no zone reports. */
  lemma UnreportedDecidesNothing(zones: seq<Zone>, qos: QosClass, known: set<string>, request: ResourceList, r: string, id: int)
    requires r in request && r in known && !ReportedSomewhere(zones, r)
    requires '/' in r && !exists i :: 0 <= i <= |r| && "kubernetes.io/" <= r[i..]
    ensures FitsOn(zones, qos, known, request, id) <==> FitsOn(zones, qos, known, request - {r}, id)
  {
    OthersDecide(zones, qos, known, request, r, id);
    assert !Affine(zones, r) && !IsNative(r);
  }

  /** A native resource must be reported by some zone, and every resource by the node. */
  lemma MissingResourceTurnsAway(zones: seq<Zone>, qos: QosClass, known: set<string>, request: ResourceList, r: string)
    requires r in request && request[r] != 0
    requires r !in known || (!ReportedSomewhere(zones, r) && ('/' !in r || exists i :: 0 <= i <= |r| && "kubernetes.io/" <= r[i..]))
    ensures !Alignable(zones, qos, known, request)
  {
    forall id
      ensures !FitsOn(zones, qos, known, request, id)
    {
      assert r in known ==> IsNative(r) && !Serves(zones, qos, r, request[r], id);
      assert !Meets(zones, qos, known, r, request[r], id);
    }
  }

  /**
    Of a resource that is reported, a zone with the id must have the amount; but for CPU, memory and huge pages
    of a pod that is not Guaranteed it is enough that a zone with the id reports the resource.
   */
  lemma ReportedDecides(zones: seq<Zone>, qos: QosClass, known: set<string>, request: ResourceList, r: string, id: int)
    requires r in request && request[r] != 0 && r in known && ReportedSomewhere(zones, r)
    ensures FitsOn(zones, qos, known, request, id) <==>
      && FitsOn(zones, qos, known, request - {r}, id)
      && exists i :: 0 <= i < |zones| && zones[i].id == id && r in zones[i].resources &&
           (zones[i].resources[r] >= request[r] || (qos != Guaranteed && (r == "cpu" || r == "memory" || "hugepages-" <= r)))
  {
    OthersDecide(zones, qos, known, request, r, id);
    assert Affine(zones, r);
    forall i | 0 <= i < |zones| && r in zones[i].resources
      ensures Suitable(qos, r, request[r], zones[i].resources[r]) <==>
              zones[i].resources[r] >= request[r] || (qos != Guaranteed && (r == "cpu" || r == "memory" || "hugepages-" <= r))
    {
    }
  }

  lemma OthersDecide(zones: seq<Zone>, qos: QosClass, known: set<string>, request: ResourceList, r: string, id: int)
    requires r in request
    ensures FitsOn(zones, qos, known, request, id) <==>
            FitsOn(zones, qos, known, request - {r}, id) && Meets(zones, qos, known, r, request[r], id)
  {
    hide Meets;
    assert forall s :: s in request && s != r ==> s in request - {r} && (request - {r})[s] == request[s];
  }

  /** Nothing asked for fits every id the mask can hold. */
  lemma EmptyRequestFits(zones: seq<Zone>, qos: QosClass, known: set<string>, id: int)
    ensures FitsOn(zones, qos, known, map[], id) <==> 0 <= id < 64
  {
  }

  // ---------------------------------------------------------------------------
  // What does not matter for a pod that is not Guaranteed

  /** CPU, memory and huge pages. */
  predicate Shareable(r: string) { r == "cpu" || r == "memory" || "hugepages-" <= r }

  /** The lists name the same resources, and differ only in non-zero amounts of CPU, memory and huge pages. */
  ghost predicate AlikeRequests(a: ResourceList, b: ResourceList) {
    a.Keys == b.Keys && forall r :: r in a ==> if Shareable(r) then a[r] == 0 <==> b[r] == 0 else a[r] == b[r]
  }

  /** The zones report the same resources, in amounts that differ only for CPU, memory and huge pages. */
  ghost predicate AlikeZones(p: seq<Zone>, q: seq<Zone>) {
    |p| == |q| && forall i :: 0 <= i < |p| ==> AlikeZone(p[i], q[i])
  }

  ghost predicate AlikeZone(p: Zone, q: Zone) {
    p.id == q.id && p.resources.Keys == q.resources.Keys
    && forall r :: r in p.resources && !Shareable(r) ==> p.resources[r] == q.resources[r]
  }

  ghost predicate AlikeLists(p: seq<ResourceList>, q: seq<ResourceList>) {
    |p| == |q| && forall i :: 0 <= i < |p| ==> AlikeRequests(p[i], q[i])
  }

  lemma AlikeServe(p: seq<Zone>, q: seq<Zone>, qos: QosClass, r: string, x: int, y: int, id: int)
    requires qos != Guaranteed && AlikeZones(p, q) && (Shareable(r) || x == y) && Serves(p, qos, r, x, id)
    ensures Serves(q, qos, r, y, id)
  {
    var i :| 0 <= i < |p| && p[i].id == id && r in p[i].resources && Suitable(qos, r, x, p[i].resources[r]);
    assert AlikeZone(p[i], q[i]);
  }

  lemma AlikeZonesBack(p: seq<Zone>, q: seq<Zone>)
    requires AlikeZones(p, q)
    ensures AlikeZones(q, p)
  {
    forall i | 0 <= i < |q|
      ensures AlikeZone(q[i], p[i])
    {
      assert AlikeZone(p[i], q[i]);
    }
  }

  lemma AlikeAffine(p: seq<Zone>, q: seq<Zone>, r: string)
    requires AlikeZones(p, q)
    ensures Affine(p, r) <==> Affine(q, r)
  {
    assert forall i :: 0 <= i < |p| ==> AlikeZone(p[i], q[i]);
  }

  lemma AlikeFit(p: seq<Zone>, q: seq<Zone>, qos: QosClass, known: set<string>, a: ResourceList, b: ResourceList, id: int)
    requires qos != Guaranteed && AlikeZones(p, q) && AlikeRequests(a, b)
    ensures FitsOn(p, qos, known, a, id) <==> FitsOn(q, qos, known, b, id)
  {
    AlikeZonesBack(p, q);
    forall r | r in a
      ensures Meets(p, qos, known, r, a[r], id) <==> Meets(q, qos, known, r, b[r], id)
    {
      AlikeAffine(p, q, r);
      if Serves(p, qos, r, a[r], id) {
        AlikeServe(p, q, qos, r, a[r], b[r], id);
      }
      if Serves(q, qos, r, b[r], id) {
        AlikeServe(q, p, qos, r, b[r], a[r], id);
      }
    }
  }

  lemma AlikeLeast(p: seq<Zone>, q: seq<Zone>, qos: QosClass, known: set<string>, a: ResourceList, b: ResourceList)
    requires qos != Guaranteed && AlikeZones(p, q) && AlikeRequests(a, b)
    ensures LeastFit(p, qos, known, a) == LeastFit(q, qos, known, b)
    ensures Alignable(p, qos, known, a) <==> Alignable(q, qos, known, b)
  {
    hide FitsOn;
    forall id
      ensures FitsOn(p, qos, known, a, id) <==> FitsOn(q, qos, known, b, id)
    {
      AlikeFit(p, q, qos, known, a, b, id);
    }
  }

  lemma AlikeSubtract(p: seq<Zone>, q: seq<Zone>, id: int, a: ResourceList, b: ResourceList)
    requires AlikeZones(p, q) && AlikeRequests(a, b)
    ensures AlikeZones(Subtract(p, id, a), Subtract(q, id, b))
  {
    forall i | 0 <= i < |p|
      ensures AlikeZone(Subtract(p, id, a)[i], Subtract(q, id, b)[i])
    {
      assert AlikeZone(p[i], q[i]);
      forall r | r in SubtractList(p[i].resources, a) && !Shareable(r)
        ensures SubtractList(p[i].resources, a)[r] == SubtractList(q[i].resources, b)[r]
      {
        assert Amount(p[i].resources, r) == Amount(q[i].resources, r) && Amount(a, r) == Amount(b, r);
      }
    }
  }

  lemma {:induction false} AlikeGreedy(p: seq<Zone>, q: seq<Zone>, qos: QosClass, known: set<string>,
                                       c: seq<ResourceList>, d: seq<ResourceList>, k: nat)
    requires qos != Guaranteed && AlikeZones(p, q) && AlikeLists(c, d) && k <= |c|
    ensures var x, y := Greedy(p, qos, known, c, k), Greedy(q, qos, known, d, k);
            (x.Placed? <==> y.Placed?) && (x.Placed? ==> x.ids == y.ids && AlikeZones(x.zones, y.zones))
  {
    hide LeastFit, AlikeZones, AlikeRequests, Subtract;
    if k > 0 {
      AlikeGreedy(p, q, qos, known, c, d, k - 1);
      var x, y := Greedy(p, qos, known, c, k - 1), Greedy(q, qos, known, d, k - 1);
      if x.Placed? {
        AlikeLeast(x.zones, y.zones, qos, known, c[k - 1], d[k - 1]);
        var least := LeastFit(x.zones, qos, known, c[k - 1]);
        if least.Some? {
          AlikeSubtract(x.zones, y.zones, least.value, c[k - 1], d[k - 1]);
        }
      }
    }
  }

  ghost predicate AlikePods(a: Pod, b: Pod) {
    a.qos == b.qos && AlikeLists(a.inits, b.inits) && AlikeLists(a.containers, b.containers)
  }

  /**
    For a pod that is not Guaranteed the container level does not look at amounts of CPU, memory and huge pages: any
    non-zero amount in its requests, and any amount in the zones, may be another.
   */
  lemma AmountsIgnoredByContainer(a: Pod, b: Pod, p: seq<Zone>, q: seq<Zone>, known: set<string>)
    requires a.qos != Guaranteed && AlikePods(a, b) && AlikeZones(p, q)
    ensures ContainerScopeAccepts(a, p, known) <==> ContainerScopeAccepts(b, q, known)
  {
    forall i | 0 <= i < |a.inits|
      ensures Alignable(p, a.qos, known, a.inits[i]) <==> Alignable(q, b.qos, known, b.inits[i])
    {
      AlikeLeast(p, q, a.qos, known, a.inits[i], b.inits[i]);
    }
    AlikeGreedy(p, q, a.qos, known, a.containers, b.containers, |a.containers|);
  }

  /** Alike, and all amounts non-negative. */
  ghost predicate AlikeAmounts(a: ResourceList, b: ResourceList) {
    AlikeRequests(a, b) && NonNegative(a) && NonNegative(b)
  }

  lemma {:induction false} AlikeSums(p: seq<ResourceList>, q: seq<ResourceList>)
    requires AlikeLists(p, q) && AllNonNegative(p) && AllNonNegative(q)
    ensures AlikeAmounts(SumRequests(p), SumRequests(q))
  {
    if p != [] {
      AlikeSums(p[..|p| - 1], q[..|q| - 1]);
      assert AlikeRequests(p[|p| - 1], q[|q| - 1]);
      AlikeMergedSum(SumRequests(p[..|p| - 1]), SumRequests(q[..|q| - 1]), p[|p| - 1], q[|q| - 1]);
    }
  }

  lemma {:induction false} AlikeMaxima(p: seq<ResourceList>, q: seq<ResourceList>)
    requires AlikeLists(p, q) && AllNonNegative(p) && AllNonNegative(q)
    ensures AlikeAmounts(MaxRequests(p), MaxRequests(q))
  {
    if p != [] {
      AlikeMaxima(p[..|p| - 1], q[..|q| - 1]);
      assert AlikeRequests(p[|p| - 1], q[|q| - 1]);
      AlikeMergedMax(MaxRequests(p[..|p| - 1]), MaxRequests(q[..|q| - 1]), p[|p| - 1], q[|q| - 1]);
    }
  }

  lemma AlikeMergedSum(a: ResourceList, b: ResourceList, c: ResourceList, d: ResourceList)
    requires AlikeAmounts(a, b) && AlikeAmounts(c, d)
    ensures AlikeAmounts(MergeSum(a, c), MergeSum(b, d))
  {
    var m, n := MergeSum(a, c), MergeSum(b, d);
    forall r | r in m
      ensures m[r] >= 0 && n[r] >= 0 && if Shareable(r) then m[r] == 0 <==> n[r] == 0 else m[r] == n[r]
    {
    }
  }

  lemma AlikeMergedMax(a: ResourceList, b: ResourceList, c: ResourceList, d: ResourceList)
    requires AlikeAmounts(a, b) && AlikeAmounts(c, d)
    ensures AlikeAmounts(MergeMax(a, c), MergeMax(b, d))
  {
    var m, n := MergeMax(a, c), MergeMax(b, d);
    forall r | r in m
      ensures m[r] >= 0 && n[r] >= 0 && if Shareable(r) then m[r] == 0 <==> n[r] == 0 else m[r] == n[r]
    {
    }
  }

  /** Nor does the pod level. */
  lemma AmountsIgnoredByPod(a: Pod, b: Pod, p: seq<Zone>, q: seq<Zone>, known: set<string>)
    requires a.qos != Guaranteed && AlikePods(a, b) && AlikeZones(p, q)
    requires AllNonNegative(a.containers) && AllNonNegative(a.inits) && AllNonNegative(b.containers) && AllNonNegative(b.inits)
    ensures PodScopeAccepts(a, p, known) <==> PodScopeAccepts(b, q, known)
  {
    AlikeSums(a.containers, b.containers);
    AlikeMaxima(a.inits, b.inits);
    AlikeMergedMax(SumRequests(a.containers), SumRequests(b.containers), MaxRequests(a.inits), MaxRequests(b.inits));
    AlikeLeast(p, q, a.qos, known, EffectiveRequest(a), EffectiveRequest(b));
  }

  /** The node has every resource asked for, and the id's zones report each. */
  ghost predicate AllReportedOn(zones: seq<Zone>, known: set<string>, request: ResourceList, id: int) {
    0 <= id < 64 && forall r :: r in request && request[r] != 0 ==>
      r in known && exists i :: 0 <= i < |zones| && zones[i].id == id && r in zones[i].resources
  }

  /** ... and enough of each. */
  ghost predicate AllEnoughOn(zones: seq<Zone>, known: set<string>, request: ResourceList, id: int) {
    0 <= id < 64 && forall r :: r in request && request[r] != 0 ==>
      r in known && exists i :: 0 <= i < |zones| && zones[i].id == id && r in zones[i].resources && zones[i].resources[r] >= request[r]
  }

  /**
    A request of such a pod that names only CPU, memory and huge pages is met exactly when one
    id's zones report them all; of a Guaranteed pod, exactly when they have enough of them all.
   */
  lemma PlainRequestIff(zones: seq<Zone>, qos: QosClass, known: set<string>, request: ResourceList)
    requires forall r :: r in request ==> '/' !in r
    ensures qos == Guaranteed ==> (Alignable(zones, qos, known, request) <==> exists id :: AllEnoughOn(zones, known, request, id))
    ensures qos != Guaranteed && (forall r :: r in request ==> Shareable(r)) ==>
      (Alignable(zones, qos, known, request) <==> exists id :: AllReportedOn(zones, known, request, id))
  {
    forall id
      ensures qos == Guaranteed ==> (FitsOn(zones, qos, known, request, id) <==> AllEnoughOn(zones, known, request, id))
      ensures qos != Guaranteed && (forall r :: r in request ==> Shareable(r)) ==>
        (FitsOn(zones, qos, known, request, id) <==> AllReportedOn(zones, known, request, id))
    {
    }
  }

  // ---------------------------------------------------------------------------
  // How the parts of a pod combine

  /** At container level a pod is accepted exactly when its containers are, and each init container alone on the untouched zones. */
  lemma InitContainersAlone(pod: Pod, zones: seq<Zone>, known: set<string>)
    ensures ContainerScopeAccepts(pod, zones, known) <==>
      && ContainerScopeAccepts(Pod([], pod.containers, pod.qos), zones, known)
      && forall i :: 0 <= i < |pod.inits| ==> ContainerScopeAccepts(Pod([], [pod.inits[i]], pod.qos), zones, known)
  {
    forall i | 0 <= i < |pod.inits|
      ensures ContainerScopeAccepts(Pod([], [pod.inits[i]], pod.qos), zones, known) <==> Alignable(zones, pod.qos, known, pod.inits[i])
    {
      OneContainerAccepted(zones, pod.qos, known, pod.inits[i]);
    }
  }

  lemma OneContainerAccepted(zones: seq<Zone>, qos: QosClass, known: set<string>, request: ResourceList)
    ensures ContainerScopeAccepts(Pod([], [request], qos), zones, known) <==> Alignable(zones, qos, known, request)
  {
    var one := [request];
    assert one[0] == request;
    assert Greedy(zones, qos, known, one, 0) == Placed(zones, []);
    assert Greedy(zones, qos, known, one, 1).Placed? <==> LeastFit(zones, qos, known, one[0]).Some?;
  }

  /** The two levels agree on a pod of a single container. */
  lemma OneContainerOneAnswer(zones: seq<Zone>, qos: QosClass, known: set<string>, request: ResourceList)
    ensures ContainerScopeAccepts(Pod([], [request], qos), zones, known) <==> PodScopeAccepts(Pod([], [request], qos), zones, known)
  {
    OneContainerAccepted(zones, qos, known, request);
    var one := [request];
    assert one[..0] == [];
    assert SumRequests(one) == MergeSum(SumRequests(one[..0]), one[0]);
    assert MergeSum(map[], request) == request;
    assert MergeMax(request, map[]) == request;
  }

  /** The effective request is no more than it must be to cover the containers together and every init container alone. */
  lemma EffectiveIsLeast(pod: Pod, r: string, bound: int)
    requires bound >= Total(pod.containers, |pod.containers|, r) && bound >= 0
    requires forall i :: 0 <= i < |pod.inits| ==> bound >= Amount(pod.inits[i], r)
    ensures Amount(EffectiveRequest(pod), r) <= bound
  {
    SumRequestsAmount(pod.containers, |pod.containers|, r);
    assert pod.containers[..|pod.containers|] == pod.containers;
    MaximaBounded(pod.inits, r, bound);
  }

  lemma {:induction false} MaximaBounded(inits: seq<ResourceList>, r: string, bound: int)
    requires bound >= 0 && forall i :: 0 <= i < |inits| ==> bound >= Amount(inits[i], r)
    ensures Amount(MaxRequests(inits), r) <= bound
  {
    if inits != [] {
      MaximaBounded(inits[..|inits| - 1], r, bound);
    }
  }
}
