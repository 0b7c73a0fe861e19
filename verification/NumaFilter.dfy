/**
  The filter as it runs: maps are visited in whatever order the runtime picks, the mask is
  narrowed resource by resource with early exits, and the zones' resource maps change in place.
 */
module NumaFilter {
  import opened NumaModel
  import opened NumaScopes

  class NumaNode {
    const id: int
    var resources: ResourceList

    constructor (id: int, resources: ResourceList)
      ensures this.id == id && this.resources == resources
    {
      this.id, this.resources := id, resources;
    }
  }

  ghost function Zones(nodes: seq<NumaNode>): (zones: seq<Zone>)
    reads nodes
    ensures |zones| == |nodes|
    ensures forall i :: 0 <= i < |nodes| ==> zones[i] == Zone(nodes[i].id, nodes[i].resources)
  {
    seq(|nodes|, i requires 0 <= i < |nodes| reads nodes => Zone(nodes[i].id, nodes[i].resources))
  }

  /** The ids on which one resource can be served, and whether any node reports it at all. */
  method ResourceMask(nodes: seq<NumaNode>, qos: QosClass, r: string, quantity: int) returns (mask: set<int>, affine: bool)
    ensures affine <==> Affine(Zones(nodes), r)
    ensures forall id :: id in mask <==> Serves(Zones(nodes), qos, r, quantity, id)
  {
    mask, affine := {}, false;
    ghost var zones := Zones(nodes);
    for k := 0 to |nodes|
      invariant affine <==> exists i :: 0 <= i < k && r in zones[i].resources
      invariant forall id :: id in mask <==>
        exists i :: 0 <= i < k && zones[i].id == id && r in zones[i].resources && Suitable(qos, r, quantity, zones[i].resources[r])
    {
      if r in nodes[k].resources {
        affine := true;
        if Suitable(qos, r, quantity, nodes[k].resources[r]) {
          mask := mask + {nodes[k].id};
        }
      }
    }
  }

  /** `GetBits()[0]` of a mask that is not empty. */
  method LowestBit(mask: set<int>) returns (bit: int)
    requires exists b :: b in mask && 0 <= b < MASK_BITS
    ensures bit in mask && 0 <= bit < MASK_BITS
    ensures forall b :: b in mask && 0 <= b ==> bit <= b
  {
    bit := 0;
    while bit !in mask
      invariant 0 <= bit < MASK_BITS
      invariant forall b :: b in mask && 0 <= b ==> bit <= b
      decreases MASK_BITS - bit
    {
      bit := bit + 1;
    }
  }

  /** `Fill` of an empty mask. */
  method FullMask() returns (mask: set<int>)
    ensures forall b :: b in mask <==> 0 <= b < MASK_BITS
  {
    mask := {};
    for i := 0 to MASK_BITS
      invariant forall b :: b in mask <==> 0 <= b < i
    {
      mask := mask + {i};
    }
  }

  /**
    Whatever order the request map is visited in and wherever the loop leaves early, the answer is
    yes exactly when one id serves the whole request, and the id returned is the least such id.
   */
  method ResourcesAvailableInAnyNumaNodes(nodes: seq<NumaNode>, request: ResourceList, qos: QosClass, known: set<string>)
    returns (id: int, aligned: bool)
    ensures aligned <==> Alignable(Zones(nodes), qos, known, request)
    ensures aligned ==> IsLeastFit(Zones(nodes), qos, known, request, id)
    ensures !aligned ==> id == HIGHEST_NUMA_ID
  {
    ghost var zones := Zones(nodes);
    var mask := FullMask();
    assert 0 in mask;
    var rest := request.Keys;
    while rest != {}
      invariant rest <= request.Keys && mask != {}
      invariant forall b :: b in mask <==>
        0 <= b < MASK_BITS && forall r :: r in request && r !in rest ==> Meets(zones, qos, known, r, request[r], b)
      decreases rest
    {
      var r :| r in rest;
      rest := rest - {r};
      if request[r] == 0 {
        continue;
      }
      if r !in known {
        NothingFits(zones, qos, known, request, r);
        return HIGHEST_NUMA_ID, false;
      }
      var served, affine := ResourceMask(nodes, qos, r, request[r]);
      assert forall b :: Serves(zones, qos, r, request[r], b) ==> affine;
      if !affine && !IsNative(r) {
        continue;
      }
      mask := mask * served;
      if mask == {} {
        forall b | FitsOn(zones, qos, known, request, b)
          ensures b in mask
        {
          assert Meets(zones, qos, known, r, request[r], b);
        }
        return HIGHEST_NUMA_ID, false;
      }
    }
    assert forall b :: b in mask <==> FitsOn(zones, qos, known, request, b);
    var b :| b in mask;
    id := LowestBit(mask);
    return id, true;
  }

  lemma NothingFits(zones: seq<Zone>, qos: QosClass, known: set<string>, request: ResourceList, r: string)
    requires r in request && request[r] != 0 && r !in known
    ensures !Alignable(zones, qos, known, request)
  {
    forall id
      ensures !FitsOn(zones, qos, known, request, id)
    {
      assert !Meets(zones, qos, known, r, request[r], id);
    }
  }

  /** One node pays: entries are written one by one, and a missing one starts from zero. */
  method SubtractFromNode(node: NumaNode, request: ResourceList)
    modifies node
    ensures node.resources == SubtractList(old(node.resources), request)
  {
    ghost var before := node.resources;
    var rest := request.Keys;
    while rest != {}
      invariant rest <= request.Keys
      invariant forall r :: r in node.resources <==> r in before || (r in request && r !in rest)
      invariant forall r :: r in node.resources ==>
        node.resources[r] == Amount(before, r) - if r in rest then 0 else Amount(request, r)
      decreases rest
    {
      var r :| r in rest;
      rest := rest - {r};
      node.resources := node.resources[r := Amount(node.resources, r) - request[r]];
    }
  }

  method SubtractFromNuma(nodes: seq<NumaNode>, id: int, request: ResourceList)
    requires forall i, j :: 0 <= i < j < |nodes| ==> nodes[i] != nodes[j]
    modifies nodes
    ensures Zones(nodes) == Subtract(old(Zones(nodes)), id, request)
  {
    ghost var zones := Zones(nodes);
    ghost var after := Subtract(zones, id, request);
    for k := 0 to |nodes|
      invariant forall i :: 0 <= i < |nodes| ==> nodes[i].resources == if i < k then after[i].resources else zones[i].resources
    {
      if nodes[k].id == id {
        SubtractFromNode(nodes[k], request);
      }
    }
  }

  /** The container-level handler: it answers as the greedy placement, and leaves the zones as drained as that. */
  method SingleNumaContainerLevelHandler(pod: Pod, nodes: seq<NumaNode>, known: set<string>) returns (accepted: bool)
    requires forall i, j :: 0 <= i < j < |nodes| ==> nodes[i] != nodes[j]
    modifies nodes
    ensures accepted <==> ContainerScopeAccepts(pod, old(Zones(nodes)), known)
    ensures accepted ==> Zones(nodes) == Greedy(old(Zones(nodes)), pod.qos, known, pod.containers, |pod.containers|).zones
  {
    hide Greedy, FitsOn, Subtract;
    ghost var zones := Zones(nodes);
    for i := 0 to |pod.inits|
      invariant forall j :: 0 <= j < i ==> Alignable(zones, pod.qos, known, pod.inits[j])
      invariant Zones(nodes) == zones
    {
      var _, fits := ResourcesAvailableInAnyNumaNodes(nodes, pod.inits[i], pod.qos, known);
      if !fits {
        return false;
      }
    }
    GreedyNone(zones, pod.qos, known, pod.containers);
    for k := 0 to |pod.containers|
      invariant Greedy(zones, pod.qos, known, pod.containers, k).Placed?
      invariant Zones(nodes) == Greedy(zones, pod.qos, known, pod.containers, k).zones
    {
      ghost var left := Zones(nodes);
      var id, fits := ResourcesAvailableInAnyNumaNodes(nodes, pod.containers[k], pod.qos, known);
      if !fits {
        StuckForGood(zones, pod.qos, known, pod.containers, k);
        return false;
      }
      LeastGoesOn(zones, pod.qos, known, pod.containers, k, id);
      SubtractFromNuma(nodes, id, pod.containers[k]);
    }
    return true;
  }

  /** The least id that serves the container is the one the greedy placement takes. */
  lemma LeastGoesOn(zones: seq<Zone>, qos: QosClass, known: set<string>, containers: seq<ResourceList>, k: nat, id: int)
    requires k < |containers| && Greedy(zones, qos, known, containers, k).Placed?
    requires IsLeastFit(Greedy(zones, qos, known, containers, k).zones, qos, known, containers[k], id)
    ensures var p := Greedy(zones, qos, known, containers, k);
            Greedy(zones, qos, known, containers, k + 1) == Placed(Subtract(p.zones, id, containers[k]), p.ids + [id])
  {
  }

  lemma StuckForGood(zones: seq<Zone>, qos: QosClass, known: set<string>, containers: seq<ResourceList>, k: nat)
    requires k < |containers| && Greedy(zones, qos, known, containers, k).Placed?
    requires !Alignable(Greedy(zones, qos, known, containers, k).zones, qos, known, containers[k])
    ensures Greedy(zones, qos, known, containers, |containers|) == Stuck
  {
    PlacedPrefix(zones, qos, known, containers, k + 1, |containers|);
  }

  // ---------------------------------------------------------------------------
  // The pod-level handler

  method AddInto(sums: ResourceList, request: ResourceList) returns (merged: ResourceList)
    ensures merged == MergeSum(sums, request)
  {
    merged := sums;
    var rest := request.Keys;
    while rest != {}
      invariant rest <= request.Keys
      invariant forall r :: r in merged <==> r in sums || (r in request && r !in rest)
      invariant forall r :: r in merged ==> merged[r] == Amount(sums, r) + if r in rest then 0 else Amount(request, r)
      decreases rest
    {
      var r :| r in rest;
      rest := rest - {r};
      merged := merged[r := if r in merged then request[r] + merged[r] else request[r]];
    }
  }

  method RaiseTo(maxima: ResourceList, request: ResourceList) returns (merged: ResourceList)
    ensures merged == MergeMax(maxima, request)
  {
    merged := maxima;
    var rest := request.Keys;
    while rest != {}
      invariant rest <= request.Keys
      invariant forall r :: r in merged <==> r in maxima || (r in request && r !in rest)
      invariant forall r :: r in merged ==> merged[r] == if r in rest then maxima[r] else MergeMax(maxima, request)[r]
      decreases rest
    {
      var r :| r in rest;
      rest := rest - {r};
      if r in merged && request[r] <= merged[r] {
        continue;
      }
      merged := merged[r := request[r]];
    }
  }

  method GetPodEffectiveRequest(pod: Pod) returns (request: ResourceList)
    ensures request == EffectiveRequest(pod)
  {
    var initRequest: ResourceList := map[];
    for i := 0 to |pod.inits|
      invariant initRequest == MaxRequests(pod.inits[..i])
    {
      assert pod.inits[..i + 1][..i] == pod.inits[..i];
      initRequest := RaiseTo(initRequest, pod.inits[i]);
    }
    request := map[];
    for i := 0 to |pod.containers|
      invariant request == SumRequests(pod.containers[..i])
    {
      assert pod.containers[..i + 1][..i] == pod.containers[..i];
      request := AddInto(request, pod.containers[i]);
    }
    assert pod.inits[..|pod.inits|] == pod.inits && pod.containers[..|pod.containers|] == pod.containers;
    request := RaiseTo(request, initRequest);
  }

  method SingleNumaPodLevelHandler(pod: Pod, nodes: seq<NumaNode>, known: set<string>) returns (accepted: bool)
    ensures accepted <==> PodScopeAccepts(pod, Zones(nodes), known)
  {
    var request := GetPodEffectiveRequest(pod);
    var _, fits := ResourcesAvailableInAnyNumaNodes(nodes, request, pod.qos, known);
    return fits;
  }
}
