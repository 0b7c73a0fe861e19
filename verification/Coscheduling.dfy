/** The coscheduling plugin: counting a group in the snapshot, and acting on the pods that wait. */
module Coscheduling {
  import opened Options
  import opened Gang
  import ClusterCheck

  /** The pods of all nodes of the snapshot. */
  ghost function PlacedIn(nodes: seq<seq<Pod>>): set<Pod> {
    set i, j | 0 <= i < |nodes| && 0 <= j < |nodes[i]| :: nodes[i][j]
  }

  /** No pod is on two nodes, or on one node twice. */
  ghost predicate Once(nodes: seq<seq<Pod>>) {
    forall i, j, m, n ::
      0 <= i < |nodes| && 0 <= j < |nodes[i]| && 0 <= m < |nodes| && 0 <= n < |nodes[m]| && (i != m || j != n) ==>
        nodes[i][j] != nodes[m][n]
  }

  /** The count of the two loops is the size of the group's assigned set. */
  method CalculateAssignedPods(nodes: seq<seq<Pod>>, g: string) returns (count: nat)
    requires Once(nodes)
    ensures count == |Members(PlacedIn(nodes), g)|
  {
    count := 0;
    ghost var seen: set<Pod> := {};
    for i := 0 to |nodes|
      invariant forall p :: p in seen <==> exists m, n :: 0 <= m < i && 0 <= n < |nodes[m]| && nodes[m][n] == p
      invariant count == |Members(seen, g)|
    {
      for j := 0 to |nodes[i]|
        invariant forall p :: p in seen <==>
          exists m, n :: 0 <= m < |nodes| && 0 <= n < |nodes[m]| && (m < i || (m == i && n < j)) && nodes[m][n] == p
        invariant count == |Members(seen, g)|
      {
        assert nodes[i][j] !in seen;
        MembersWith(seen, nodes[i][j], g);
        if nodes[i][j].group == g {
          count := count + 1;
        }
        seen := seen + {nodes[i][j]};
      }
    }
    assert seen == PlacedIn(nodes);
  }

  /** The cluster has, outside the group, what the group asks for and room for the pods it needs. */
  ghost predicate Enough(config: Config, nodes: seq<Option<ClusterCheck.Node>>, minResources: ClusterCheck.Amounts, g: string) {
    g in config.minMember && ClusterCheck.Accepts(nodes, minResources[ClusterCheck.PODS := config.minMember[g]], g)
  }

  /**
    Where no node is overcommitted outside the group, the cluster holds the group exactly if what it has left outside
    the group covers what the group asks for, and as many pods as the group needs.
   */
  lemma EnoughByTotals(nodes: seq<Option<ClusterCheck.Node>>, minResources: ClusterCheck.Amounts, minMember: int, g: string)
    requires ClusterCheck.SomeNode(nodes, |nodes|)
    requires forall name :: name in minResources || name == ClusterCheck.PODS ==> ClusterCheck.NothingOvercommitted(nodes, g, name)
    ensures ClusterCheck.Accepts(nodes, minResources[ClusterCheck.PODS := minMember], g) <==>
      && minMember <= ClusterCheck.LeftSum(nodes, g, "pods", |nodes|)
      && forall name :: name in minResources && name != "pods" ==> minResources[name] <= ClusterCheck.LeftSum(nodes, g, name, |nodes|)
  {
    hide ClusterCheck.Accepts, ClusterCheck.LeftSum, ClusterCheck.NothingOvercommitted;
    var request := minResources[ClusterCheck.PODS := minMember];
    ClusterCheck.AcceptsByTotals(nodes, request, g);
    assert ClusterCheck.PODS in request && request[ClusterCheck.PODS] == minMember;
    assert forall name :: name in request && name != "pods" ==> name in minResources && request[name] == minResources[name];
    assert forall name :: name in minResources && name != "pods" ==> name in request;
  }

  class Plugin {
    const config: Config
    var waiting: set<Pod> // the framework's waiting pods
    ghost var failing: set<Pod>
    var denied: Cache
    var permitted: Cache

    constructor (config: Config)
      ensures this.config == config && waiting == {} && failing == {} && denied == map[] && permitted == map[]
    {
      this.config := config;
      waiting, failing, denied, permitted := {}, {}, map[], map[];
    }

    /** The state of the protocol, with the pods that have a place and the scheduler's cycle. */
    ghost function View(placed: set<Pod>, now: int, cycle: Cycle): State
      reads this
    {
      State(placed, waiting, failing, denied, permitted, now, cycle)
    }

    /**
      PreFilter begins the pod's cycle. `existing` are the pods the lister knows, `minResources` what the group
      asks for, if anything, and `nodes` the snapshot.
     */
    method RunPreFilter(pod: Pod, existing: seq<Pod>, minResources: Option<ClusterCheck.Amounts>,
                        nodes: seq<Option<ClusterCheck.Node>>, now: int, ghost placed: set<Pod>)
      returns (verdict: Verdict)
      requires Once([existing])
      modifies this`denied, this`permitted
      ensures View(placed, now, Busy(pod, verdict.Pass?, placed, {})) ==
              Begun(config, old(View(placed, now, Idle)), pod, |Members(PlacedIn([existing]), pod.group)|, minResources.Some?,
                    minResources.Some? && Enough(config, nodes, minResources.value, pod.group))
      // a pod passes exactly if its group, where it has one, is not denied and has members enough, and what it asks for is there
      ensures verdict == Pass <==>
        || pod.group == "" || pod.group !in config.minMember
        || (&& !Has(old(denied), pod.group, now)
            && |Members(PlacedIn([existing]), pod.group)| >= config.minMember[pod.group]
            && (|| minResources.None? || Has(old(permitted), pod.group, now)
                || ClusterCheck.Accepts(nodes, minResources.value[ClusterCheck.PODS := config.minMember[pod.group]], pod.group)))
      // only a group that the cluster can hold comes to be permitted, and only one that it cannot hold comes to be denied
      ensures forall g :: Has(permitted, g, now) && !Has(old(permitted), g, now) ==>
        && g == pod.group && g in config.minMember && minResources.Some?
        && ClusterCheck.Accepts(nodes, minResources.value[ClusterCheck.PODS := config.minMember[g]], g)
      ensures forall g :: Has(denied, g, now) && !Has(old(denied), g, now) ==>
        && g == pod.group && g in config.minMember && minResources.Some?
        && !ClusterCheck.Accepts(nodes, minResources.value[ClusterCheck.PODS := config.minMember[g]], g)
    {
      var g := pod.group;
      if g == "" || g !in config.minMember {
        return Pass;
      }
      if Has(denied, g, now) {
        return Reject;
      }
      var siblings := CalculateAssignedPods([existing], g);
      if siblings < config.minMember[g] {
        return Reject;
      }
      if minResources.None? || Has(permitted, g, now) {
        return Pass;
      }
      var enough, _ := ClusterCheck.CheckClusterResource(nodes, minResources.value[ClusterCheck.PODS := config.minMember[g]], g);
      if !enough {
        denied := Added(denied, g, now, config.deniedTimeout);
        return Reject;
      }
      permitted := Added(permitted, g, now, config.scheduleTimeout);
      return Pass;
    }

    /** `IterateOverWaitingPods`: every waiting pod of the group is taken, in whatever order. */
    method TakeWaiting(g: string) returns (taken: set<Pod>)
      modifies this`waiting
      ensures taken == Members(old(waiting), g)
      ensures waiting == old(waiting) - taken
    {
      taken := {};
      var rest := waiting;
      while rest != {}
        invariant rest <= old(waiting)
        invariant forall p :: p in taken <==> p in old(waiting) && p !in rest && p.group == g
        invariant waiting == old(waiting) - taken
        decreases rest
      {
        var p :| p in rest;
        rest := rest - {p};
        if p.group == g {
          taken := taken + {p};
          waiting := waiting - {p};
        }
      }
    }

    /** Permit counts on `nodes`, the snapshot of the cycle. */
    method RunPermit(nodes: seq<seq<Pod>>, pod: Pod, ghost now: int, ghost placed: set<Pod>, ghost cycle: Cycle) returns (permission: Permission)
      requires Once(nodes) && cycle.Busy? && cycle.pod == pod && cycle.snapshot == PlacedIn(nodes)
      modifies this`waiting
      ensures permission == Permit(config, cycle.snapshot, pod)
      ensures View(if permission == NotFound then placed else placed + {pod}, now, Idle)
           == Permitted(config, old(View(placed, now, cycle)), cycle.snapshot, pod)
    {
      if pod.group == "" {
        return NotSpecified;
      }
      if pod.group !in config.minMember {
        return NotFound;
      }
      var count := CalculateAssignedPods(nodes, pod.group);
      if count + 1 >= config.minMember[pod.group] {
        var allowed := TakeWaiting(pod.group);
        return Success;
      }
      waiting := waiting + {pod};
      return Wait;
    }

    method RejectGroup(g: string, now: int, ghost placed: set<Pod>, ghost cycle: Cycle)
      modifies this
      ensures View(placed, now, cycle) == Rejected(config, old(View(placed, now, cycle)), g)
    {
      var rejected := TakeWaiting(g);
      failing := failing + rejected;
      denied := Added(denied, g, now, config.deniedTimeout);
      permitted := permitted - {g};
    }

    method RunPostFilter(nodes: seq<seq<Pod>>, pod: Pod, now: int, ghost placed: set<Pod>, ghost cycle: Cycle)
      requires Once(nodes) && cycle.Busy? && cycle.pod == pod && cycle.snapshot == PlacedIn(nodes)
      modifies this
      ensures View(placed, now, Idle) == PostFiltered(config, old(View(placed, now, cycle)), cycle.snapshot, pod)
    {
      if pod.group == "" || pod.group !in config.minMember {
        return;
      }
      var count := CalculateAssignedPods(nodes, pod.group);
      if count >= config.minMember[pod.group] {
        return;
      }
      if 10 * (config.minMember[pod.group] - count) <= config.minMember[pod.group] {
        return;
      }
      RejectGroup(pod.group, now, placed, Idle);
    }

    /** The group is rejected first; then the framework forgets the pod. */
    method RunUnreserve(pod: Pod, now: int, ghost placed: set<Pod>, ghost cycle: Cycle)
      modifies this
      ensures View(placed - {pod}, now, if cycle.Busy? && cycle.pod == pod then Idle else cycle)
           == Unreserved(config, old(View(placed, now, cycle)), pod)
    {
      if pod.group != "" && pod.group in config.minMember {
        RejectGroup(pod.group, now, placed, cycle);
      }
      waiting := waiting - {pod};
      failing := failing - {pod};
    }
  }
}
