/** Splitting preemption candidates by whether evicting them would violate a disruption budget. */
module Disruption {
  import opened Pods

  /** A label selector; one that does not parse or that names nothing matches no pod. */
  datatype Selector = Unparsable | MatchLabels(required: map<string, string>)

  datatype Budget = Budget(namespace: string, selector: Selector, allowed: int, disrupted: set<string>)

  /** Evicting the pod uses up one of the budget's disruptions. */
  predicate Charges(b: Budget, p: PodInfo) {
    && p.labels != map[]
    && b.namespace == p.namespace
    && b.selector.MatchLabels?
    && b.selector.required != map[]
    && (forall key :: key in b.selector.required ==> key in p.labels && p.labels[key] == b.selector.required[key])
    && p.name !in b.disrupted
  }

  /** How many of the first `n` pods the budget is charged for. */
  function Charged(b: Budget, pods: seq<PodInfo>, n: nat): nat
    requires n <= |pods|
  {
    if n == 0 then 0 else Charged(b, pods, n - 1) + if Charges(b, pods[n - 1]) then 1 else 0
  }

  /** Some budget that pod `k` is charged to is exceeded by the pods up to and including it. */
  predicate Violates(budgets: seq<Budget>, pods: seq<PodInfo>, k: nat)
    requires k < |pods|
  {
    exists i :: 0 <= i < |budgets| && Charges(budgets[i], pods[k]) && Charged(budgets[i], pods, k + 1) > budgets[i].allowed
  }

  /** The violating (or the other) pods among the first `n`, in their order. */
  function Group(budgets: seq<Budget>, pods: seq<PodInfo>, n: nat, violating: bool): seq<PodInfo>
    requires n <= |pods|
  {
    if n == 0 then []
    else
      var before := Group(budgets, pods, n - 1, violating);
      if Violates(budgets, pods, n - 1) == violating then before + [pods[n - 1]] else before
  }

  /** Stable: pod `i` sits in its group right after the members of the group that precede it. */
  lemma {:induction false} GroupStable(budgets: seq<Budget>, pods: seq<PodInfo>, i: nat, n: nat)
    requires i < n <= |pods|
    ensures var v := Violates(budgets, pods, i);
            var at := |Group(budgets, pods, i, v)|;
            at < |Group(budgets, pods, n, v)| && Group(budgets, pods, n, v)[at] == pods[i]
    decreases n
  {
    if i < n - 1 {
      GroupStable(budgets, pods, i, n - 1);
    }
  }

  /** A partition: the groups hold the pods and nothing else, and as many. */
  lemma {:induction false} GroupsPartition(budgets: seq<Budget>, pods: seq<PodInfo>, n: nat)
    requires n <= |pods|
    ensures var v, s := Group(budgets, pods, n, true), Group(budgets, pods, n, false);
            |v| + |s| == n && forall p :: p in pods[..n] <==> p in v || p in s
  {
    if n > 0 {
      GroupsPartition(budgets, pods, n - 1);
      assert pods[..n] == pods[..n - 1] + [pods[n - 1]];
    }
  }

  ghost predicate Apart(v: seq<PodInfo>, s: seq<PodInfo>) {
    DistinctUids(v) && DistinctUids(s) && forall i, j :: 0 <= i < |v| && 0 <= j < |s| ==> v[i].uid != s[j].uid
  }

  lemma ApartGrown(v: seq<PodInfo>, s: seq<PodInfo>, p: PodInfo)
    requires Apart(v, s) && forall q :: q in v || q in s ==> q.uid != p.uid
    ensures Apart(v + [p], s) && Apart(v, s + [p])
  {
    assert forall i :: 0 <= i < |v| ==> v[i] in v;
    assert forall i :: 0 <= i < |s| ==> s[i] in s;
  }

  /** Pods with different uids stay apart, within a group and across the two. */
  lemma {:induction false} GroupsApart(budgets: seq<Budget>, pods: seq<PodInfo>, n: nat)
    requires n <= |pods| && DistinctUids(pods)
    ensures Apart(Group(budgets, pods, n, true), Group(budgets, pods, n, false))
  {
    if n > 0 {
      GroupsApart(budgets, pods, n - 1);
      GroupsPartition(budgets, pods, n - 1);
      var v, s := Group(budgets, pods, n - 1, true), Group(budgets, pods, n - 1, false);
      forall p | p in v || p in s
        ensures p.uid != pods[n - 1].uid
      {
        assert p in pods[..n - 1];
      }
      ApartGrown(v, s, pods[n - 1]);
    }
  }

  lemma {:induction false} ChargedAcross(b: Budget, p: seq<PodInfo>, q: seq<PodInfo>, n: nat)
    requires n <= |p| && n <= |q| && p[..n] == q[..n]
    ensures Charged(b, p, n) == Charged(b, q, n)
  {
    if n > 0 {
      assert p[..n - 1] == p[..n][..n - 1] && q[..n - 1] == q[..n][..n - 1];
      assert p[n - 1] == p[..n][n - 1] && q[n - 1] == q[..n][n - 1];
      ChargedAcross(b, p, q, n - 1);
    }
  }

  /** The pods held not to violate never exceed any budget: evicting all of them stays within it. */
  lemma {:induction false} SpareGroupWithinBudget(budgets: seq<Budget>, pods: seq<PodInfo>, n: nat, i: nat)
    requires n <= |pods| && i < |budgets|
    ensures var spare := Group(budgets, pods, n, false);
            Charged(budgets[i], spare, |spare|) <= Charged(budgets[i], pods, n)
            && (Charged(budgets[i], spare, |spare|) == 0 || Charged(budgets[i], spare, |spare|) <= budgets[i].allowed)
  {
    if n > 0 {
      SpareGroupWithinBudget(budgets, pods, n - 1, i);
      var before, after := Group(budgets, pods, n - 1, false), Group(budgets, pods, n, false);
      ChargedAcross(budgets[i], before, after, |before|);
    }
  }

  /** The pods up to and including `k` whose eviction the budget is charged for. */
  function ChargedPods(b: Budget, pods: seq<PodInfo>, k: nat): set<int>
    requires k < |pods|
  {
    set j | 0 <= j <= k && Charges(b, pods[j])
  }

  lemma {:induction false} ChargedIsCount(b: Budget, pods: seq<PodInfo>, k: nat)
    requires k < |pods|
    ensures Charged(b, pods, k + 1) == |ChargedPods(b, pods, k)|
  {
    hide Charges;
    if k == 0 {
      assert ChargedPods(b, pods, 0) == if Charges(b, pods[0]) then {0} else {};
      assert Charged(b, pods, 0) == 0;
    } else {
      ChargedIsCount(b, pods, k - 1);
      var before := ChargedPods(b, pods, k - 1);
      assert ChargedPods(b, pods, k) == if Charges(b, pods[k]) then before + {k} else before;
    }
  }

  /**
    A pod is in the violating group exactly when some budget is charged for it and for more pods
    up to and including it than it allows.
   */
  lemma ViolatingIff(budgets: seq<Budget>, pods: seq<PodInfo>, k: nat)
    requires k < |pods| && DistinctUids(pods)
    ensures pods[k] in Group(budgets, pods, |pods|, true) <==>
      exists i :: 0 <= i < |budgets| && Charges(budgets[i], pods[k]) && |ChargedPods(budgets[i], pods, k)| > budgets[i].allowed
    ensures pods[k] in Group(budgets, pods, |pods|, false) <==> pods[k] !in Group(budgets, pods, |pods|, true)
  {
    hide Group;
    forall i | 0 <= i < |budgets|
      ensures Charged(budgets[i], pods, k + 1) == |ChargedPods(budgets[i], pods, k)|
    {
      ChargedIsCount(budgets[i], pods, k);
    }
    var v := Violates(budgets, pods, k);
    GroupStable(budgets, pods, k, |pods|);
    GroupsApart(budgets, pods, |pods|);
    assert pods[k] in Group(budgets, pods, |pods|, v);
    var mine, other := Group(budgets, pods, |pods|, v), Group(budgets, pods, |pods|, !v);
    assert pods[k] !in other;
  }

  /**
    Whom a budget protects: a single pod violates it exactly when nothing is allowed any more, and the pod is in the budget's
    namespace, has labels that the selector, which must name some, demands, and is not already being disrupted.
   */
  lemma SinglePodViolates(b: Budget, p: PodInfo)
    ensures Group([b], [p], 1, true) == [p] <==>
      && b.allowed <= 0 && b.namespace == p.namespace && p.name !in b.disrupted && p.labels != map[]
      && b.selector.MatchLabels? && b.selector.required != map[]
      && forall key :: key in b.selector.required ==> key in p.labels && p.labels[key] == b.selector.required[key]
  {
    var pods, budgets := [p], [b];
    assert pods[0] == p && budgets[0] == b;
    assert Charged(b, pods, 0) == 0;
    assert Charged(b, pods, 1) == if Charges(b, p) then 1 else 0;
    assert Violates(budgets, pods, 0) <==> Charges(b, p) && b.allowed <= 0;
    assert Group(budgets, pods, 0, true) == [];
    assert Group(budgets, pods, 1, true) == if Violates(budgets, pods, 0) then [] + [p] else [];
  }

  /** The loop over the pods, with the remaining allowance of every budget counted down in place. */
  method FilterPodsWithPdbViolation(pods: seq<PodInfo>, budgets: seq<Budget>)
    returns (violating: seq<PodInfo>, spare: seq<PodInfo>)
    ensures violating == Group(budgets, pods, |pods|, true)
    ensures spare == Group(budgets, pods, |pods|, false)
  {
    var allowed := new int[|budgets|](i requires 0 <= i < |budgets| => budgets[i].allowed);
    violating, spare := [], [];
    for k := 0 to |pods|
      invariant violating == Group(budgets, pods, k, true) && spare == Group(budgets, pods, k, false)
      invariant forall i :: 0 <= i < |budgets| ==> allowed[i] == budgets[i].allowed - Charged(budgets[i], pods, k)
    {
      var violated := false;
      if pods[k].labels != map[] {
        for i := 0 to |budgets|
          invariant forall j :: i <= j < |budgets| ==> allowed[j] == budgets[j].allowed - Charged(budgets[j], pods, k)
          invariant forall j :: 0 <= j < i ==> allowed[j] == budgets[j].allowed - Charged(budgets[j], pods, k + 1)
          invariant violated <==> exists j :: 0 <= j < i && Charges(budgets[j], pods[k]) && Charged(budgets[j], pods, k + 1) > budgets[j].allowed
        {
          if Charges(budgets[i], pods[k]) {
            allowed[i] := allowed[i] - 1;
            if allowed[i] < 0 {
              violated := true;
            }
          }
        }
      }
      if violated {
        violating := violating + [pods[k]];
      } else {
        spare := spare + [pods[k]];
      }
    }
  }
}
