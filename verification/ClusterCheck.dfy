/** The capacity check that a pod group passes before its pods are scheduled. */
module ClusterCheck {
  import opened Options
  import opened Listings

  const CPU := "cpu"
  const MEMORY := "memory"
  const EPHEMERAL := "ephemeral-storage"
  const PODS := "pods"

  type Amounts = map<string, int>

  function Amount(m: Amounts, name: string): int { if name in m then m[name] else 0 }

  datatype Pod = Pod(group: string, request: Amounts)

  /** A node of the snapshot; `allocatable` holds the number of pods under "pods". */
  datatype Node = Node(allocatable: Amounts, pods: seq<Pod>)

  // ---------------------------------------------------------------------------
  // What a node has left outside the group

  function Requested(pods: seq<Pod>, name: string): int {
    if pods == [] then 0 else Requested(pods[..|pods| - 1], name) + Amount(pods[|pods| - 1].request, name)
  }

  function Outside(pods: seq<Pod>, group: string): seq<Pod> {
    if pods == [] then []
    else
      var rest, last := Outside(pods[..|pods| - 1], group), pods[|pods| - 1];
      if last.group == group then rest else rest + [last]
  }

  /** A scalar that the node does not offer counts as zero, whatever its pods ask for. */
  function Left(node: Node, group: string, name: string): int {
    var outside := Outside(node.pods, group);
    if name == PODS then Amount(node.allocatable, PODS) - |outside|
    else if name in {CPU, MEMORY, EPHEMERAL} || name in node.allocatable
    then Amount(node.allocatable, name) - Requested(outside, name)
    else 0
  }

  /** An empty node has left what it offers. */
  lemma EmptyNodeLeft(offers: Amounts, group: string, name: string)
    ensures Left(Node(offers, []), group, name) == if name in offers then offers[name] else 0
  {
  }

  /**
    One more pod: one of the group is not noticed at all; any other takes its request of every resource that the node
    offers, or that is one of the standard ones, and one of the places.
   */
  lemma OneMorePod(node: Node, p: Pod, group: string, name: string)
    ensures Left(Node(node.allocatable, node.pods + [p]), group, name) == Left(node, group, name) -
      if p.group == group then 0
      else if name == "pods" then 1
      else if name in node.allocatable || name == "cpu" || name == "memory" || name == "ephemeral-storage" then
        if name in p.request then p.request[name] else 0
      else 0
  {
    var pods, before := node.pods + [p], Outside(node.pods, group);
    assert pods[..|node.pods|] == node.pods;
    assert (before + [p])[..|before|] == before;
  }

  /** Taking the group's pods off a clone of the node, one by one, leaves what the others ask for. */
  method RequestedOutside(node: Node, group: string, name: string) returns (requested: int, count: int)
    ensures requested == Requested(Outside(node.pods, group), name)
    ensures count == |Outside(node.pods, group)|
  {
    requested := NodeRequested(node, name);
    count := |node.pods|;
    ghost var n := |node.pods|;
    assert node.pods[..0] == [] && node.pods[..n] == node.pods;
    for i := 0 to |node.pods|
      invariant requested == Requested(node.pods, name) - Requested(node.pods[..i], name) + Requested(Outside(node.pods[..i], group), name)
      invariant count == n - i + |Outside(node.pods[..i], group)|
    {
      assert node.pods[..i + 1][..i] == node.pods[..i];
      OutsideStep(node.pods, group, name, i);
      if node.pods[i].group == group {
        requested := requested - Amount(node.pods[i].request, name);
        count := count - 1;
      }
    }
  }

  lemma OutsideStep(pods: seq<Pod>, group: string, name: string, i: nat)
    requires i < |pods|
    ensures Requested(pods[..i + 1], name) == Requested(pods[..i], name) + Amount(pods[i].request, name)
    ensures var before, after := Outside(pods[..i], group), Outside(pods[..i + 1], group);
            if pods[i].group == group then after == before
            else |after| == |before| + 1 && Requested(after, name) == Requested(before, name) + Amount(pods[i].request, name)
  {
    assert pods[..i + 1][..i] == pods[..i];
    var before := Outside(pods[..i], group);
    assert (before + [pods[i]])[..|before|] == before;
  }

  /** The node's own books: the requests of all its pods. */
  method NodeRequested(node: Node, name: string) returns (requested: int)
    ensures requested == Requested(node.pods, name)
  {
    requested := 0;
    for i := 0 to |node.pods|
      invariant requested == Requested(node.pods[..i], name)
    {
      assert node.pods[..i + 1][..i] == node.pods[..i];
      requested := requested + Amount(node.pods[i].request, name);
    }
    assert node.pods[..|node.pods|] == node.pods;
  }

  method GetNodeResource(node: Node, group: string, name: string) returns (left: int)
    ensures left == Left(node, group, name)
  {
    var requested, count := RequestedOutside(node, group, name);
    if name == PODS {
      return Amount(node.allocatable, PODS) - count;
    }
    if name in {CPU, MEMORY, EPHEMERAL} || name in node.allocatable {
      return Amount(node.allocatable, name) - requested;
    }
    return 0;
  }

  // ---------------------------------------------------------------------------
  // The check

  function LeftOf(node: Option<Node>, group: string, name: string): int {
    if node.Some? then Left(node.value, group, name) else 0
  }

  /** Leftover of the first `k` nodes; a missing node is skipped. */
  function LeftSum(nodes: seq<Option<Node>>, group: string, name: string, k: nat): int
    requires k <= |nodes|
  {
    if k == 0 then 0 else LeftSum(nodes, group, name, k - 1) + LeftOf(nodes[k - 1], group, name)
  }

  /** Some prefix, ending in a node that is there, has enough. */
  ghost predicate Met(nodes: seq<Option<Node>>, group: string, name: string, quantity: int, k: nat)
    requires k <= |nodes|
  {
    exists j :: 0 <= j < k && nodes[j].Some? && quantity <= LeftSum(nodes, group, name, j + 1)
  }

  ghost predicate SomeNode(nodes: seq<Option<Node>>, k: nat)
    requires k <= |nodes|
  {
    exists j :: 0 <= j < k && nodes[j].Some?
  }

  /** The check accepts when every named resource is met by some prefix; each may be met by a different one. */
  ghost predicate Accepts(nodes: seq<Option<Node>>, request: Amounts, group: string) {
    SomeNode(nodes, |nodes|) && forall name :: name in request ==> Met(nodes, group, name, request[name], |nodes|)
  }

  /** What is still wanted after `k` nodes. */
  ghost predicate Gap(nodes: seq<Option<Node>>, request: Amounts, group: string, k: nat, gap: Amounts)
    requires k <= |nodes|
  {
    && (forall name :: name in gap <==> name in request && !Met(nodes, group, name, request[name], k))
    && (forall name :: name in gap ==> gap[name] == request[name] - LeftSum(nodes, group, name, k))
  }

  lemma MetStep(nodes: seq<Option<Node>>, group: string, name: string, quantity: int, k: nat)
    requires k < |nodes|
    ensures Met(nodes, group, name, quantity, k + 1) <==>
            Met(nodes, group, name, quantity, k) || (nodes[k].Some? && quantity <= LeftSum(nodes, group, name, k + 1))
  {
  }

  lemma {:induction false} MetStays(nodes: seq<Option<Node>>, group: string, name: string, quantity: int, k: nat)
    requires k <= |nodes| && Met(nodes, group, name, quantity, k)
    ensures Met(nodes, group, name, quantity, |nodes|)
  {
    var j :| 0 <= j < k && nodes[j].Some? && quantity <= LeftSum(nodes, group, name, j + 1);
  }

  /** One node: what it has left is taken off the request in place, and what is met is deleted. */
  method TakeOff(node: Node, group: string, request: Amounts) returns (gap: Amounts)
    ensures forall name :: name in gap <==> name in request && request[name] > Left(node, group, name)
    ensures forall name :: name in gap ==> gap[name] == request[name] - Left(node, group, name)
  {
    gap := request;
    var rest := request.Keys;
    while rest != {}
      invariant rest <= request.Keys
      invariant forall name :: name in gap <==> name in request && (name in rest || request[name] > Left(node, group, name))
      invariant forall name :: name in gap ==> gap[name] == if name in rest then request[name] else request[name] - Left(node, group, name)
      decreases rest
    {
      var name :| name in rest;
      rest := rest - {name};
      var left := GetNodeResource(node, group, name);
      if request[name] - left <= 0 {
        gap := gap - {name};
      } else {
        gap := gap[name := request[name] - left];
      }
    }
  }

  method CheckClusterResource(nodes: seq<Option<Node>>, request: Amounts, group: string) returns (ok: bool, gap: Amounts)
    ensures ok <==> Accepts(nodes, request, group)
    ensures !ok ==> Gap(nodes, request, group, |nodes|, gap)
  {
    gap := request;
    for k := 0 to |nodes|
      invariant Gap(nodes, request, group, k, gap)
      invariant SomeNode(nodes, k) ==> gap != map[]
    {
      forall name
        ensures name in request ==> (Met(nodes, group, name, request[name], k + 1) <==>
          Met(nodes, group, name, request[name], k) || (nodes[k].Some? && request[name] <= LeftSum(nodes, group, name, k + 1)))
      {
        if name in request {
          MetStep(nodes, group, name, request[name], k);
        }
      }
      if nodes[k].None? {
        continue;
      }
      gap := TakeOff(nodes[k].value, group, gap);
      if gap == map[] {
        forall name | name in request
          ensures Met(nodes, group, name, request[name], |nodes|)
        {
          assert name !in gap;
          MetStays(nodes, group, name, request[name], k + 1);
        }
        assert SomeNode(nodes, |nodes|);
        return true, gap;
      }
    }
    if SomeNode(nodes, |nodes|) {
      var name :| name in gap;
      assert !Met(nodes, group, name, request[name], |nodes|);
    }
    return false, gap;
  }

  // ---------------------------------------------------------------------------
  // Against the cluster's totals

  ghost predicate NothingOvercommitted(nodes: seq<Option<Node>>, group: string, name: string) {
    forall i :: 0 <= i < |nodes| ==> LeftOf(nodes[i], group, name) >= 0
  }

  lemma {:induction false} LeftSumGrows(nodes: seq<Option<Node>>, group: string, name: string, j: nat, k: nat)
    requires j <= k <= |nodes| && NothingOvercommitted(nodes, group, name)
    ensures LeftSum(nodes, group, name, j) <= LeftSum(nodes, group, name, k)
    decreases k
  {
    if j < k {
      LeftSumGrows(nodes, group, name, j, k - 1);
    }
  }

  /** When no node is overcommitted outside the group, the check compares the request with the cluster's total leftover. */
  lemma AcceptsByTotals(nodes: seq<Option<Node>>, request: Amounts, group: string)
    requires SomeNode(nodes, |nodes|)
    requires forall name :: name in request ==> NothingOvercommitted(nodes, group, name)
    ensures Accepts(nodes, request, group) <==>
            forall name :: name in request ==> request[name] <= LeftSum(nodes, group, name, |nodes|)
  {
    forall name | name in request
      ensures Met(nodes, group, name, request[name], |nodes|) <==> request[name] <= LeftSum(nodes, group, name, |nodes|)
    {
      MetByTotal(nodes, group, name, request[name]);
    }
  }

  lemma MetByTotal(nodes: seq<Option<Node>>, group: string, name: string, quantity: int)
    requires SomeNode(nodes, |nodes|) && NothingOvercommitted(nodes, group, name)
    ensures Met(nodes, group, name, quantity, |nodes|) <==> quantity <= LeftSum(nodes, group, name, |nodes|)
  {
    if Met(nodes, group, name, quantity, |nodes|) {
      var j :| 0 <= j < |nodes| && nodes[j].Some? && quantity <= LeftSum(nodes, group, name, j + 1);
      LeftSumGrows(nodes, group, name, j + 1, |nodes|);
    }
    if quantity <= LeftSum(nodes, group, name, |nodes|) {
      var j := LastNode(nodes, group, name, |nodes|);
      assert quantity <= LeftSum(nodes, group, name, j + 1);
    }
  }

  /** Missing nodes at the end add nothing. */
  lemma {:induction false} LastNode(nodes: seq<Option<Node>>, group: string, name: string, k: nat) returns (j: nat)
    requires k <= |nodes| && SomeNode(nodes, k)
    ensures j < k && nodes[j].Some? && LeftSum(nodes, group, name, j + 1) == LeftSum(nodes, group, name, k)
  {
    if nodes[k - 1].Some? {
      j := k - 1;
    } else {
      j := LastNode(nodes, group, name, k - 1);
    }
  }

  lemma {:induction false} LeftSumPrefix(p: seq<Option<Node>>, q: seq<Option<Node>>, group: string, name: string, k: nat)
    requires k <= |p| && k <= |q| && p[..k] == q[..k]
    ensures LeftSum(p, group, name, k) == LeftSum(q, group, name, k)
  {
    if k > 0 {
      assert p[..k - 1] == p[..k][..k - 1] && q[..k - 1] == q[..k][..k - 1];
      assert p[k - 1] == p[..k][k - 1] && q[k - 1] == q[..k][k - 1];
      LeftSumPrefix(p, q, group, name, k - 1);
    }
  }

  lemma {:induction false} LeftSumWithout(nodes: seq<Option<Node>>, group: string, name: string, k: nat)
    requires k < |nodes|
    ensures LeftSum(nodes, group, name, |nodes|) ==
            LeftSum(Without(nodes, k), group, name, |nodes| - 1) + LeftOf(nodes[k], group, name)
    decreases |nodes|
  {
    hide LeftOf;
    var last := |nodes| - 1;
    var init := nodes[..last];
    LeftSumPrefix(nodes, init, group, name, last);
    if k == last {
      assert Without(nodes, k) == init;
    } else {
      LeftSumWithout(init, group, name, k);
      WithoutInit(nodes, k);
      LeftSumPrefix(Without(nodes, k), Without(init, k), group, name, last - 1);
    }
  }

  lemma {:induction false} LeftSumUnordered(p: seq<Option<Node>>, q: seq<Option<Node>>, group: string, name: string)
    requires multiset(p) == multiset(q)
    ensures |p| == |q| && LeftSum(p, group, name, |p|) == LeftSum(q, group, name, |q|)
    decreases |p|
  {
    assert |p| == |multiset(p)| == |multiset(q)| == |q|;
    if p != [] {
      var last := |p| - 1;
      assert p[last] in multiset(q);
      var k :| 0 <= k < |q| && q[k] == p[last];
      MatchRemoved(p, q, k);
      LeftSumUnordered(p[..last], Without(q, k), group, name);
      LeftSumWithout(q, group, name, k);
      LeftSumPrefix(p, p[..last], group, name, last);
    }
  }

  /** ... and then the answer does not depend on the order in which the nodes are listed. */
  lemma AcceptsUnordered(p: seq<Option<Node>>, q: seq<Option<Node>>, request: Amounts, group: string)
    requires multiset(p) == multiset(q) && SomeNode(p, |p|)
    requires forall name :: name in request ==> NothingOvercommitted(p, group, name)
    ensures Accepts(p, request, group) <==> Accepts(q, request, group)
  {
    forall i | 0 <= i < |q|
      ensures q[i] in p
    {
      assert q[i] in multiset(p);
    }
    SomeNodeUnordered(p, q);
    forall name | name in request
      ensures NothingOvercommitted(q, group, name)
      ensures LeftSum(p, group, name, |p|) == LeftSum(q, group, name, |q|)
    {
      LeftSumUnordered(p, q, group, name);
    }
    AcceptsByTotals(p, request, group);
    AcceptsByTotals(q, request, group);
  }

  // ---------------------------------------------------------------------------
  // Overcommitted nodes: every order against some order

  /** The nodes that are overcommitted outside the group, or those that are not, in order. */
  function Select(nodes: seq<Option<Node>>, group: string, name: string, overcommitted: bool): seq<Option<Node>> {
    if nodes == [] then []
    else
      var rest, last := Select(nodes[..|nodes| - 1], group, name, overcommitted), nodes[|nodes| - 1];
      if (LeftOf(last, group, name) < 0) == overcommitted then rest + [last] else rest
  }

  /** What the nodes that are not overcommitted have left together. */
  function PositiveSum(nodes: seq<Option<Node>>, group: string, name: string): int {
    var some := Select(nodes, group, name, false);
    LeftSum(some, group, name, |some|)
  }

  lemma {:induction false} SelectParts(nodes: seq<Option<Node>>, group: string, name: string)
    ensures multiset(Select(nodes, group, name, true)) + multiset(Select(nodes, group, name, false)) == multiset(nodes)
  {
    hide LeftOf;
    if nodes != [] {
      var rest, last := nodes[..|nodes| - 1], nodes[|nodes| - 1];
      SelectParts(rest, group, name);
      assert nodes == rest + [last];
      assert multiset(nodes) == multiset(rest) + multiset{last};
    }
  }

  lemma {:induction false} SelectMembers(nodes: seq<Option<Node>>, group: string, name: string, overcommitted: bool)
    ensures forall x :: x in Select(nodes, group, name, overcommitted) ==> (LeftOf(x, group, name) < 0) == overcommitted
  {
    hide LeftOf;
    if nodes != [] {
      SelectMembers(nodes[..|nodes| - 1], group, name, overcommitted);
    }
  }

  lemma {:induction false} SelectCounts(nodes: seq<Option<Node>>, group: string, name: string, x: Option<Node>)
    ensures multiset(Select(nodes, group, name, false))[x] == if LeftOf(x, group, name) < 0 then 0 else multiset(nodes)[x]
  {
    if nodes != [] {
      var rest, last := nodes[..|nodes| - 1], nodes[|nodes| - 1];
      SelectCounts(rest, group, name, x);
      assert nodes == rest + [last];
    }
  }

  lemma PositiveSumUnordered(p: seq<Option<Node>>, q: seq<Option<Node>>, group: string, name: string)
    requires multiset(p) == multiset(q)
    ensures PositiveSum(p, group, name) == PositiveSum(q, group, name)
  {
    var some, others := Select(p, group, name, false), Select(q, group, name, false);
    forall x
      ensures multiset(some)[x] == multiset(others)[x]
    {
      SelectCounts(p, group, name, x);
      SelectCounts(q, group, name, x);
    }
    assert multiset(some) == multiset(others);
    LeftSumUnordered(some, others, group, name);
  }

  /** No prefix has more left than the nodes that are not overcommitted. */
  lemma {:induction false} PrefixWithinPositive(nodes: seq<Option<Node>>, group: string, name: string, k: nat)
    requires k <= |nodes|
    ensures LeftSum(nodes, group, name, k) <= PositiveSum(nodes[..k], group, name) <= PositiveSum(nodes, group, name)
    decreases |nodes|, k
  {
    if k < |nodes| {
      var rest := nodes[..|nodes| - 1];
      PrefixWithinPositive(rest, group, name, k);
      LeftSumPrefix(nodes, rest, group, name, k);
      assert rest[..k] == nodes[..k];
      PositiveSumNext(nodes, group, name);
    } else {
      assert nodes[..k] == nodes;
      if k > 0 {
        var rest := nodes[..k - 1];
        PrefixWithinPositive(rest, group, name, k - 1);
        assert rest[..k - 1] == rest;
        LeftSumPrefix(nodes, rest, group, name, k - 1);
        PositiveSumNext(nodes, group, name);
      }
    }
  }

  lemma PositiveSumNext(nodes: seq<Option<Node>>, group: string, name: string)
    requires nodes != []
    ensures var left := LeftOf(nodes[|nodes| - 1], group, name);
            PositiveSum(nodes, group, name) == PositiveSum(nodes[..|nodes| - 1], group, name) + if left < 0 then 0 else left
  {
    var rest := Select(nodes[..|nodes| - 1], group, name, false);
    LeftSumPrefix(rest, rest + [nodes[|nodes| - 1]], group, name, |rest|);
  }

  /** With the overcommitted nodes first, a prefix has less than nothing left or no more than the whole. */
  lemma {:induction false} OvercommittedFirst(first: seq<Option<Node>>, second: seq<Option<Node>>, group: string, name: string, k: nat)
    requires forall x :: x in first ==> LeftOf(x, group, name) < 0
    requires forall x :: x in second ==> LeftOf(x, group, name) >= 0
    requires 0 < k <= |first + second|
    ensures var sum := LeftSum(first + second, group, name, k);
            sum < 0 || sum <= LeftSum(first + second, group, name, |first + second|)
    decreases |first + second| - k
  {
    var all := first + second;
    if k <= |first| {
      NegativePrefix(first, second, group, name, k);
    } else if |first| < k < |all| {
      OvercommittedFirst(first, second, group, name, k + 1);
      assert all[k] == second[k - |first|] && second[k - |first|] in second;
    }
  }

  lemma {:induction false} NegativePrefix(first: seq<Option<Node>>, second: seq<Option<Node>>, group: string, name: string, k: nat)
    requires forall x :: x in first ==> LeftOf(x, group, name) < 0
    requires k <= |first|
    ensures LeftSum(first + second, group, name, k) <= 0 - k
  {
    if k > 0 {
      NegativePrefix(first, second, group, name, k - 1);
      assert (first + second)[k - 1] == first[k - 1] && first[k - 1] in first;
    }
  }

  lemma SomeNodeUnordered(p: seq<Option<Node>>, q: seq<Option<Node>>)
    requires multiset(p) == multiset(q) && SomeNode(p, |p|)
    ensures SomeNode(q, |q|)
  {
    var j :| 0 <= j < |p| && p[j].Some?;
    assert p[j] in multiset(q);
    var k :| 0 <= k < |q| && q[k] == p[j];
  }

  ghost predicate MetInEveryOrder(nodes: seq<Option<Node>>, group: string, name: string, quantity: int) {
    forall r: seq<Option<Node>> :: multiset(r) == multiset(nodes) ==> Met(r, group, name, quantity, |r|)
  }

  ghost predicate MetInSomeOrder(nodes: seq<Option<Node>>, group: string, name: string, quantity: int) {
    exists r: seq<Option<Node>> :: multiset(r) == multiset(nodes) && Met(r, group, name, quantity, |r|)
  }

  /** Whatever order the nodes are listed in, the quantity is met: exactly when it is within the cluster's total leftover. */
  lemma MetInEveryOrderIff(nodes: seq<Option<Node>>, group: string, name: string, quantity: int)
    requires quantity >= 0 && SomeNode(nodes, |nodes|)
    ensures MetInEveryOrder(nodes, group, name, quantity) <==> quantity <= LeftSum(nodes, group, name, |nodes|)
  {
    if quantity <= LeftSum(nodes, group, name, |nodes|) {
      forall r: seq<Option<Node>> | multiset(r) == multiset(nodes)
        ensures Met(r, group, name, quantity, |r|)
      {
        LeftSumUnordered(nodes, r, group, name);
        SomeNodeUnordered(nodes, r);
        var j := LastNode(r, group, name, |r|);
        assert quantity <= LeftSum(r, group, name, j + 1);
      }
    } else {
      var bad := WorstOrder(nodes, group, name, quantity);
      assert !Met(bad, group, name, quantity, |bad|);
    }
  }

  lemma WorstOrder(nodes: seq<Option<Node>>, group: string, name: string, quantity: int) returns (bad: seq<Option<Node>>)
    requires quantity >= 0 && quantity > LeftSum(nodes, group, name, |nodes|)
    ensures multiset(bad) == multiset(nodes) && !Met(bad, group, name, quantity, |bad|)
  {
    var first, second := Select(nodes, group, name, true), Select(nodes, group, name, false);
    SelectParts(nodes, group, name);
    SelectMembers(nodes, group, name, true);
    SelectMembers(nodes, group, name, false);
    bad := first + second;
    LeftSumUnordered(nodes, bad, group, name);
    forall k | 1 <= k <= |bad|
      ensures LeftSum(bad, group, name, k) < quantity
    {
      OvercommittedFirst(first, second, group, name, k);
    }
  }

  /** Some order meets the quantity exactly when it is within what the nodes that are not overcommitted have left. */
  lemma MetInSomeOrderIff(nodes: seq<Option<Node>>, group: string, name: string, quantity: int)
    requires quantity > 0
    ensures MetInSomeOrder(nodes, group, name, quantity) <==> quantity <= PositiveSum(nodes, group, name)
  {
    hide LeftSum, PositiveSum;
    if r: seq<Option<Node>> :| multiset(r) == multiset(nodes) && Met(r, group, name, quantity, |r|) {
      var j :| 0 <= j < |r| && r[j].Some? && quantity <= LeftSum(r, group, name, j + 1);
      PrefixWithinPositive(r, group, name, j + 1);
      PositiveSumUnordered(r, nodes, group, name);
    }
    if quantity <= PositiveSum(nodes, group, name) {
      var good := BestOrder(nodes, group, name, quantity);
    }
  }

  lemma BestOrder(nodes: seq<Option<Node>>, group: string, name: string, quantity: int) returns (good: seq<Option<Node>>)
    requires 0 < quantity <= PositiveSum(nodes, group, name)
    ensures multiset(good) == multiset(nodes) && Met(good, group, name, quantity, |good|)
  {
    hide LeftSum, Select, LeftOf;
    var first, second := Select(nodes, group, name, false), Select(nodes, group, name, true);
    SelectParts(nodes, group, name);
    good := first + second;
    LeftSumPrefix(first, good, group, name, |first|);
    NothingWithoutNodes(good, group, name, |first|);
    var j := LastNode(good, group, name, |first|);
    assert quantity <= LeftSum(good, group, name, j + 1);
  }

  lemma {:induction false} NothingWithoutNodes(nodes: seq<Option<Node>>, group: string, name: string, k: nat)
    requires k <= |nodes|
    ensures SomeNode(nodes, k) || LeftSum(nodes, group, name, k) == 0
  {
    if k > 0 {
      NothingWithoutNodes(nodes, group, name, k - 1);
      if !SomeNode(nodes, k) {
        assert nodes[k - 1].None?;
      }
    }
  }

  /**
    The check of a group's request accepts in whatever order the nodes are listed exactly when
    every named quantity is within the cluster's total leftover outside the group.
   */
  lemma AcceptsInEveryOrderIff(nodes: seq<Option<Node>>, request: Amounts, group: string)
    requires SomeNode(nodes, |nodes|) && forall name :: name in request ==> request[name] >= 0
    ensures (forall r: seq<Option<Node>> :: multiset(r) == multiset(nodes) ==> Accepts(r, request, group))
            <==> forall name :: name in request ==> request[name] <= LeftSum(nodes, group, name, |nodes|)
  {
    if forall name :: name in request ==> request[name] <= LeftSum(nodes, group, name, |nodes|) {
      forall r: seq<Option<Node>> | multiset(r) == multiset(nodes)
        ensures Accepts(r, request, group)
      {
        SomeNodeUnordered(nodes, r);
        forall name | name in request
          ensures Met(r, group, name, request[name], |r|)
        {
          MetInEveryOrderIff(nodes, group, name, request[name]);
        }
      }
    } else {
      var name :| name in request && request[name] > LeftSum(nodes, group, name, |nodes|);
      var bad := WorstOrder(nodes, group, name, request[name]);
      assert !Accepts(bad, request, group);
    }
  }

  /** With an overcommitted node the order does matter: the same two nodes accept one way round only. */
  lemma OrderMattersWhenOvercommitted()
    ensures var full := Some(Node(map[CPU := 1], [Pod("", map[CPU := 3])]));
            var free := Some(Node(map[CPU := 2], []));
            Accepts([free, full], map[CPU := 2], "g") && !Accepts([full, free], map[CPU := 2], "g")
  {
    var busy := Pod("", map[CPU := 3]);
    var full := Some(Node(map[CPU := 1], [busy]));
    var free := Some(Node(map[CPU := 2], []));
    assert [busy][..0] == [];
    assert Outside([busy], "g") == [] + [busy] == [busy];
    assert Requested([busy], CPU) == Requested([busy][..0], CPU) + 3;
    assert LeftOf(full, "g", CPU) == -2 && LeftOf(free, "g", CPU) == 2;
    var good, bad := [free, full], [full, free];
    assert LeftSum(good, "g", CPU, 1) == LeftSum(good, "g", CPU, 0) + 2;
    assert LeftSum(bad, "g", CPU, 1) == LeftSum(bad, "g", CPU, 0) - 2;
    assert LeftSum(bad, "g", CPU, 2) == LeftSum(bad, "g", CPU, 1) + 2;
    assert good[0].Some? && Met(good, "g", CPU, 2, 2);
    assert SomeNode(good, 2);
    assert !Met(bad, "g", CPU, 2, 2);
  }
}
