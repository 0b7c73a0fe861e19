/** Victim selection of the PreemptionToleration plugin. */
module Toleration {
  import opened Pods
  import opened NodeInfos
  import opened Disruption
  import Reprieve

  /** A policy annotation of a priority class after parsing. */
  datatype Setting = Unset | Malformed | Value(n: int)

  datatype PriorityClass = PriorityClass(value: int, minimumPreemptable: Setting, tolerationSeconds: Setting)

  datatype Exemption = LookupFailed | Exempt | Preemptable

  function ExemptedFromPreemption(victim: PodInfo, preemptor: PodInfo, classes: map<string, PriorityClass>, now: int): Exemption {
    if victim.priorityClass == "" then Preemptable
    else if victim.priorityClass !in classes then LookupFailed
    else if preemptor.neverPreempts then Exempt
    else
      var c := classes[victim.priorityClass];
      if c.minimumPreemptable.Malformed? || c.tolerationSeconds.Malformed? then Preemptable
      else
        var minimum := if c.minimumPreemptable.Unset? then c.value + 1 else c.minimumPreemptable.n;
        var seconds := if c.tolerationSeconds.Unset? then 0 else c.tolerationSeconds.n;
        if preemptor.priority >= minimum then Preemptable
        else if seconds < 0 then Exempt
        else if victim.scheduledAt.None? then Exempt
        else if victim.scheduledAt.value + seconds > now then Exempt
        else Preemptable
  }

  /**
    A class without annotations tolerates nothing: a lower-priority pod of such a class is exempt
    only from a preemptor that never preempts.
   */
  lemma PlainClassNotExempt(victim: PodInfo, preemptor: PodInfo, classes: map<string, PriorityClass>, now: int)
    requires victim.priorityClass in classes && victim.priorityClass != ""
    requires classes[victim.priorityClass] == PriorityClass(victim.priority, Unset, Unset)
    requires victim.priority < preemptor.priority
    ensures ExemptedFromPreemption(victim, preemptor, classes, now) == Exempt <==> preemptor.neverPreempts
  {
  }

  /** An exemption, once lost to the clock, does not come back as time goes on. */
  lemma ExemptionExpires(victim: PodInfo, preemptor: PodInfo, classes: map<string, PriorityClass>, now: int, later: int)
    requires now <= later
    requires ExemptedFromPreemption(victim, preemptor, classes, now) == Preemptable
    ensures ExemptedFromPreemption(victim, preemptor, classes, later) == Preemptable
  {
  }

  predicate Candidate(p: PodInfo, preemptor: PodInfo, classes: map<string, PriorityClass>, now: int) {
    p.priority < preemptor.priority && ExemptedFromPreemption(p, preemptor, classes, now) == Preemptable
  }

  predicate Unresolvable(p: PodInfo, preemptor: PodInfo, classes: map<string, PriorityClass>, now: int) {
    p.priority < preemptor.priority && ExemptedFromPreemption(p, preemptor, classes, now) == LookupFailed
  }

  /** An error ends the selection: the pod's class is missing, or the pod is to be removed and has no uid. */
  predicate Refused(p: PodInfo, preemptor: PodInfo, classes: map<string, PriorityClass>, now: int) {
    Unresolvable(p, preemptor, classes, now) || (Candidate(p, preemptor, classes, now) && p.uid == "")
  }

  /** The candidates among the first `n` pods, in the node's order. */
  function Candidates(pods: seq<PodInfo>, preemptor: PodInfo, classes: map<string, PriorityClass>, now: int, n: nat): seq<PodInfo>
    requires n <= |pods|
  {
    if n == 0 then []
    else
      var before := Candidates(pods, preemptor, classes, now, n - 1);
      if Candidate(pods[n - 1], preemptor, classes, now) then before + [pods[n - 1]] else before
  }

  lemma {:induction false} CandidatesAre(pods: seq<PodInfo>, preemptor: PodInfo, classes: map<string, PriorityClass>, now: int, n: nat)
    requires n <= |pods| && DistinctUids(pods)
    ensures var c := Candidates(pods, preemptor, classes, now, n);
            DistinctUids(c) && forall p :: p in c <==> p in pods[..n] && Candidate(p, preemptor, classes, now)
  {
    if n > 0 {
      CandidatesAre(pods, preemptor, classes, now, n - 1);
      assert pods[..n] == pods[..n - 1] + [pods[n - 1]];
      var c := Candidates(pods, preemptor, classes, now, n - 1);
      forall i | 0 <= i < |c|
        ensures c[i].uid != pods[n - 1].uid
      {
        assert c[i] in c && c[i] in pods[..n - 1];
      }
    }
  }

  /** The class's policy after parsing: the least priority that may preempt, and how long others are tolerated; a setting that is not given defaults. */
  ghost predicate Policy(c: PriorityClass, minimum: int, seconds: int) {
    && (c.minimumPreemptable == Value(minimum) || (c.minimumPreemptable == Unset && minimum == c.value + 1))
    && (c.tolerationSeconds == Value(seconds) || (c.tolerationSeconds == Unset && seconds == 0))
  }

  /** With a preemptor that preempts, the policy of its class decides whether a lower-priority pod is a candidate, and from when. */
  lemma PolicyDecides(pods: seq<PodInfo>, p: PodInfo, preemptor: PodInfo, classes: map<string, PriorityClass>, now: int, minimum: int, seconds: int)
    requires DistinctUids(pods) && p in pods && p.priority < preemptor.priority && !preemptor.neverPreempts
    requires p.priorityClass != "" && p.priorityClass in classes && Policy(classes[p.priorityClass], minimum, seconds)
    ensures p in Candidates(pods, preemptor, classes, now, |pods|) <==>
      minimum <= preemptor.priority || (seconds >= 0 && p.scheduledAt.Some? && p.scheduledAt.value + seconds <= now)
  {
    CandidatesAre(pods, preemptor, classes, now, |pods|);
    assert pods[..|pods|] == pods;
  }

  /**
    The pod stays out of the preemptor's reach: it has no lower priority, or its class tolerates this
    preemptor at this moment, or the preemptor never preempts pods that have a class.
   */
  ghost predicate Protected(p: PodInfo, preemptor: PodInfo, classes: map<string, PriorityClass>, now: int) {
    || p.priority >= preemptor.priority
    || (p.priorityClass != "" && p.priorityClass in classes &&
          (preemptor.neverPreempts || ToleratesNow(p, classes[p.priorityClass], preemptor.priority, now)))
  }

  ghost predicate ToleratesNow(p: PodInfo, c: PriorityClass, priority: int, now: int) {
    exists minimum, seconds :: Policy(c, minimum, seconds) && priority < minimum
      && (seconds < 0 || p.scheduledAt.None? || now < p.scheduledAt.value + seconds)
  }

  /** Its class is missing. */
  ghost predicate Classless(p: PodInfo, classes: map<string, PriorityClass>) {
    p.priorityClass != "" && p.priorityClass !in classes
  }

  lemma CandidateIff(p: PodInfo, preemptor: PodInfo, classes: map<string, PriorityClass>, now: int)
    ensures Candidate(p, preemptor, classes, now) <==>
            !Protected(p, preemptor, classes, now) && !Classless(p, classes)
    ensures Unresolvable(p, preemptor, classes, now) <==> p.priority < preemptor.priority && Classless(p, classes)
  {
    if p.priorityClass in classes {
      var c := classes[p.priorityClass];
      if !c.minimumPreemptable.Malformed? && !c.tolerationSeconds.Malformed? {
        var minimum := if c.minimumPreemptable.Unset? then c.value + 1 else c.minimumPreemptable.n;
        var seconds := if c.tolerationSeconds.Unset? then 0 else c.tolerationSeconds.n;
        assert Policy(c, minimum, seconds);
        assert forall m, s :: Policy(c, m, s) ==> m == minimum && s == seconds;
      } else {
        assert forall m, s :: !Policy(c, m, s);
      }
    }
  }

  /** An error ends the selection: a lower-priority pod's class is missing, or a pod is in reach and has no uid. */
  ghost predicate BreaksOff(p: PodInfo, preemptor: PodInfo, classes: map<string, PriorityClass>, now: int) {
    p.priority < preemptor.priority && (Classless(p, classes) || (p.uid == "" && !Protected(p, preemptor, classes, now)))
  }

  /** The pods of the node that stay out of reach. */
  ghost function Spared(pods: set<PodInfo>, preemptor: PodInfo, classes: map<string, PriorityClass>, now: int): set<PodInfo> {
    set p | p in pods && Protected(p, preemptor, classes, now)
  }

  /** Exactly the pods in reach are candidates. */
  lemma CandidatesInReach(pods: seq<PodInfo>, preemptor: PodInfo, classes: map<string, PriorityClass>, now: int)
    requires DistinctUids(pods)
    ensures (exists p :: p in pods && Refused(p, preemptor, classes, now)) <==> exists p :: p in Elements(pods) && BreaksOff(p, preemptor, classes, now)
    ensures (forall p :: p in pods ==> !Refused(p, preemptor, classes, now)) ==>
      var candidates, spared := Candidates(pods, preemptor, classes, now, |pods|), Spared(Elements(pods), preemptor, classes, now);
      Elements(pods) - Elements(candidates) == spared && (candidates == [] <==> spared == Elements(pods))
  {
    hide Protected, Refused, Unresolvable, Candidate, Classless;
    CandidatesAre(pods, preemptor, classes, now, |pods|);
    assert pods[..|pods|] == pods;
    forall p
      ensures Refused(p, preemptor, classes, now) <==> BreaksOff(p, preemptor, classes, now)
      ensures !Refused(p, preemptor, classes, now) ==> (Candidate(p, preemptor, classes, now) <==> !Protected(p, preemptor, classes, now))
    {
      RefusedIff(p, preemptor, classes, now);
    }
    assert forall p :: p in pods <==> p in Elements(pods);
    var candidates := Candidates(pods, preemptor, classes, now, |pods|);
    if candidates != [] {
      assert candidates[0] in candidates && candidates[0] in Elements(pods);
    }
  }

  lemma RefusedIff(p: PodInfo, preemptor: PodInfo, classes: map<string, PriorityClass>, now: int)
    ensures Refused(p, preemptor, classes, now) <==> BreaksOff(p, preemptor, classes, now)
    ensures !Refused(p, preemptor, classes, now) ==> (Candidate(p, preemptor, classes, now) <==> !Protected(p, preemptor, classes, now))
  {
    CandidateIff(p, preemptor, classes, now);
  }

  /** As time goes on no candidate is lost: what a preemptor could free at one moment it can still free later. */
  lemma CandidatesGrow(pods: seq<PodInfo>, preemptor: PodInfo, classes: map<string, PriorityClass>, now: int, later: int)
    requires DistinctUids(pods) && now <= later
    ensures Elements(Candidates(pods, preemptor, classes, now, |pods|)) <= Elements(Candidates(pods, preemptor, classes, later, |pods|))
  {
    CandidatesAre(pods, preemptor, classes, now, |pods|);
    CandidatesAre(pods, preemptor, classes, later, |pods|);
    forall p | p in Candidates(pods, preemptor, classes, now, |pods|)
      ensures p in Candidates(pods, preemptor, classes, later, |pods|)
    {
      ExemptionExpires(p, preemptor, classes, now, later);
    }
  }

  /** So with filters that more pods never help, a node that can be freed for the preemptor stays one. */
  lemma PreemptionStaysPossible(fits: Reprieve.Fits, pods: seq<PodInfo>, preemptor: PodInfo, classes: map<string, PriorityClass>, now: int, later: int)
    requires DistinctUids(pods) && now <= later && Reprieve.Monotone(fits)
    requires fits(Elements(pods) - Elements(Candidates(pods, preemptor, classes, now, |pods|)))
    ensures fits(Elements(pods) - Elements(Candidates(pods, preemptor, classes, later, |pods|)))
  {
    CandidatesGrow(pods, preemptor, classes, now, later);
  }

  /**
    The first loop ranges over the node's pods while it removes candidates from that very list.
    Still it meets every pod once, in the order they had, and no removal fails for want of the pod.
   */
  method RemoveCandidates(node: NodeInfo, preemptor: PodInfo, classes: map<string, PriorityClass>, now: int)
    returns (candidates: seq<PodInfo>, ok: bool)
    requires node.Valid()
    modifies node`length, node`Contents, node.buffer
    ensures node.Valid()
    ensures ok <==> forall p :: p in old(node.Pods()) ==> !Refused(p, preemptor, classes, now)
    ensures ok ==> candidates == Candidates(old(node.Pods()), preemptor, classes, now, old(node.length)) && HasUids(candidates)
    ensures ok ==> node.Contents == old(node.Contents) - Elements(candidates)
  {
    candidates := [];
    ghost var orig := node.Pods();
    var cells, n := node.buffer, node.length;
    assert cells[..n] == orig;
    for i := 0 to n
      invariant node.Valid() && node.buffer == cells && node.length <= n
      invariant candidates == Candidates(orig, preemptor, classes, now, i) && HasUids(candidates)
      invariant Ranging(orig, cells[..n], node.length, i, candidates)
      invariant forall p :: p in orig[..i] ==> !Refused(p, preemptor, classes, now)
    {
      assert orig[..i + 1] == orig[..i] + [orig[i]];
      RangeSkip(orig, cells[..n], node.length, i, candidates);
      var p := cells[i];
      assert p == cells[..n][i] == orig[i];
      if p.priority >= preemptor.priority {
        continue;
      }
      var exemption := ExemptedFromPreemption(p, preemptor, classes, now);
      if exemption == LookupFailed {
        assert p in orig;
        return candidates, false;
      }
      if exemption == Preemptable {
        var removed := TakeVisited(node, p, orig, i, candidates);
        if !removed {
          assert p in orig;
          return candidates, false;
        }
        candidates := candidates + [p];
      }
    }
    assert orig[..n] == orig;
    assert cells[..n][..node.length] == node.Pods();
    return candidates, true;
  }

  // ---------------------------------------------------------------------------

  ghost predicate ByImportance(pods: seq<PodInfo>) {
    forall i, j :: 0 <= i < j < |pods| ==> !MoreImportant(pods[j], pods[i])
  }

  /** `sort.Slice` by importance: the most important candidate first. */
  method SortByImportance(pods: seq<PodInfo>) returns (sorted: seq<PodInfo>)
    requires DistinctUids(pods)
    ensures ByImportance(sorted) && DistinctUids(sorted) && Elements(sorted) == Elements(pods)
  {
    sorted := [];
    for i := 0 to |pods|
      invariant ByImportance(sorted) && DistinctUids(sorted)
      invariant forall q :: q in sorted <==> q in pods[..i]
    {
      var p := pods[i];
      var k := |sorted|;
      while k > 0 && MoreImportant(p, sorted[k - 1])
        invariant 0 <= k <= |sorted|
        invariant forall j :: k <= j < |sorted| ==> MoreImportant(p, sorted[j])
      {
        k := k - 1;
      }
      forall q | q in sorted
        ensures q.uid != p.uid
      {
        assert q in pods[..i];
      }
      InsertKeepsOrder(sorted, k, p);
      InsertKeepsDistinct(sorted, k, p);
      sorted := Insert(sorted, k, p);
      assert pods[..i + 1] == pods[..i] + [p];
    }
    assert pods[..|pods|] == pods;
  }

  function Insert(s: seq<PodInfo>, k: nat, p: PodInfo): (t: seq<PodInfo>)
    requires k <= |s|
    ensures |t| == |s| + 1
    ensures forall i :: 0 <= i < |t| ==> t[i] == if i < k then s[i] else if i == k then p else s[i - 1]
    ensures forall q :: q in t <==> q in s || q == p
  {
    assert s == s[..k] + s[k..];
    s[..k] + [p] + s[k..]
  }

  lemma InsertKeepsOrder(sorted: seq<PodInfo>, k: nat, p: PodInfo)
    requires ByImportance(sorted) && k <= |sorted|
    requires forall j :: k <= j < |sorted| ==> MoreImportant(p, sorted[j])
    requires k > 0 ==> !MoreImportant(p, sorted[k - 1])
    ensures ByImportance(Insert(sorted, k, p))
  {
    forall j | 0 <= j < k
      ensures !MoreImportant(p, sorted[j])
    {
      assert j < k - 1 ==> !MoreImportant(sorted[k - 1], sorted[j]);
    }
  }

  lemma InsertKeepsDistinct(sorted: seq<PodInfo>, k: nat, p: PodInfo)
    requires DistinctUids(sorted) && k <= |sorted| && forall q :: q in sorted ==> q.uid != p.uid
    ensures DistinctUids(Insert(sorted, k, p))
  {
    assert forall j :: 0 <= j < |sorted| ==> sorted[j] in sorted;
  }

  // ---------------------------------------------------------------------------

  ghost predicate NotOn(p: PodInfo, pods: set<PodInfo>) {
    forall q :: q in pods ==> q.uid != p.uid
  }

  /** `reprievePod`: put the pod back, run the filters, take it off again if the preemptor no longer fits. */
  method ReprievePod(node: NodeInfo, fits: Reprieve.Fits, p: PodInfo) returns (kept: bool)
    requires node.Valid() && NotOn(p, node.Contents) && p.uid != ""
    modifies node, node.buffer
    ensures node.Valid() && (node.buffer == old(node.buffer) || fresh(node.buffer))
    ensures kept == fits(old(node.Contents) + {p})
    ensures node.Contents == old(node.Contents) + if kept then {p} else {}
  {
    node.AddPodInfo(p);
    kept := RunFilters(node, fits);
    if !kept {
      assert node.buffer[node.length - 1] == p;
      var removed, k := node.RemovePod(p);
    }
  }

  /** The filter plugins look at the node as it stands. */
  method RunFilters(node: NodeInfo, fits: Reprieve.Fits) returns (ok: bool)
    requires node.Valid()
    ensures ok == fits(node.Contents)
  {
    assert node.Contents == set p | p in node.Pods();
    ok := fits(set p | p in node.Pods());
  }

  /** Nobody in the order is on the node when its turn comes. */
  ghost predicate Clear(fits: Reprieve.Fits, base: set<PodInfo>, order: seq<PodInfo>) {
    forall n :: 0 <= n < |order| ==> ClearAt(fits, base, order, n)
  }

  ghost predicate ClearAt(fits: Reprieve.Fits, base: set<PodInfo>, order: seq<PodInfo>, n: nat)
    requires n < |order|
  {
    NotOn(order[n], base + Reprieve.Greedy(fits, base, order, n).kept)
  }

  /** One pass over a stretch of the order. */
  method ReprieveStretch(node: NodeInfo, fits: Reprieve.Fits, order: seq<PodInfo>, from: nat, to: nat, ghost base: set<PodInfo>)
    returns (victims: seq<PodInfo>)
    requires node.Valid() && from <= to <= |order| && Clear(fits, base, order) && HasUids(order)
    requires node.Contents == base + Reprieve.Greedy(fits, base, order, from).kept
    modifies node, node.buffer
    ensures node.Valid()
    ensures node.Contents == base + Reprieve.Greedy(fits, base, order, to).kept
    ensures Reprieve.Greedy(fits, base, order, to).victims == Reprieve.Greedy(fits, base, order, from).victims + victims
    ensures node.buffer == old(node.buffer) || fresh(node.buffer)
  {
    hide Reprieve.Greedy, NodeInfo.Valid;
    victims := [];
    ghost var start := Reprieve.Greedy(fits, base, order, from);
    ghost var o := start;
    for i := from to to
      invariant node.Valid() && (node.buffer == old(node.buffer) || fresh(node.buffer))
      invariant o == Reprieve.Greedy(fits, base, order, i)
      invariant node.Contents == base + o.kept && o.victims == start.victims + victims
    {
      assert ClearAt(fits, base, order, i);
      var kept := ReprievePod(node, fits, order[i]);
      if !kept {
        victims := victims + [order[i]];
      }
      assert base + o.kept + {order[i]} == base + (o.kept + {order[i]});
      o := Reprieve.GreedyNext(fits, base, order, i, o);
    }
  }

  lemma CandidatesClear(fits: Reprieve.Fits, base: set<PodInfo>, order: seq<PodInfo>)
    requires DistinctUids(order) && forall p :: p in order ==> NotOn(p, base)
    ensures Clear(fits, base, order)
  {
    forall n | 0 <= n < |order|
      ensures ClearAt(fits, base, order, n)
    {
      Reprieve.GreedyPartitions(fits, base, order, n);
      Reprieve.NextIsNew(order, n);
      assert order[n] in order;
    }
  }

  // ---------------------------------------------------------------------------

  datatype Selection =
    | Errored
    | NoCandidates
    | DoesNotFit
    | Selected(victims: seq<PodInfo>, violations: nat)

  /** How many of the pods belong to the group. */
  function CountIn(pods: seq<PodInfo>, group: seq<PodInfo>): nat {
    if pods == [] then 0 else CountIn(pods[..|pods| - 1], group) + if pods[|pods| - 1] in group then 1 else 0
  }

  /**
    `order` is the order in which candidates are reprieved: those whose eviction violates a budget
    first, the more important first within each group.
   */
  ghost predicate ReprieveOrder(order: seq<PodInfo>, candidates: seq<PodInfo>, budgets: seq<Budget>, violating: seq<PodInfo>) {
    exists sorted: seq<PodInfo> ::
      && ByImportance(sorted) && DistinctUids(sorted) && Elements(sorted) == Elements(candidates)
      && violating == Group(budgets, sorted, |sorted|, true)
      && order == violating + Group(budgets, sorted, |sorted|, false)
  }

  /**
    What a selection promises, with `pods` on the node before and `left` after. The preemptor fits
    on the node as it is left; with filters that more pods never help, no victim can be put back and
    no other choice keeps more in this order; and the count is the number of
    victims whose eviction violates a budget.
   */
  ghost predicate GoodSelection(fits: Reprieve.Fits, pods: set<PodInfo>, candidates: set<PodInfo>, left: set<PodInfo>,
                                victims: seq<PodInfo>, violations: nat, order: seq<PodInfo>, violating: seq<PodInfo>) {
    var base := pods - candidates;
    && victims == Reprieve.Greedy(fits, base, order, |order|).victims
    && DistinctUids(victims) && Elements(victims) <= candidates
    && left == pods - Elements(victims)
    && fits(left)
    && violations == CountIn(victims, violating)
    && (Reprieve.Monotone(fits) ==>
          && (forall v :: v in victims ==> !fits(left + {v}))
          && Reprieve.LexGreatest(fits, base, order, left - base))
  }

  method OrderCandidates(candidates: seq<PodInfo>, budgets: seq<Budget>) returns (first: seq<PodInfo>, second: seq<PodInfo>)
    requires DistinctUids(candidates)
    ensures ReprieveOrder(first + second, candidates, budgets, first)
    ensures DistinctUids(first + second) && Elements(first + second) == Elements(candidates)
  {
    var sorted := SortByImportance(candidates);
    first, second := FilterPodsWithPdbViolation(sorted, budgets);
    OrderFacts(budgets, sorted, first, second);
  }

  /** The second half: sort, split by budgets, and reprieve the violating candidates first. */
  method ReprieveCandidates(node: NodeInfo, candidates: seq<PodInfo>, budgets: seq<Budget>, fits: Reprieve.Fits, ghost pods: seq<PodInfo>)
    returns (victims: seq<PodInfo>, violations: nat, ghost order: seq<PodInfo>, ghost violating: seq<PodInfo>)
    requires node.Valid() && DistinctUids(pods) && DistinctUids(candidates) && HasUids(candidates) && Elements(candidates) <= Elements(pods)
    requires node.Contents == Elements(pods) - Elements(candidates) && fits(node.Contents)
    modifies node, node.buffer
    ensures node.Valid()
    ensures ReprieveOrder(order, candidates, budgets, violating)
    ensures GoodSelection(fits, Elements(pods), Elements(candidates), node.Contents, victims, violations, order, violating)
  {
    hide Reprieve.Greedy, ReprieveOrder, GoodSelection, Clear;
    ghost var base := Elements(pods) - Elements(candidates);
    var first, second := OrderCandidates(candidates, budgets);
    order, violating := first + second, first;
    CandidatesNotOn(pods, candidates, order);
    CandidatesClear(fits, base, order);
    var all := first + second;
    SameUids(candidates, all);
    victims, violations := TwoPasses(node, fits, all, |first|, base);
    assert order[..|first|] == first;
    ViolationsCounted(fits, base, order, |first|, victims[..violations], victims[violations..]);
    assert victims[..violations] + victims[violations..] == victims;
    FinalFacts(fits, order, Elements(pods), Elements(candidates), node.Contents, victims, violations, violating, base);
  }

  /** The `m` candidates that violate a budget are offered a reprieve before the others; only they are counted. */
  method TwoPasses(node: NodeInfo, fits: Reprieve.Fits, order: seq<PodInfo>, m: nat, ghost base: set<PodInfo>)
    returns (victims: seq<PodInfo>, violations: nat)
    requires node.Valid() && node.Contents == base && m <= |order| && Clear(fits, base, order) && HasUids(order)
    modifies node, node.buffer
    ensures node.Valid()
    ensures node.Contents == base + Reprieve.Greedy(fits, base, order, |order|).kept
    ensures victims == Reprieve.Greedy(fits, base, order, |order|).victims
    ensures violations <= |victims| && victims[..violations] == Reprieve.Greedy(fits, base, order, m).victims
  {
    hide Reprieve.Greedy;
    Reprieve.GreedyNone(fits, base, order);
    assert base == base + {};
    var firstVictims := ReprieveStretch(node, fits, order, 0, m, base);
    violations := |firstVictims|;
    var secondVictims := ReprieveStretch(node, fits, order, m, |order|, base);
    victims := firstVictims + secondVictims;
  }

  method SelectVictimsOnNode(node: NodeInfo, preemptor: PodInfo, classes: map<string, PriorityClass>, now: int,
                             budgets: seq<Budget>, fits: Reprieve.Fits)
    returns (result: Selection, ghost order: seq<PodInfo>, ghost violating: seq<PodInfo>)
    requires node.Valid()
    modifies node, node.buffer
    ensures node.Valid()
    ensures result.Errored? <==> exists p :: p in old(node.Pods()) && Refused(p, preemptor, classes, now)
    ensures !result.Errored? ==>
      var pods := old(node.Pods());
      var candidates := Candidates(pods, preemptor, classes, now, |pods|);
      && (result.NoCandidates? <==> candidates == [])
      && (result.DoesNotFit? <==> candidates != [] && !fits(Elements(pods) - Elements(candidates)))
      && (result.Selected? ==>
            && ReprieveOrder(order, candidates, budgets, violating)
            && GoodSelection(fits, Elements(pods), Elements(candidates), node.Contents,
                             result.victims, result.violations, order, violating))
    ensures var pods, spared := old(node.Contents), Spared(old(node.Contents), preemptor, classes, now);
      && (result.Errored? <==> exists p :: p in pods && BreaksOff(p, preemptor, classes, now))
      && (result.NoCandidates? <==> !result.Errored? && spared == pods)
      && (result.DoesNotFit? <==> !result.Errored? && spared != pods && !fits(spared))
      && (result.Selected? ==> spared <= node.Contents && forall p :: p in spared ==> p !in result.victims)
  {
    ghost var pods := node.Pods();
    CandidatesInReach(pods, preemptor, classes, now);
    order, violating := [], [];
    var candidates, ok := RemoveCandidates(node, preemptor, classes, now);
    if !ok {
      return Errored, order, violating;
    }
    if |candidates| == 0 {
      return NoCandidates, order, violating;
    }
    var roomy := RunFilters(node, fits);
    if !roomy {
      return DoesNotFit, order, violating;
    }
    CandidatesAre(pods, preemptor, classes, now, |pods|);
    assert pods[..|pods|] == pods;
    var victims, violations;
    victims, violations, order, violating := ReprieveCandidates(node, candidates, budgets, fits, pods);
    result := Selected(victims, violations);
  }

  lemma OrderFacts(budgets: seq<Budget>, sorted: seq<PodInfo>, first: seq<PodInfo>, second: seq<PodInfo>)
    requires DistinctUids(sorted)
    requires first == Group(budgets, sorted, |sorted|, true) && second == Group(budgets, sorted, |sorted|, false)
    ensures DistinctUids(first + second) && Elements(first + second) == Elements(sorted)
  {
    GroupsPartition(budgets, sorted, |sorted|);
    GroupsApart(budgets, sorted, |sorted|);
    assert sorted[..|sorted|] == sorted;
  }

  lemma {:induction false} GroupOrdered(budgets: seq<Budget>, pods: seq<PodInfo>, n: nat, violating: bool)
    requires n <= |pods| && ByImportance(pods)
    ensures ByImportance(Group(budgets, pods, n, violating))
    ensures forall p :: p in Group(budgets, pods, n, violating) ==> p in pods[..n]
  {
    if n > 0 {
      GroupOrdered(budgets, pods, n - 1, violating);
      var before := Group(budgets, pods, n - 1, violating);
      forall i | 0 <= i < |before|
        ensures !MoreImportant(pods[n - 1], before[i])
      {
        assert before[i] in pods[..n - 1];
      }
      assert pods[..n] == pods[..n - 1] + [pods[n - 1]];
    }
  }

  /** Within each group the pod of higher priority comes first, and of two with the same priority the one that started earlier. */
  lemma OrderedWithinGroups(order: seq<PodInfo>, candidates: seq<PodInfo>, budgets: seq<Budget>, violating: seq<PodInfo>, i: nat, j: nat)
    requires ReprieveOrder(order, candidates, budgets, violating)
    requires i < j < |order| && (j < |violating| || |violating| <= i)
    ensures order[i].priority > order[j].priority || (order[i].priority == order[j].priority && order[i].startTime <= order[j].startTime)
  {
    hide Group, DistinctUids, Elements;
    var sorted: seq<PodInfo> :|
      && ByImportance(sorted) && DistinctUids(sorted) && Elements(sorted) == Elements(candidates)
      && violating == Group(budgets, sorted, |sorted|, true)
      && order == violating + Group(budgets, sorted, |sorted|, false);
    GroupOrdered(budgets, sorted, |sorted|, true);
    GroupOrdered(budgets, sorted, |sorted|, false);
    var spare := Group(budgets, sorted, |sorted|, false);
    if j < |violating| {
      assert order[i] == violating[i] && order[j] == violating[j];
      assert !MoreImportant(violating[j], violating[i]);
    } else {
      assert order[i] == spare[i - |violating|] && order[j] == spare[j - |violating|];
      assert !MoreImportant(spare[j - |violating|], spare[i - |violating|]);
    }
  }

  lemma SameUids(pods: seq<PodInfo>, order: seq<PodInfo>)
    requires HasUids(pods) && Elements(order) == Elements(pods)
    ensures HasUids(order)
  {
    forall i | 0 <= i < |order|
      ensures order[i].uid != ""
    {
      assert order[i] in Elements(order);
      assert order[i] in Elements(pods);
    }
  }

  lemma CandidatesNotOn(pods: seq<PodInfo>, candidates: seq<PodInfo>, order: seq<PodInfo>)
    requires DistinctUids(pods) && Elements(order) == Elements(candidates) <= Elements(pods)
    ensures forall p :: p in order ==> NotOn(p, Elements(pods) - Elements(candidates))
  {
    forall p, q | p in order && q in Elements(pods) - Elements(candidates)
      ensures q.uid != p.uid
    {
      assert p in Elements(order);
      assert p in pods && q in pods;
      var i :| 0 <= i < |pods| && pods[i] == p;
      var j :| 0 <= j < |pods| && pods[j] == q;
    }
  }

  lemma {:induction false} CountAll(pods: seq<PodInfo>, group: seq<PodInfo>, inside: bool)
    requires forall p :: p in pods ==> (p in group) == inside
    ensures CountIn(pods, group) == if inside then |pods| else 0
  {
    if pods != [] {
      assert forall p :: p in pods[..|pods| - 1] ==> p in pods;
      assert pods[|pods| - 1] in pods;
      CountAll(pods[..|pods| - 1], group, inside);
    }
  }

  lemma {:induction false} CountConcat(p: seq<PodInfo>, q: seq<PodInfo>, group: seq<PodInfo>)
    ensures CountIn(p + q, group) == CountIn(p, group) + CountIn(q, group)
  {
    if q == [] {
      assert p + q == p;
    } else {
      CountConcat(p, q[..|q| - 1], group);
      assert (p + q)[..|p + q| - 1] == p + q[..|q| - 1];
    }
  }

  /** A victim of the second pass was not up in the first. */
  lemma LateVictims(fits: Reprieve.Fits, base: set<PodInfo>, order: seq<PodInfo>, m: nat, early: seq<PodInfo>, late: seq<PodInfo>)
    requires m <= |order| && DistinctUids(order)
    requires Reprieve.Greedy(fits, base, order, m).victims == early
    requires Reprieve.Greedy(fits, base, order, |order|).victims == early + late
    ensures forall p :: p in late ==> p !in order[..m]
  {
    hide Reprieve.Greedy;
    Reprieve.GreedyPartitions(fits, base, order, m);
    Reprieve.GreedyPartitions(fits, base, order, |order|);
    Reprieve.VictimsDistinct(fits, base, order, |order|);
    Reprieve.KeptGrows(fits, base, order, m, |order|);
    var all := early + late;
    forall j | 0 <= j < |late|
      ensures late[j] !in order[..m]
    {
      assert all[|early| + j] == late[j] && late[j] in Elements(all);
      forall i | 0 <= i < |early|
        ensures early[i] != late[j]
      {
        assert all[i] == early[i];
      }
      assert late[j] !in Elements(order[..m]);
    }
  }

  /** Victims of the first pass are the violating ones among all victims. */
  lemma ViolationsCounted(fits: Reprieve.Fits, base: set<PodInfo>, order: seq<PodInfo>, m: nat, early: seq<PodInfo>, late: seq<PodInfo>)
    requires m <= |order| && DistinctUids(order)
    requires Reprieve.Greedy(fits, base, order, m).victims == early
    requires Reprieve.Greedy(fits, base, order, |order|).victims == early + late
    ensures CountIn(early + late, order[..m]) == |early|
  {
    Reprieve.GreedyPartitions(fits, base, order, m);
    forall p | p in early
      ensures p in order[..m]
    {
      assert p in Elements(early);
      assert p in Elements(order[..m]);
    }
    LateVictims(fits, base, order, m, early, late);
    CountAll(early, order[..m], true);
    CountAll(late, order[..m], false);
    CountConcat(early, late, order[..m]);
  }

  lemma FinalFacts(fits: Reprieve.Fits, order: seq<PodInfo>, pods: set<PodInfo>, candidates: set<PodInfo>,
                   left: set<PodInfo>, victims: seq<PodInfo>, violations: nat, violating: seq<PodInfo>, base: set<PodInfo>)
    requires DistinctUids(order) && Elements(order) == candidates <= pods && base == pods - candidates && fits(base)
    requires left == base + Reprieve.Greedy(fits, base, order, |order|).kept
    requires victims == Reprieve.Greedy(fits, base, order, |order|).victims
    requires violations == CountIn(victims, violating)
    ensures GoodSelection(fits, pods, candidates, left, victims, violations, order, violating)
  {
    Reprieve.GreedyPartitions(fits, base, order, |order|);
    Reprieve.VictimsDistinct(fits, base, order, |order|);
    assert order[..|order|] == order;
    Reprieve.GreedyFits(fits, base, order, |order|);
    assert left - base == Reprieve.Greedy(fits, base, order, |order|).kept;
    if Reprieve.Monotone(fits) {
      Reprieve.GreedyLexGreatest(fits, base, order);
      forall v | v in victims
        ensures !fits(left + {v})
      {
        Reprieve.VictimsNeeded(fits, base, order, v);
      }
    }
  }
}
