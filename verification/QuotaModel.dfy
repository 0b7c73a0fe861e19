/**
  Elastic quotas on values: per-namespace accounting, the two admission checks, and the
  runs of events and scheduling cycles that drive them.
 */
module QuotaModel {
  import opened Options
  import opened Pods

  // ---------------------------------------------------------------------------
  // Sums over maps

  ghost function Sum<K>(m: map<K, int>): int
    decreases m.Keys
  {
    if m == map[] then 0
    else
      var k :| k in m;
      m[k] + Sum(m - {k})
  }

  lemma {:induction false} SumWithout<K>(m: map<K, int>, k: K)
    requires k in m
    ensures Sum(m) == m[k] + Sum(m - {k})
    decreases m.Keys
  {
    var j :| j in m && Sum(m) == m[j] + Sum(m - {j});
    if j != k {
      SumWithout(m - {j}, k);
      SumWithout(m - {k}, j);
      assert m - {j} - {k} == m - {k} - {j};
    }
  }

  lemma SumWith<K>(m: map<K, int>, k: K, v: int)
    ensures Sum(m[k := v]) == Sum(m) + v - if k in m then m[k] else 0
  {
    SumWithout(m[k := v], k);
    if k in m {
      SumWithout(m, k);
      assert m[k := v] - {k} == m - {k};
    } else {
      assert m[k := v] - {k} == m;
    }
  }

  /** A larger total has a larger term. */
  lemma {:induction false} LargerTerm<K>(m: map<K, int>, n: map<K, int>) returns (k: K)
    requires m.Keys == n.Keys && Sum(m) > Sum(n)
    ensures k in m && m[k] > n[k]
    decreases m.Keys
  {
    k :| k in m;
    SumWithout(m, k);
    SumWithout(n, k);
    if m[k] <= n[k] {
      k := LargerTerm(m - {k}, n - {k});
    }
  }

  lemma SumMonotone<K>(m: map<K, int>, n: map<K, int>)
    requires m.Keys == n.Keys && forall k :: k in m ==> m[k] <= n[k]
    ensures Sum(m) <= Sum(n)
  {
    if Sum(m) > Sum(n) {
      var k := LargerTerm(m, n);
      assert false;
    }
  }

  // ---------------------------------------------------------------------------
  // Quotas

  /** `cmp2`: CPU and memory always count, but only the scalars that the FIRST argument names. */
  predicate Exceeds(x: Resources, used: Resources, bound: Resources) {
    || x.cpu + used.cpu > bound.cpu
    || x.memory + used.memory > bound.memory
    || exists s :: s in x.scalars && x.scalars[s] + At(used, Scalar(s)) > At(bound, Scalar(s))
  }

  /** The same by dimension. */
  lemma ExceedsByDimension(x: Resources, used: Resources, bound: Resources)
    ensures Exceeds(x, used, bound) <==> exists d :: Names(x, d) && At(x, d) + At(used, d) > At(bound, d)
  {
    if x.cpu + used.cpu > bound.cpu {
      assert Names(x, Cpu) && At(x, Cpu) + At(used, Cpu) > At(bound, Cpu);
    }
    if x.memory + used.memory > bound.memory {
      assert Names(x, Memory) && At(x, Memory) + At(used, Memory) > At(bound, Memory);
    }
    if s :| s in x.scalars && x.scalars[s] + At(used, Scalar(s)) > At(bound, Scalar(s)) {
      assert Names(x, Scalar(s)) && At(x, Scalar(s)) + At(used, Scalar(s)) > At(bound, Scalar(s));
    }
  }

  datatype Quota = Quota(min: Resources, max: Resources, used: Resources, pods: set<string>) {
    predicate OverMinWith(x: Resources) { Exceeds(x, used, min) }
    predicate OverMaxWith(x: Resources) { Exceeds(x, used, max) }
    predicate OverMin() { Exceeds(used, ZERO, min) }

    /** A pod without a uid has no key: it is neither added nor deleted. */
    function AddPod(p: PodInfo): Quota {
      if p.uid == "" || p.uid in pods then this else this.(used := Plus(used, p.request), pods := pods + {p.uid})
    }

    function DeletePod(p: PodInfo): Quota {
      if p.uid == "" || p.uid !in pods then this else this.(used := Minus(used, p.request), pods := pods - {p.uid})
    }
  }

  type Quotas = map<string, Quota>

  /** One amount of every quota. */
  function UsedBy(quotas: Quotas, d: Dimension): map<string, int> { map ns | ns in quotas :: At(quotas[ns].used, d) }
  function MinOf(quotas: Quotas, d: Dimension): map<string, int> { map ns | ns in quotas :: At(quotas[ns].min, d) }

  /** The aggregate check looks at CPU, memory and every scalar that some usage, or the request, names. */
  ghost predicate AggregateOverMinWith(quotas: Quotas, x: Resources) {
    exists d :: OverMinAt(quotas, x, d)
  }

  ghost predicate OverMinAt(quotas: Quotas, x: Resources, d: Dimension) {
    && (Names(x, d) || exists ns :: ns in quotas && Names(quotas[ns].used, d))
    && Sum(UsedBy(quotas, d)) + At(x, d) > Sum(MinOf(quotas, d))
  }

  function AddPodTo(quotas: Quotas, p: PodInfo): Quotas {
    if p.namespace in quotas then quotas[p.namespace := quotas[p.namespace].AddPod(p)] else quotas
  }

  function DeletePodFrom(quotas: Quotas, p: PodInfo): Quotas {
    if p.namespace in quotas then quotas[p.namespace := quotas[p.namespace].DeletePod(p)] else quotas
  }

  /** The quota uses more than its Min of something. */
  ghost predicate UsesMoreThanMin(q: Quota) {
    exists d :: At(q.used, d) > At(q.min, d)
  }

  lemma OverMinIff(q: Quota)
    requires NonNegative(q.min)
    ensures q.OverMin() <==> UsesMoreThanMin(q)
  {
    assert forall d :: At(ZERO, d) == 0;
    ExceedsByDimension(q.used, ZERO, q.min);
    if d :| At(q.used, d) > At(q.min, d) {
      assert Names(q.used, d) && At(q.used, d) + At(ZERO, d) > At(q.min, d);
    }
  }

  // ---------------------------------------------------------------------------
  // Accounting over every run of events

  /** What every pod asks for, by uid: requests do not change. */
  type Requests = string -> Resources

  ghost predicate Honest(p: PodInfo, requests: Requests) { p.request == requests(p.uid) }

  function Shares(pods: set<string>, requests: Requests, d: Dimension): map<string, int> {
    map uid | uid in pods :: At(requests(uid), d)
  }

  /** Used is the sum of the requests of the pods in the set, each counted once, in every dimension. */
  ghost predicate Balanced(q: Quota, requests: Requests) {
    forall d :: At(q.used, d) == Sum(Shares(q.pods, requests, d))
  }

  ghost predicate AllBalanced(quotas: Quotas, requests: Requests) {
    forall ns :: ns in quotas ==> Balanced(quotas[ns], requests)
  }

  datatype Event =
    | QuotaAdded(ns: string, min: Resources, max: Resources)
    | QuotaUpdated(ns: string, min: Resources, max: Resources)
    | QuotaDeleted(ns: string)
    | PodAdded(pod: PodInfo, listed: Option<(Resources, Resources)>) // the namespace's quota in the lister, if any
    | PodUpdated(pod: PodInfo, wasFinished: bool, active: bool)      // active: now running or pending
    | PodDeleted(pod: PodInfo)
    | Reserved(pod: PodInfo)
    | Unreserved(pod: PodInfo)

  function NewQuota(min: Resources, max: Resources): Quota { Quota(min, max, ZERO, {}) }

  function Apply(quotas: Quotas, e: Event): Quotas {
    match e
    case QuotaAdded(ns, min, max) => if ns in quotas then quotas else quotas[ns := NewQuota(min, max)]
    case QuotaUpdated(ns, min, max) =>
      quotas[ns := if ns in quotas then quotas[ns].(min := min, max := max) else NewQuota(min, max)]
    case QuotaDeleted(ns) => quotas - {ns}
    case PodAdded(pod, listed) =>
      if pod.namespace in quotas then AddPodTo(quotas, pod)
      else if listed.Some? then AddPodTo(quotas[pod.namespace := NewQuota(listed.value.0, listed.value.1)], pod)
      else quotas
    case PodUpdated(pod, wasFinished, active) => if wasFinished || active then quotas else DeletePodFrom(quotas, pod)
    case PodDeleted(pod) => DeletePodFrom(quotas, pod)
    case Reserved(pod) => AddPodTo(quotas, pod)
    case Unreserved(pod) => DeletePodFrom(quotas, pod)
  }

  function ApplyAll(quotas: Quotas, events: seq<Event>): Quotas {
    if events == [] then quotas else Apply(ApplyAll(quotas, events[..|events| - 1]), events[|events| - 1])
  }

  ghost predicate HonestEvent(e: Event, requests: Requests) {
    (e.PodAdded? || e.PodUpdated? || e.PodDeleted? || e.Reserved? || e.Unreserved?) ==> Honest(e.pod, requests)
  }

  lemma NewBalanced(min: Resources, max: Resources, requests: Requests)
    ensures Balanced(NewQuota(min, max), requests)
  {
    forall d
      ensures Sum(Shares({}, requests, d)) == 0
    {
      assert Shares({}, requests, d) == map[];
    }
  }

  lemma AddBalanced(q: Quota, p: PodInfo, requests: Requests)
    requires Balanced(q, requests) && Honest(p, requests)
    ensures Balanced(q.AddPod(p), requests)
  {
    if p.uid != "" && p.uid !in q.pods {
      forall d
        ensures Sum(Shares(q.pods + {p.uid}, requests, d)) == At(q.used, d) + At(p.request, d)
      {
        SumWith(Shares(q.pods, requests, d), p.uid, At(p.request, d));
        assert Shares(q.pods + {p.uid}, requests, d) == Shares(q.pods, requests, d)[p.uid := At(p.request, d)];
      }
    }
  }

  lemma DeleteBalanced(q: Quota, p: PodInfo, requests: Requests)
    requires Balanced(q, requests) && Honest(p, requests)
    ensures Balanced(q.DeletePod(p), requests)
  {
    if p.uid in q.pods {
      forall d
        ensures Sum(Shares(q.pods - {p.uid}, requests, d)) == At(q.used, d) - At(p.request, d)
      {
        SumWithout(Shares(q.pods, requests, d), p.uid);
        assert Shares(q.pods - {p.uid}, requests, d) == Shares(q.pods, requests, d) - {p.uid};
      }
    }
  }

  lemma ApplyBalanced(quotas: Quotas, e: Event, requests: Requests)
    requires AllBalanced(quotas, requests) && HonestEvent(e, requests)
    ensures AllBalanced(Apply(quotas, e), requests)
  {
    match e
    case QuotaAdded(ns, min, max) => NewBalanced(min, max, requests);
    case QuotaUpdated(ns, min, max) => NewBalanced(min, max, requests);
    case QuotaDeleted(ns) =>
    case PodAdded(pod, listed) =>
      if pod.namespace in quotas {
        AddBalanced(quotas[pod.namespace], pod, requests);
      } else if listed.Some? {
        NewBalanced(listed.value.0, listed.value.1, requests);
        AddBalanced(NewQuota(listed.value.0, listed.value.1), pod, requests);
      }
    case Reserved(pod) =>
      if pod.namespace in quotas {
        AddBalanced(quotas[pod.namespace], pod, requests);
      }
    case PodUpdated(pod, _, _) =>
      if pod.namespace in quotas {
        DeleteBalanced(quotas[pod.namespace], pod, requests);
      }
    case PodDeleted(pod) =>
      if pod.namespace in quotas {
        DeleteBalanced(quotas[pod.namespace], pod, requests);
      }
    case Unreserved(pod) =>
      if pod.namespace in quotas {
        DeleteBalanced(quotas[pod.namespace], pod, requests);
      }
  }

  /** In every run of events each quota's usage is the sum of its pods' requests. */
  lemma {:induction false} EveryRunBalanced(events: seq<Event>, requests: Requests)
    requires forall i :: 0 <= i < |events| ==> HonestEvent(events[i], requests)
    ensures AllBalanced(ApplyAll(map[], events), requests)
  {
    if events != [] {
      EveryRunBalanced(events[..|events| - 1], requests);
      ApplyBalanced(ApplyAll(map[], events[..|events| - 1]), events[|events| - 1], requests);
    }
  }

  // ---------------------------------------------------------------------------
  // Which quotas there are, whom they count, and their bounds, in terms of the events alone

  ghost predicate Creates(e: Event, ns: string) {
    || (e.QuotaAdded? && e.ns == ns) || (e.QuotaUpdated? && e.ns == ns)
    || (e.PodAdded? && e.listed.Some? && e.pod.namespace == ns)
  }

  ghost predicate Drops(e: Event, ns: string) { e.QuotaDeleted? && e.ns == ns }

  /** A pod is seen for the first time, or reserved. */
  ghost predicate Charging(e: Event, ns: string, uid: string) {
    (e.PodAdded? || e.Reserved?) && e.pod.namespace == ns && e.pod.uid == uid
  }

  /** A pod is deleted, unreserved, or has just finished. */
  ghost predicate Releasing(e: Event, ns: string, uid: string) {
    && (e.PodDeleted? || e.Unreserved? || (e.PodUpdated? && !e.wasFinished && !e.active))
    && e.pod.namespace == ns && e.pod.uid == uid
  }

  /** Event `i` made the quota, or renewed it, and none deleted it since. */
  ghost predicate CreatedAt(events: seq<Event>, ns: string, i: int) {
    && 0 <= i < |events| && Creates(events[i], ns)
    && forall j :: i < j < |events| ==> !Drops(events[j], ns)
  }

  ghost predicate QuotaThere(events: seq<Event>, ns: string) { exists i :: CreatedAt(events, ns, i) }

  /** Event `i` charged the pod to a quota that was there by then, and none has released the pod or deleted the quota since. */
  ghost predicate ChargedAt(events: seq<Event>, ns: string, uid: string, i: int) {
    && 0 <= i < |events| && Charging(events[i], ns, uid)
    && QuotaThere(events[..i + 1], ns)
    && forall j :: i < j < |events| ==> !Drops(events[j], ns) && !Releasing(events[j], ns, uid)
  }

  lemma CreatedNext(events: seq<Event>, ns: string)
    requires events != []
    ensures var before, last := events[..|events| - 1], events[|events| - 1];
            QuotaThere(events, ns) <==> Creates(last, ns) || (!Drops(last, ns) && QuotaThere(before, ns))
  {
    var n := |events| - 1;
    var before := events[..n];
    if i :| CreatedAt(events, ns, i) && i < n {
      assert CreatedAt(before, ns, i);
    }
    if Creates(events[n], ns) {
      assert CreatedAt(events, ns, n);
    }
    if i :| CreatedAt(before, ns, i) && !Drops(events[n], ns) {
      assert CreatedAt(events, ns, i);
    }
  }

  /** In every run there is a quota exactly if some event made it and none deleted it since. */
  lemma {:induction false} EveryRunQuotas(events: seq<Event>, ns: string)
    ensures ns in ApplyAll(map[], events) <==> QuotaThere(events, ns)
  {
    if events != [] {
      EveryRunQuotas(events[..|events| - 1], ns);
      CreatedNext(events, ns);
    }
  }

  lemma ChargedNext(events: seq<Event>, ns: string, uid: string)
    requires events != []
    ensures var before, last := events[..|events| - 1], events[|events| - 1];
            (exists i :: ChargedAt(events, ns, uid, i)) <==>
              || (Charging(last, ns, uid) && QuotaThere(events, ns))
              || (!Drops(last, ns) && !Releasing(last, ns, uid) && exists i :: ChargedAt(before, ns, uid, i))
  {
    var n := |events| - 1;
    var before := events[..n];
    assert events[..n + 1] == events;
    forall i | 0 <= i < n
      ensures ChargedAt(events, ns, uid, i) <==> ChargedAt(before, ns, uid, i) && !Drops(events[n], ns) && !Releasing(events[n], ns, uid)
    {
      assert before[..i + 1] == events[..i + 1];
    }
    if Charging(events[n], ns, uid) && QuotaThere(events, ns) {
      assert ChargedAt(events, ns, uid, n);
    }
  }

  /** In every run a quota counts a pod exactly if it was charged while the quota was there, and not released since. */
  lemma {:induction false} EveryRunCounts(events: seq<Event>, ns: string, uid: string)
    requires uid != ""
    ensures ns in ApplyAll(map[], events) && uid in ApplyAll(map[], events)[ns].pods <==> exists i :: ChargedAt(events, ns, uid, i)
  {
    if events != [] {
      var before, last := events[..|events| - 1], events[|events| - 1];
      EveryRunCounts(before, ns, uid);
      EveryRunQuotas(before, ns);
      EveryRunQuotas(events, ns);
      ChargedNext(events, ns, uid);
      CountsNext(ApplyAll(map[], before), last, ns, uid);
    }
  }

  /** A pod without a uid is never counted. */
  lemma {:induction false} EveryRunCountsUids(events: seq<Event>, ns: string)
    ensures ns in ApplyAll(map[], events) ==> "" !in ApplyAll(map[], events)[ns].pods
  {
    if events != [] {
      EveryRunCountsUids(events[..|events| - 1], ns);
    }
  }

  lemma CountsNext(quotas: Quotas, e: Event, ns: string, uid: string)
    requires uid != ""
    ensures var after := Apply(quotas, e);
            (ns in after && uid in after[ns].pods) <==>
              || (Charging(e, ns, uid) && ns in after)
              || (!Drops(e, ns) && !Releasing(e, ns, uid) && ns in quotas && uid in quotas[ns].pods)
  {
  }

  /** The bounds of a quota are those of its last update, or, if there was none, those it was made with. */
  lemma {:induction false} EveryRunBounds(events: seq<Event>, ns: string, i: nat, min: Resources, max: Resources)
    requires i < |events|
    requires || events[i] == QuotaUpdated(ns, min, max)
             || (ns !in ApplyAll(map[], events[..i]) &&
                   (events[i] == QuotaAdded(ns, min, max) || (events[i].PodAdded? && events[i].pod.namespace == ns && events[i].listed == Some((min, max)))))
    requires forall j :: i < j < |events| ==> !Drops(events[j], ns) && !(events[j].QuotaUpdated? && events[j].ns == ns)
    ensures ns in ApplyAll(map[], events)
    ensures ApplyAll(map[], events)[ns].min == min && ApplyAll(map[], events)[ns].max == max
  {
    var n := |events| - 1;
    if i < n {
      assert events[..n][..i] == events[..i];
      EveryRunBounds(events[..n], ns, i, min, max);
    }
  }

  // ---------------------------------------------------------------------------
  // Borrowed capacity

  /**
    If the request leaves its own quota within Min in a dimension, and yet pushes the aggregate over the
    summed Min there, then some other quota is over its Min, in that very dimension.
   */
  lemma SomeoneBorrows(quotas: Quotas, ns: string, x: Resources, d: Dimension) returns (other: string)
    requires ns in quotas && forall n :: n in quotas ==> NonNegative(quotas[n].min)
    requires At(x, d) + At(quotas[ns].used, d) <= At(quotas[ns].min, d)
    requires Sum(UsedBy(quotas, d)) + At(x, d) > Sum(MinOf(quotas, d))
    ensures other in quotas && other != ns && quotas[other].OverMin()
    ensures At(quotas[other].used, d) > At(quotas[other].min, d)
  {
    var used, min := UsedBy(quotas, d), MinOf(quotas, d);
    SumWithout(used, ns);
    SumWithout(min, ns);
    other := LargerTerm(used - {ns}, min - {ns});
    assert At(quotas[other].used, d) > At(quotas[other].min, d) >= 0;
    assert Names(quotas[other].used, d) && At(ZERO, d) == 0;
    ExceedsByDimension(quotas[other].used, ZERO, quotas[other].min);
  }

  /** With this request the total is over the summed Min in the dimension. */
  ghost predicate Short(quotas: Quotas, x: Resources, d: Dimension) {
    Sum(UsedBy(quotas, d)) + At(x, d) > Sum(MinOf(quotas, d))
  }

  ghost predicate HasBorrower(quotas: Quotas, ns: string, d: Dimension) {
    exists other :: other in quotas && other != ns && At(quotas[other].used, d) > At(quotas[other].min, d)
  }

  /** Whatever the other quotas are, if the total falls short there is one to reclaim from. */
  ghost predicate AlwaysBorrowed(ns: string, q: Quota, x: Resources, d: Dimension) {
    forall quotas: Quotas | ns in quotas && quotas[ns] == q && (forall n :: n in quotas ==> NonNegative(quotas[n].min)) ::
      Short(quotas, x, d) ==> HasBorrower(quotas, ns, d)
  }

  /** That is so exactly when the request leaves its own quota within Min in the dimension. */
  lemma AlwaysBorrowedIff(ns: string, q: Quota, x: Resources, d: Dimension)
    requires NonNegative(q.min)
    ensures AlwaysBorrowed(ns, q, x, d) <==> At(x, d) + At(q.used, d) <= At(q.min, d)
  {
    if At(x, d) + At(q.used, d) <= At(q.min, d) {
      forall quotas: Quotas | ns in quotas && quotas[ns] == q && (forall n :: n in quotas ==> NonNegative(quotas[n].min))
        ensures Short(quotas, x, d) ==> HasBorrower(quotas, ns, d)
      {
        if Short(quotas, x, d) {
          var other := SomeoneBorrows(quotas, ns, x, d);
        }
      }
    } else {
      var alone: Quotas := map[ns := q];
      SumWithout(UsedBy(alone, d), ns);
      SumWithout(MinOf(alone, d), ns);
      assert UsedBy(alone, d) - {ns} == map[] && MinOf(alone, d) - {ns} == map[];
      assert Short(alone, x, d) && !HasBorrower(alone, ns, d);
      assert ns in alone && alone[ns] == q;
    }
  }

  /** The preemptor's own check vouches for that in CPU, memory and every scalar the request names. */
  lemma NamedRequestHasBorrower(quotas: Quotas, ns: string, x: Resources, d: Dimension) returns (other: string)
    requires ns in quotas && forall n :: n in quotas ==> NonNegative(quotas[n].min)
    requires Names(x, d) && !quotas[ns].OverMinWith(x)
    requires Sum(UsedBy(quotas, d)) + At(x, d) > Sum(MinOf(quotas, d))
    ensures other in quotas && other != ns && quotas[other].OverMin()
  {
    ExceedsByDimension(x, quotas[ns].used, quotas[ns].min);
    other := SomeoneBorrows(quotas, ns, x, d);
  }

  /**
    For a scalar the request does not name the check vouches for nothing, and there may be no one to reclaim
    from: here the only quota is over its own Min, unnoticed because the request asks for CPU alone.
   */
  lemma UnnamedScalarHasNoBorrower()
    ensures var q := Quota(ZERO, ZERO, Resources(0, 0, map["gpu" := 1]), {});
            var quotas := map["a" := q];
            && AggregateOverMinWith(quotas, ZERO)
            && !q.OverMinWith(ZERO)
            && forall other :: other in quotas ==> other == "a"
  {
    var q := Quota(ZERO, ZERO, Resources(0, 0, map["gpu" := 1]), {});
    var quotas := map["a" := q];
    var d := Scalar("gpu");
    SumWithout(UsedBy(quotas, d), "a");
    SumWithout(MinOf(quotas, d), "a");
    assert UsedBy(quotas, d) - {"a"} == map[] && MinOf(quotas, d) - {"a"} == map[];
    assert Names(q.used, d) && At(q.used, d) == 1 && At(ZERO, d) == 0;
    assert OverMinAt(quotas, ZERO, d);
  }
}
