/**
  Quota-aware victim selection on values: which pods of a node are candidates, and how they are
  reprieved while the snapshot of the quotas follows every removal and addition.
 */
module CapacityModel {
  import opened Pods
  import opened QuotaModel
  import opened Admission
  import Reprieve

  // ---------------------------------------------------------------------------
  // Collecting candidates

  /** From where candidates are taken. */
  datatype Mode =
    | OwnQuota    // the request takes the preemptor's quota over its Min: lower-priority pods of the same quota
    | OtherQuotas // it does not: pods of other quotas, as long as these are over their Min
    | Unquoted    // no quota for the preemptor: lower-priority pods without a quota

  predicate Takes(quotas: Quotas, preemptor: PodInfo, mode: Mode, p: PodInfo) {
    match mode
    case OwnQuota => p.namespace in quotas && p.namespace == preemptor.namespace && p.priority < preemptor.priority
    case OtherQuotas => p.namespace in quotas && p.namespace != preemptor.namespace && quotas[p.namespace].OverMin()
    case Unquoted => p.namespace !in quotas && p.priority < preemptor.priority
  }

  datatype Collection = Collection(taken: seq<PodInfo>, quotas: Quotas)

  /** The first `n` pods; each pod taken lowers its quota's usage before the next is looked at. */
  function Collect(quotas: Quotas, preemptor: PodInfo, mode: Mode, pods: seq<PodInfo>, n: nat): Collection
    requires n <= |pods|
  {
    if n == 0 then Collection([], quotas)
    else
      var c, p := Collect(quotas, preemptor, mode, pods, n - 1), pods[n - 1];
      if Takes(c.quotas, preemptor, mode, p)
      then Collection(c.taken + [p], DeletePodFrom(c.quotas, p))
      else c
  }

  ghost predicate SameBounds(q: Quotas, r: Quotas) {
    q.Keys == r.Keys && forall ns :: ns in q ==> q[ns].min == r[ns].min && q[ns].max == r[ns].max
  }

  lemma {:induction false} CollectBounds(quotas: Quotas, preemptor: PodInfo, mode: Mode, pods: seq<PodInfo>, n: nat)
    requires n <= |pods|
    ensures SameBounds(quotas, Collect(quotas, preemptor, mode, pods, n).quotas)
  {
    if n > 0 {
      CollectBounds(quotas, preemptor, mode, pods, n - 1);
    }
  }

  lemma {:induction false} CollectTaken(quotas: Quotas, preemptor: PodInfo, mode: Mode, pods: seq<PodInfo>, n: nat)
    requires n <= |pods| && DistinctUids(pods)
    ensures var taken := Collect(quotas, preemptor, mode, pods, n).taken;
            DistinctUids(taken) && Elements(taken) <= Elements(pods[..n])
  {
    if n > 0 {
      CollectTaken(quotas, preemptor, mode, pods, n - 1);
      Reprieve.NextIsNew(pods, n - 1);
      Reprieve.ElementsWith(pods[..n - 1], pods[n - 1]);
      assert pods[..n] == pods[..n - 1] + [pods[n - 1]];
      var taken := Collect(quotas, preemptor, mode, pods, n - 1).taken;
      Reprieve.ElementsWith(taken, pods[n - 1]);
      forall i | 0 <= i < |taken|
        ensures taken[i].uid != pods[n - 1].uid
      {
        assert taken[i] in Elements(taken);
      }
    }
  }

  lemma {:induction false} CollectGrows(quotas: Quotas, preemptor: PodInfo, mode: Mode, pods: seq<PodInfo>, m: nat, n: nat)
    requires m <= n <= |pods|
    ensures Collect(quotas, preemptor, mode, pods, m).taken <= Collect(quotas, preemptor, mode, pods, n).taken
    decreases n
  {
    if m < n {
      CollectGrows(quotas, preemptor, mode, pods, m, n - 1);
    }
  }

  /** A release never takes a quota over its Min, whatever scalars it brings into the books. */
  lemma ReleaseStaysUnder(q: Quota, p: PodInfo)
    requires !q.OverMin() && NonNegative(p.request) && NonNegative(q.min)
    ensures !q.DeletePod(p).OverMin()
  {
    assert forall d :: At(ZERO, d) == 0;
    ExceedsByDimension(q.used, ZERO, q.min);
    ExceedsByDimension(q.DeletePod(p).used, ZERO, q.min);
    forall d | Names(q.DeletePod(p).used, d)
      ensures At(q.DeletePod(p).used, d) + At(ZERO, d) <= At(q.min, d)
    {
      if !Names(q.used, d) {
        assert At(q.used, d) == 0 <= At(q.min, d);
      }
    }
  }

  /**
    After collecting from other quotas, a quota that still has a pod among those visited is no longer
    over its Min: it was within Min when that pod was passed over, and later removals only lower usage.
   */
  lemma {:induction false} PassedOverQuotasWithinMin(quotas: Quotas, preemptor: PodInfo, pods: seq<PodInfo>, n: nat, k: nat)
    requires k < n <= |pods| && DistinctUids(pods) && NonNegativePods(pods) && BoundsNonNegative(quotas)
    requires pods[k].namespace in quotas && pods[k].namespace != preemptor.namespace
    requires pods[k] !in Collect(quotas, preemptor, OtherQuotas, pods, n).taken
    ensures var c := Collect(quotas, preemptor, OtherQuotas, pods, n);
            pods[k].namespace in c.quotas && !c.quotas[pods[k].namespace].OverMin()
    decreases n
  {
    var before := Collect(quotas, preemptor, OtherQuotas, pods, n - 1);
    CollectBounds(quotas, preemptor, OtherQuotas, pods, n - 1);
    if k < n - 1 {
      PassedOverQuotasWithinMin(quotas, preemptor, pods, n - 1, k);
      var p, ns := pods[n - 1], pods[k].namespace;
      if Takes(before.quotas, preemptor, OtherQuotas, p) && p.namespace == ns {
        ReleaseStaysUnder(before.quotas[ns], p);
      }
    }
  }

  /** ... and whoever was taken came from a quota that was over its Min at that moment. */
  lemma {:induction false} TakenFromBorrower(quotas: Quotas, preemptor: PodInfo, pods: seq<PodInfo>, n: nat, p: PodInfo) returns (i: nat)
    requires n <= |pods| && p in Collect(quotas, preemptor, OtherQuotas, pods, n).taken
    ensures i < n && pods[i] == p
    ensures var then_ := Collect(quotas, preemptor, OtherQuotas, pods, i).quotas;
            p.namespace != preemptor.namespace && p.namespace in then_ && then_[p.namespace].OverMin()
  {
    var before := Collect(quotas, preemptor, OtherQuotas, pods, n - 1);
    if p in before.taken {
      i := TakenFromBorrower(quotas, preemptor, pods, n - 1, p);
    } else {
      i := n - 1;
    }
  }

  // ---------------------------------------------------------------------------
  // Who is in reach, in terms of the quotas before anyone is taken

  /** The amount leaves the quota within Min, in every resource it names. */
  ghost predicate WithinMin(q: Quota, x: Resources) {
    forall d :: Names(x, d) ==> At(x, d) + At(q.used, d) <= At(q.min, d)
  }

  /**
    Whom a preemptor may evict. Without a quota: pods without one, of lower priority. With a quota that its request, and what
    is nominated ahead of it, takes over Min: pods of the same quota, of lower priority. With a quota that
    stays within Min: pods of other quotas that use more than theirs, whatever their priority.
   */
  ghost predicate InReach(quotas: Quotas, preemptor: PodInfo, inQuota: Resources, p: PodInfo) {
    if preemptor.namespace !in quotas then
      p.namespace !in quotas && p.priority < preemptor.priority
    else if !WithinMin(quotas[preemptor.namespace], inQuota) then
      p.namespace == preemptor.namespace && p.priority < preemptor.priority
    else
      p.namespace in quotas && p.namespace != preemptor.namespace && UsesMoreThanMin(quotas[p.namespace])
  }

  function ModeFor(quotas: Quotas, preemptor: PodInfo, inQuota: Resources): Mode {
    if preemptor.namespace !in quotas then Unquoted
    else if quotas[preemptor.namespace].OverMinWith(inQuota) then OwnQuota
    else OtherQuotas
  }

  /** The test of the loop, on the quotas as they are at the start, asks exactly who is in reach. */
  lemma TakesIfInReach(quotas: Quotas, preemptor: PodInfo, inQuota: Resources, p: PodInfo)
    requires BoundsNonNegative(quotas)
    ensures Takes(quotas, preemptor, ModeFor(quotas, preemptor, inQuota), p) <==> InReach(quotas, preemptor, inQuota, p)
  {
    if preemptor.namespace in quotas {
      ExceedsByDimension(inQuota, quotas[preemptor.namespace].used, quotas[preemptor.namespace].min);
      if p.namespace in quotas {
        OverMinIff(quotas[p.namespace]);
      }
    }
  }

  /** Collecting only lowers usage. */
  lemma {:induction false} CollectLowers(quotas: Quotas, preemptor: PodInfo, mode: Mode, pods: seq<PodInfo>, n: nat, ns: string, d: Dimension)
    requires n <= |pods| && NonNegativePods(pods) && ns in quotas
    ensures ns in Collect(quotas, preemptor, mode, pods, n).quotas
    ensures At(Collect(quotas, preemptor, mode, pods, n).quotas[ns].used, d) <= At(quotas[ns].used, d)
  {
    if n > 0 {
      CollectLowers(quotas, preemptor, mode, pods, n - 1, ns, d);
    }
  }

  /** Whoever is taken, the test would have taken at the start. */
  lemma {:induction false} TakenAtStart(quotas: Quotas, preemptor: PodInfo, mode: Mode, pods: seq<PodInfo>, n: nat, p: PodInfo)
    requires n <= |pods| && p in Collect(quotas, preemptor, mode, pods, n).taken
    requires mode == OtherQuotas ==> NonNegativePods(pods) && BoundsNonNegative(quotas)
    ensures Takes(quotas, preemptor, mode, p)
  {
    var before, last := Collect(quotas, preemptor, mode, pods, n - 1), pods[n - 1];
    if p in before.taken {
      TakenAtStart(quotas, preemptor, mode, pods, n - 1, p);
    } else {
      CollectBounds(quotas, preemptor, mode, pods, n - 1);
      if mode == OtherQuotas {
        OverMinIff(before.quotas[p.namespace]);
        OverMinIff(quotas[p.namespace]);
        var d :| At(before.quotas[p.namespace].used, d) > At(before.quotas[p.namespace].min, d);
        CollectLowers(quotas, preemptor, mode, pods, n - 1, p.namespace, d);
      }
    }
  }

  /** Nobody is taken exactly when the test would take nobody at the start. */
  lemma {:induction false} NoneTakenIff(quotas: Quotas, preemptor: PodInfo, mode: Mode, pods: seq<PodInfo>, n: nat)
    requires n <= |pods|
    ensures var c := Collect(quotas, preemptor, mode, pods, n);
            && (c.taken == [] <==> forall p :: p in pods[..n] ==> !Takes(quotas, preemptor, mode, p))
            && (c.taken == [] ==> c.quotas == quotas)
  {
    if n > 0 {
      NoneTakenIff(quotas, preemptor, mode, pods, n - 1);
      assert pods[..n] == pods[..n - 1] + [pods[n - 1]];
    }
  }

  /** By priority everyone the test takes at the start is taken. */
  lemma {:induction false} AllTakenByPriority(quotas: Quotas, preemptor: PodInfo, mode: Mode, pods: seq<PodInfo>, n: nat, p: PodInfo)
    requires n <= |pods| && mode != OtherQuotas && p in pods[..n] && Takes(quotas, preemptor, mode, p)
    ensures p in Collect(quotas, preemptor, mode, pods, n).taken
  {
    CollectBounds(quotas, preemptor, mode, pods, n - 1);
    assert pods[..n] == pods[..n - 1] + [pods[n - 1]];
    if p in pods[..n - 1] {
      AllTakenByPriority(quotas, preemptor, mode, pods, n - 1, p);
    }
  }

  // ---------------------------------------------------------------------------
  // The snapshot follows the node

  /** One amount of the requests of a namespace's pods. */
  ghost function Loads(pods: set<PodInfo>, ns: string, d: Dimension): map<PodInfo, int> {
    map p | p in pods && p.namespace == ns :: At(p.request, d)
  }

  ghost function UidsOf(pods: set<PodInfo>, ns: string): set<string> {
    set p | p in pods && p.namespace == ns :: p.uid
  }

  /** The quota of its namespace counts the pod. Pods older than their quota are not counted. */
  ghost predicate Counts(quotas: Quotas, p: PodInfo) {
    p.namespace in quotas && p.uid != "" && p.uid in quotas[p.namespace].pods
  }

  ghost function CountedIn(quotas: Quotas, pods: set<PodInfo>): set<PodInfo> {
    set p | p in pods && Counts(quotas, p)
  }

  /** `now` is `before` less exactly those pods that are off the node and were counted. */
  ghost predicate Reflects(before: Quotas, now: Quotas, off: set<PodInfo>) {
    SameBounds(before, now) && forall ns :: ns in before ==> Follows(before[ns], now[ns], CountedIn(before, off), ns)
  }

  ghost predicate Follows(before: Quota, now: Quota, off: set<PodInfo>, ns: string) {
    && now.pods == before.pods - UidsOf(off, ns)
    && forall d :: At(now.used, d) == At(before.used, d) - Sum(Loads(off, ns, d))
  }

  ghost predicate UidsTellApart(pods: set<PodInfo>) {
    forall p, q :: p in pods && q in pods && p.uid == q.uid ==> p == q
  }

  lemma ReflectsNothing(before: Quotas)
    ensures Reflects(before, before, {})
  {
    assert CountedIn(before, {}) == {};
    forall ns | ns in before
      ensures Follows(before[ns], before[ns], {}, ns)
    {
      forall d
        ensures Sum(Loads({}, ns, d)) == 0
      {
        assert Loads({}, ns, d) == map[];
      }
      assert UidsOf({}, ns) == {};
    }
  }

  lemma LoadsWith(off: set<PodInfo>, p: PodInfo, ns: string, d: Dimension)
    requires p !in off
    ensures Sum(Loads(off + {p}, ns, d)) == Sum(Loads(off, ns, d)) + if p.namespace == ns then At(p.request, d) else 0
  {
    if p.namespace == ns {
      SumWith(Loads(off, ns, d), p, At(p.request, d));
      assert Loads(off + {p}, ns, d) == Loads(off, ns, d)[p := At(p.request, d)];
    } else {
      assert Loads(off + {p}, ns, d) == Loads(off, ns, d);
    }
  }

  /** Other namespaces do not notice. */
  lemma FollowsElsewhere(before: Quota, now: Quota, off: set<PodInfo>, p: PodInfo, ns: string)
    requires p !in off && p.namespace != ns
    ensures Follows(before, now, off, ns) <==> Follows(before, now, off + {p}, ns)
  {
    forall d
      ensures Sum(Loads(off + {p}, ns, d)) == Sum(Loads(off, ns, d))
    {
      LoadsWith(off, p, ns, d);
    }
    assert UidsOf(off + {p}, ns) == UidsOf(off, ns);
  }

  lemma FollowsRemoval(before: Quota, now: Quota, off: set<PodInfo>, p: PodInfo)
    requires Follows(before, now, off, p.namespace) && p !in off && p.uid != "" && p.uid in before.pods && UidsTellApart(off + {p})
    ensures Follows(before, now.DeletePod(p), off + {p}, p.namespace)
  {
    var ns := p.namespace;
    forall d
      ensures Sum(Loads(off + {p}, ns, d)) == Sum(Loads(off, ns, d)) + At(p.request, d)
    {
      LoadsWith(off, p, ns, d);
    }
    assert p.uid !in UidsOf(off, ns);
    assert UidsOf(off + {p}, ns) == UidsOf(off, ns) + {p.uid};
  }

  lemma ReflectsRemoval(before: Quotas, now: Quotas, off: set<PodInfo>, p: PodInfo)
    requires Reflects(before, now, off) && p !in off && UidsTellApart(off + {p})
    ensures Reflects(before, DeletePodFrom(now, p), off + {p})
  {
    var after, counted := DeletePodFrom(now, p), CountedIn(before, off);
    if Counts(before, p) {
      assert CountedIn(before, off + {p}) == counted + {p};
      forall ns | ns in before
        ensures Follows(before[ns], after[ns], counted + {p}, ns)
      {
        if p.namespace == ns {
          FollowsRemoval(before[ns], now[ns], counted, p);
        } else {
          FollowsElsewhere(before[ns], now[ns], counted, p, ns);
        }
      }
    } else {
      assert CountedIn(before, off + {p}) == counted;
      assert after == now;
    }
  }

  lemma {:induction false} CollectReflects(quotas: Quotas, preemptor: PodInfo, mode: Mode, pods: seq<PodInfo>, n: nat)
    requires n <= |pods| && DistinctUids(pods)
    ensures var c := Collect(quotas, preemptor, mode, pods, n);
            Reflects(quotas, c.quotas, Elements(c.taken))
  {
    if n == 0 {
      ReflectsNothing(quotas);
      assert Elements<PodInfo>([]) == {};
    } else {
      CollectReflects(quotas, preemptor, mode, pods, n - 1);
      CollectTaken(quotas, preemptor, mode, pods, n);
      CollectTaken(quotas, preemptor, mode, pods, n - 1);
      Reprieve.NextIsNew(pods, n - 1);
      var c, p := Collect(quotas, preemptor, mode, pods, n - 1), pods[n - 1];
      if Takes(c.quotas, preemptor, mode, p) {
        Reprieve.ElementsWith(c.taken, p);
        TellApart(c.taken + [p]);
        ReflectsRemoval(quotas, c.quotas, Elements(c.taken), p);
      }
    }
  }

  ghost predicate AllAbsent(quotas: Quotas, pods: seq<PodInfo>) {
    forall p :: p in pods ==> Absent(quotas, p)
  }

  lemma DeletedAbsent(quotas: Quotas, p: PodInfo, q: PodInfo)
    requires p == q || Absent(quotas, q)
    ensures Absent(DeletePodFrom(quotas, p), q)
  {
  }

  /** Whoever was taken is no longer counted. */
  lemma {:induction false} CollectAbsent(quotas: Quotas, preemptor: PodInfo, mode: Mode, pods: seq<PodInfo>, n: nat)
    requires n <= |pods|
    ensures var c := Collect(quotas, preemptor, mode, pods, n); AllAbsent(c.quotas, c.taken)
  {
    if n > 0 {
      CollectAbsent(quotas, preemptor, mode, pods, n - 1);
      var before, last := Collect(quotas, preemptor, mode, pods, n - 1), pods[n - 1];
      if Takes(before.quotas, preemptor, mode, last) {
        forall p | p in before.taken + [last]
          ensures Absent(DeletePodFrom(before.quotas, last), p)
        {
          assert p in before.taken || p == last;
          DeletedAbsent(before.quotas, last, p);
        }
      }
    }
  }

  lemma TellApart(pods: seq<PodInfo>)
    requires DistinctUids(pods)
    ensures UidsTellApart(Elements(pods))
  {
    forall p, q | p in Elements(pods) && q in Elements(pods) && p.uid == q.uid
      ensures p == q
    {
      var i :| 0 <= i < |pods| && pods[i] == p;
      var j :| 0 <= j < |pods| && pods[j] == q;
    }
  }

  // ---------------------------------------------------------------------------
  // Reprieve

  /** What stays fixed while candidates are reprieved. */
  datatype Context = Context(
    fits: set<PodInfo> -> bool,
    base: set<PodInfo>,      // the pods that are no candidates
    ns: string,              // the preemptor's namespace
    inQuota: Resources,      // its request and that of nominated pods ahead of it in its quota
    total: Resources)        // its request and that of nominated pods that count in total
  {
    /** The preemptor has a quota and, with the nominated pods, no room in it or in the total. */
    ghost predicate OverQuota(quotas: Quotas) {
      ns in quotas && (quotas[ns].OverMaxWith(inQuota) || AggregateOverMinWith(quotas, total))
    }

    /** Under a quota, what is tested covers the preemptor's own request. */
    ghost predicate CountsRequest(quotas: Quotas, request: Resources) {
      ns in quotas ==> Covers(inQuota, request) && Covers(total, request)
    }
  }

  datatype Progress =
    | Failed
    | Going(kept: set<PodInfo>, victims: seq<PodInfo>, misfits: nat, quotas: Quotas)

  /**
    `reprievePod`. A pod that does not fit comes off the node, and then the quota check runs all the
    same: if it also finds the quotas exceeded it removes the pod a second time, which fails.
   */
  ghost function TryReprieve(c: Context, g: Progress, p: PodInfo): Progress
    requires g.Going?
  {
    var added := AddPodTo(g.quotas, p);
    var back := DeletePodFrom(added, p);
    if !c.fits(c.base + g.kept + {p}) then
      if c.OverQuota(back) then Failed else Going(g.kept, g.victims + [p], g.misfits + 1, back)
    else if c.OverQuota(added) then Going(g.kept, g.victims + [p], g.misfits, back)
    else Going(g.kept + {p}, g.victims, g.misfits, added)
  }

  ghost function ReprieveAll(c: Context, quotas: Quotas, order: seq<PodInfo>, n: nat): Progress
    requires n <= |order|
  {
    if n == 0 then Going({}, [], 0, quotas)
    else
      var g := ReprieveAll(c, quotas, order, n - 1);
      if g.Failed? then Failed else TryReprieve(c, g, order[n - 1])
  }

  lemma ReprieveNone(c: Context, quotas: Quotas, order: seq<PodInfo>)
    ensures ReprieveAll(c, quotas, order, 0) == Going({}, [], 0, quotas)
  {
  }

  lemma ReprieveNext(c: Context, quotas: Quotas, order: seq<PodInfo>, n: nat)
    requires n < |order|
    ensures ReprieveAll(c, quotas, order, n).Failed? ==> ReprieveAll(c, quotas, order, n + 1).Failed?
    ensures ReprieveAll(c, quotas, order, n).Going? ==>
      ReprieveAll(c, quotas, order, n + 1) == TryReprieve(c, ReprieveAll(c, quotas, order, n), order[n])
  {
  }

  /** Everyone in `done` was kept or made a victim, once, and the preemptor fits beside those kept. */
  ghost predicate Settled(c: Context, g: Progress, done: set<PodInfo>) {
    && g.Going?
    && g.kept + Elements(g.victims) == done && g.kept !! Elements(g.victims)
    && DistinctUids(g.victims) && g.misfits <= |g.victims|
    && c.fits(c.base + g.kept)
  }

  lemma TrySettles(c: Context, g: Progress, p: PodInfo, done: set<PodInfo>)
    requires Settled(c, g, done) && TryReprieve(c, g, p).Going? && forall q :: q in done ==> q.uid != p.uid
    ensures Settled(c, TryReprieve(c, g, p), done + {p})
  {
    assert Elements(g.victims + [p]) == Elements(g.victims) + {p};
    assert c.base + (g.kept + {p}) == c.base + g.kept + {p};
    forall i | 0 <= i < |g.victims|
      ensures g.victims[i].uid != p.uid
    {
      assert g.victims[i] in Elements(g.victims);
    }
  }

  /** On success every candidate was either kept or listed as a victim, once; and the preemptor fits. */
  lemma {:induction false} ReprievePartitions(c: Context, quotas: Quotas, order: seq<PodInfo>, n: nat)
    requires n <= |order| && DistinctUids(order) && c.fits(c.base)
    requires ReprieveAll(c, quotas, order, n).Going?
    ensures Settled(c, ReprieveAll(c, quotas, order, n), Elements(order[..n]))
  {
    hide ReprieveAll, TryReprieve;
    if n == 0 {
      ReprieveNone(c, quotas, order);
      assert c.base + {} == c.base;
    } else {
      ReprieveNext(c, quotas, order, n - 1);
      ReprievePartitions(c, quotas, order, n - 1);
      Reprieve.NextIsNew(order, n - 1);
      TrySettles(c, ReprieveAll(c, quotas, order, n - 1), order[n - 1], Elements(order[..n - 1]));
      Reprieve.ElementsWith(order[..n - 1], order[n - 1]);
      assert order[..n] == order[..n - 1] + [order[n - 1]];
    }
  }

  /** The aggregate check is the bound in every dimension. */
  lemma AggregateIsTotal(quotas: Quotas, x: Resources)
    requires BoundsNonNegative(quotas)
    ensures !AggregateOverMinWith(quotas, x) <==> WithinTotalMin(quotas, x)
  {
    TotalByDimension(quotas, x);
  }

  /** Room for the preemptor's own request: in its quota where it names the resource, and in total. */
  ghost predicate RoomFor(quotas: Quotas, ns: string, x: Resources) {
    ns in quotas ==> !quotas[ns].OverMaxWith(x) && WithinTotalMin(quotas, x)
  }

  /** `x` asks for at least as much as `y`, and names at least as much. */
  ghost predicate Covers(x: Resources, y: Resources) {
    forall d :: At(x, d) >= At(y, d) && (Names(y, d) ==> Names(x, d))
  }

  lemma NotOverGivesRoom(c: Context, quotas: Quotas, request: Resources)
    requires BoundsNonNegative(quotas) && c.CountsRequest(quotas, request)
    requires !c.OverQuota(quotas)
    ensures RoomFor(quotas, c.ns, request)
  {
    if c.ns in quotas {
      AggregateIsTotal(quotas, c.total);
      ExceedsByDimension(c.inQuota, quotas[c.ns].used, quotas[c.ns].max);
      ExceedsByDimension(request, quotas[c.ns].used, quotas[c.ns].max);
      forall d
        ensures Sum(UsedBy(quotas, d)) + At(request, d) <= Sum(MinOf(quotas, d))
      {
        assert Sum(UsedBy(quotas, d)) + At(c.total, d) <= Sum(MinOf(quotas, d));
      }
    }
  }

  /** The same amounts everywhere, though more scalars may be named. */
  ghost predicate SameAmounts(q: Quotas, r: Quotas) {
    SameBounds(q, r) && forall ns, d :: ns in q ==> At(q[ns].used, d) == At(r[ns].used, d)
  }

  lemma RoomByAmounts(q: Quotas, r: Quotas, ns: string, x: Resources)
    requires SameAmounts(q, r) && RoomFor(q, ns, x)
    ensures RoomFor(r, ns, x)
  {
    if ns in q {
      ExceedsByDimension(x, q[ns].used, q[ns].max);
      ExceedsByDimension(x, r[ns].used, r[ns].max);
      forall d
        ensures Sum(UsedBy(r, d)) + At(x, d) <= Sum(MinOf(r, d))
      {
        assert UsedBy(q, d) == UsedBy(r, d) && MinOf(q, d) == MinOf(r, d);
        assert Sum(UsedBy(q, d)) + At(x, d) <= Sum(MinOf(q, d));
      }
    }
  }

  /** The quotas do not count the pod. A pod without a uid is never counted. */
  ghost predicate Absent(quotas: Quotas, p: PodInfo) {
    p.namespace in quotas ==> p.uid == "" || p.uid !in quotas[p.namespace].pods
  }

  /** Putting a pod back and taking it off again restores every amount. */
  lemma AddThenDelete(quotas: Quotas, p: PodInfo)
    requires Absent(quotas, p)
    ensures SameAmounts(quotas, DeletePodFrom(AddPodTo(quotas, p), p))
    ensures forall ns :: ns in quotas ==> DeletePodFrom(AddPodTo(quotas, p), p)[ns].pods == quotas[ns].pods
  {
    if p.namespace in quotas && p.uid != "" {
      assert quotas[p.namespace].pods + {p.uid} - {p.uid} == quotas[p.namespace].pods;
    }
  }
}
