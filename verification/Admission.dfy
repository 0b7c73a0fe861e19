/**
  Admission by elastic quotas: PreFilter against Max and the summed Min, then Reserve. Over every run
  both bounds hold in every dimension, although the check against Max looks only at named scalars.
 */
module Admission {
  import opened Options
  import opened Pods
  import opened QuotaModel

  /** A nominated pod counts against the preemptor's own quota. */
  predicate CountsInQuota(quotas: Quotas, pod: PodInfo, p: PodInfo) {
    p.uid != pod.uid && p.namespace in quotas && p.namespace == pod.namespace && p.priority >= pod.priority
  }

  /** A nominated pod counts against the total. */
  predicate CountsInTotal(quotas: Quotas, pod: PodInfo, p: PodInfo) {
    || CountsInQuota(quotas, pod, p)
    || (p.uid != pod.uid && p.namespace in quotas && p.namespace != pod.namespace && !quotas[p.namespace].OverMin())
  }

  function NominatedInQuota(quotas: Quotas, pod: PodInfo, nominated: seq<PodInfo>): Resources {
    if nominated == [] then ZERO
    else
      var rest, p := NominatedInQuota(quotas, pod, nominated[..|nominated| - 1]), nominated[|nominated| - 1];
      if CountsInQuota(quotas, pod, p) then Plus(rest, p.request) else rest
  }

  function NominatedTotal(quotas: Quotas, pod: PodInfo, nominated: seq<PodInfo>): Resources {
    if nominated == [] then ZERO
    else
      var rest, p := NominatedTotal(quotas, pod, nominated[..|nominated| - 1]), nominated[|nominated| - 1];
      if CountsInTotal(quotas, pod, p) then Plus(rest, p.request) else rest
  }

  datatype Verdict = Success | OverMax | OverTotalMin

  /** `nominated`: the pods nominated to any node, in the order they are visited. */
  ghost function PreFilter(quotas: Quotas, pod: PodInfo, nominated: seq<PodInfo>): Verdict {
    if pod.namespace !in quotas then Success
    else if quotas[pod.namespace].OverMaxWith(Plus(NominatedInQuota(quotas, pod, nominated), pod.request)) then OverMax
    else if AggregateOverMinWith(quotas, Plus(NominatedTotal(quotas, pod, nominated), pod.request)) then OverTotalMin
    else Success
  }

  ghost predicate NonNegativePods(pods: seq<PodInfo>) {
    forall i :: 0 <= i < |pods| ==> NonNegative(pods[i].request)
  }

  lemma {:induction false} NominatedNonNegative(quotas: Quotas, pod: PodInfo, nominated: seq<PodInfo>)
    requires NonNegativePods(nominated)
    ensures NonNegative(NominatedInQuota(quotas, pod, nominated)) && NonNegative(NominatedTotal(quotas, pod, nominated))
  {
    if nominated != [] {
      NominatedNonNegative(quotas, pod, nominated[..|nominated| - 1]);
    } else {
      assert forall d :: At(ZERO, d) == 0;
    }
  }

  /**
    Which nominated pods count, one more at a time. Against the preemptor's own quota: those of its namespace with at
    least its priority. In total: those, and those of other namespaces whose quota does not use more than its Min.
   */
  lemma NomineeCounts(quotas: Quotas, pod: PodInfo, nominated: seq<PodInfo>, p: PodInfo, d: Dimension)
    requires BoundsNonNegative(quotas)
    ensures NominatedInQuota(quotas, pod, []) == ZERO && NominatedTotal(quotas, pod, []) == ZERO
    ensures At(NominatedInQuota(quotas, pod, nominated + [p]), d) == At(NominatedInQuota(quotas, pod, nominated), d) +
      if p.uid != pod.uid && p.namespace in quotas && p.namespace == pod.namespace && p.priority >= pod.priority then At(p.request, d) else 0
    ensures At(NominatedTotal(quotas, pod, nominated + [p]), d) == At(NominatedTotal(quotas, pod, nominated), d) +
      if p.uid != pod.uid && p.namespace in quotas
         && (if p.namespace == pod.namespace then p.priority >= pod.priority else !UsesMoreThanMin(quotas[p.namespace]))
      then At(p.request, d) else 0
  {
    assert (nominated + [p])[..|nominated|] == nominated;
    if p.namespace in quotas {
      OverMinIff(quotas[p.namespace]);
    }
  }

  /** With what is nominated ahead the pod stays within Max, in every resource that is named. */
  ghost predicate StaysWithinMax(quotas: Quotas, pod: PodInfo, nominated: seq<PodInfo>)
    requires pod.namespace in quotas
  {
    forall d :: Names(pod.request, d) || Names(NominatedInQuota(quotas, pod, nominated), d) ==>
      At(NominatedInQuota(quotas, pod, nominated), d) + At(pod.request, d) + At(quotas[pod.namespace].used, d) <= At(quotas[pod.namespace].max, d)
  }

  /** ... and the total within the summed Min, in every resource. */
  ghost predicate StaysWithinTotal(quotas: Quotas, pod: PodInfo, nominated: seq<PodInfo>) {
    forall d :: Sum(UsedBy(quotas, d)) + At(NominatedTotal(quotas, pod, nominated), d) + At(pod.request, d) <= Sum(MinOf(quotas, d))
  }

  /** What PreFilter decides: a pod passes exactly if it has no quota, or stays within both bounds; otherwise the first bound that is broken is named. */
  lemma PreFilterIff(quotas: Quotas, pod: PodInfo, nominated: seq<PodInfo>)
    requires BoundsNonNegative(quotas)
    ensures PreFilter(quotas, pod, nominated) == Success <==>
      pod.namespace in quotas ==> StaysWithinMax(quotas, pod, nominated) && StaysWithinTotal(quotas, pod, nominated)
    ensures PreFilter(quotas, pod, nominated) == OverMax <==> pod.namespace in quotas && !StaysWithinMax(quotas, pod, nominated)
  {
    if pod.namespace in quotas {
      var q := quotas[pod.namespace];
      var inQuota := Plus(NominatedInQuota(quotas, pod, nominated), pod.request);
      var total := Plus(NominatedTotal(quotas, pod, nominated), pod.request);
      ExceedsByDimension(inQuota, q.used, q.max);
      TotalByDimension(quotas, total);
    }
  }

  /** The aggregate check is the bound in every dimension. */
  lemma TotalByDimension(quotas: Quotas, x: Resources)
    requires BoundsNonNegative(quotas)
    ensures !AggregateOverMinWith(quotas, x) <==> forall d :: Sum(UsedBy(quotas, d)) + At(x, d) <= Sum(MinOf(quotas, d))
  {
    if !AggregateOverMinWith(quotas, x) {
      forall d
        ensures Sum(UsedBy(quotas, d)) + At(x, d) <= Sum(MinOf(quotas, d))
      {
        assert !OverMinAt(quotas, x, d);
        if !Names(x, d) && !(exists ns :: ns in quotas && Names(quotas[ns].used, d)) {
          SumMonotone(UsedBy(quotas, d), MinOf(quotas, d));
        }
      }
    }
  }

  // ---------------------------------------------------------------------------
  // Runs

  /** The quotas, and the pod that passed PreFilter in the cycle under way. */
  datatype Scheduler = Scheduler(quotas: Quotas, pending: Option<PodInfo>)

  /** A pod goes away: Unreserve, a delete event, or an update to a finished phase. */
  ghost predicate Released(s: Scheduler, t: Scheduler, p: PodInfo) {
    NonNegative(p.request) && t == Scheduler(DeletePodFrom(s.quotas, p), s.pending)
  }

  ghost predicate Passed(s: Scheduler, t: Scheduler, p: PodInfo, nominated: seq<PodInfo>) {
    && NonNegative(p.request) && NonNegativePods(nominated)
    && PreFilter(s.quotas, p, nominated) == Success
    && t == Scheduler(s.quotas, Some(p))
  }

  /** Pods enter only through PreFilter and Reserve; releases may fall between the two. */
  ghost predicate Step(s: Scheduler, t: Scheduler) {
    || (exists p, nominated :: Passed(s, t, p, nominated))
    || (s.pending.Some? && t == Scheduler(AddPodTo(s.quotas, s.pending.value), None))
    || t == s.(pending := None)
    || (exists p :: Released(s, t, p))
  }

  ghost predicate BoundsNonNegative(quotas: Quotas) {
    forall ns :: ns in quotas ==> NonNegative(quotas[ns].min) && NonNegative(quotas[ns].max)
  }

  /** Initially nothing is used. */
  ghost predicate Init(s: Scheduler) {
    && BoundsNonNegative(s.quotas) && s.pending.None?
    && forall ns :: ns in s.quotas ==> s.quotas[ns].used == ZERO
  }

  ghost predicate Run(states: seq<Scheduler>) {
    |states| > 0 && Init(states[0]) && forall i :: 0 <= i < |states| - 1 ==> Step(states[i], states[i + 1])
  }

  ghost predicate WithinMax(quotas: Quotas) {
    forall ns, d :: ns in quotas ==> At(quotas[ns].used, d) <= At(quotas[ns].max, d)
  }

  ghost predicate WithinTotalMin(quotas: Quotas, x: Resources) {
    forall d :: Sum(UsedBy(quotas, d)) + At(x, d) <= Sum(MinOf(quotas, d))
  }

  /** The pending pod still has room in its quota and in the total. */
  ghost predicate HasRoom(quotas: Quotas, p: PodInfo) {
    p.namespace in quotas ==>
      && (forall d :: Names(p.request, d) ==> At(p.request, d) + At(quotas[p.namespace].used, d) <= At(quotas[p.namespace].max, d))
      && WithinTotalMin(quotas, p.request)
  }

  ghost predicate Safe(s: Scheduler) {
    && BoundsNonNegative(s.quotas)
    && WithinMax(s.quotas)
    && WithinTotalMin(s.quotas, ZERO)
    && (s.pending.Some? ==> NonNegative(s.pending.value.request) && HasRoom(s.quotas, s.pending.value))
  }

  /** What a successful PreFilter means in every dimension. */
  lemma PreFilterGivesRoom(quotas: Quotas, p: PodInfo, nominated: seq<PodInfo>)
    requires NonNegative(p.request) && NonNegativePods(nominated) && BoundsNonNegative(quotas)
    requires PreFilter(quotas, p, nominated) == Success
    ensures HasRoom(quotas, p)
  {
    if p.namespace in quotas {
      NominatedNonNegative(quotas, p, nominated);
      var q := quotas[p.namespace];
      var inQuota := Plus(NominatedInQuota(quotas, p, nominated), p.request);
      var total := Plus(NominatedTotal(quotas, p, nominated), p.request);
      ExceedsByDimension(inQuota, q.used, q.max);
      forall d | Names(p.request, d)
        ensures At(p.request, d) + At(q.used, d) <= At(q.max, d)
      {
        assert Names(inQuota, d) && At(inQuota, d) >= At(p.request, d);
      }
      forall d
        ensures Sum(UsedBy(quotas, d)) + At(p.request, d) <= Sum(MinOf(quotas, d))
      {
        assert At(total, d) >= At(p.request, d);
        assert !OverMinAt(quotas, total, d);
        if !Names(total, d) && !(exists ns :: ns in quotas && Names(quotas[ns].used, d)) {
          assert !Names(p.request, d) && At(p.request, d) == 0;
          SumMonotone(UsedBy(quotas, d), MinOf(quotas, d));
        }
      }
    }
  }

  /** Changing one usage changes the total by the same amount. */
  lemma TotalWithQuota(quotas: Quotas, ns: string, q: Quota, d: Dimension)
    requires ns in quotas && q.min == quotas[ns].min
    ensures Sum(UsedBy(quotas[ns := q], d)) == Sum(UsedBy(quotas, d)) - At(quotas[ns].used, d) + At(q.used, d)
    ensures Sum(MinOf(quotas[ns := q], d)) == Sum(MinOf(quotas, d))
  {
    SumWith(UsedBy(quotas, d), ns, At(q.used, d));
    assert UsedBy(quotas[ns := q], d) == UsedBy(quotas, d)[ns := At(q.used, d)];
    assert MinOf(quotas[ns := q], d) == MinOf(quotas, d);
  }

  lemma ReserveSafe(quotas: Quotas, p: PodInfo)
    requires BoundsNonNegative(quotas) && WithinMax(quotas) && WithinTotalMin(quotas, ZERO)
    requires NonNegative(p.request) && HasRoom(quotas, p)
    ensures Safe(Scheduler(AddPodTo(quotas, p), None))
  {
    var after := AddPodTo(quotas, p);
    if p.namespace in quotas {
      var q := quotas[p.namespace];
      forall d
        ensures At(q.AddPod(p).used, d) <= At(q.max, d)
        ensures Sum(UsedBy(after, d)) + At(ZERO, d) <= Sum(MinOf(after, d))
      {
        TotalWithQuota(quotas, p.namespace, q.AddPod(p), d);
        assert At(q.used, d) <= At(q.max, d);
        assert Sum(UsedBy(quotas, d)) + At(ZERO, d) <= Sum(MinOf(quotas, d));
        assert !Names(p.request, d) ==> At(p.request, d) == 0;
      }
    }
  }

  /** A release lowers one usage and leaves the bounds alone. */
  lemma ReleaseLowers(quotas: Quotas, p: PodInfo, d: Dimension)
    requires NonNegative(p.request)
    ensures var after := DeletePodFrom(quotas, p);
            && after.Keys == quotas.Keys
            && (forall ns :: ns in quotas ==> after[ns].min == quotas[ns].min && after[ns].max == quotas[ns].max)
            && (forall ns :: ns in quotas ==> At(after[ns].used, d) <= At(quotas[ns].used, d))
            && Sum(UsedBy(after, d)) <= Sum(UsedBy(quotas, d)) && Sum(MinOf(after, d)) == Sum(MinOf(quotas, d))
  {
    hide Sum;
    if p.namespace in quotas {
      TotalWithQuota(quotas, p.namespace, quotas[p.namespace].DeletePod(p), d);
    }
  }

  lemma ReleaseSafe(s: Scheduler, p: PodInfo)
    requires Safe(s) && NonNegative(p.request)
    ensures Safe(Scheduler(DeletePodFrom(s.quotas, p), s.pending))
  {
    forall d { ReleaseLowers(s.quotas, p, d); }
    var after := DeletePodFrom(s.quotas, p);
    forall ns, d | ns in after
      ensures At(after[ns].used, d) <= At(after[ns].max, d)
    {
      assert At(s.quotas[ns].used, d) <= At(s.quotas[ns].max, d);
    }
    forall d
      ensures Sum(UsedBy(after, d)) + At(ZERO, d) <= Sum(MinOf(after, d))
    {
      assert Sum(UsedBy(s.quotas, d)) + At(ZERO, d) <= Sum(MinOf(s.quotas, d));
    }
    if s.pending.Some? && s.pending.value.namespace in after {
      var x := s.pending.value.request;
      forall d
        ensures Sum(UsedBy(after, d)) + At(x, d) <= Sum(MinOf(after, d))
      {
        assert Sum(UsedBy(s.quotas, d)) + At(x, d) <= Sum(MinOf(s.quotas, d));
      }
    }
  }

  lemma StepSafe(s: Scheduler, t: Scheduler)
    requires Safe(s) && Step(s, t)
    ensures Safe(t)
  {
    if p, nominated :| Passed(s, t, p, nominated) {
      PreFilterGivesRoom(s.quotas, p, nominated);
    } else if s.pending.Some? && t == Scheduler(AddPodTo(s.quotas, s.pending.value), None) {
      ReserveSafe(s.quotas, s.pending.value);
    } else if p :| Released(s, t, p) {
      ReleaseSafe(s, p);
    }
  }

  lemma InitSafe(s: Scheduler)
    requires Init(s)
    ensures Safe(s)
  {
    assert forall d :: At(ZERO, d) == 0;
    forall ns, d | ns in s.quotas
      ensures At(s.quotas[ns].used, d) <= At(s.quotas[ns].max, d)
    {
      assert At(s.quotas[ns].used, d) == 0 <= At(s.quotas[ns].max, d);
    }
    forall d
      ensures Sum(UsedBy(s.quotas, d)) <= Sum(MinOf(s.quotas, d))
    {
      forall ns | ns in s.quotas
        ensures At(s.quotas[ns].used, d) <= At(s.quotas[ns].min, d)
      {
        assert At(s.quotas[ns].used, d) == 0 <= At(s.quotas[ns].min, d);
      }
      SumMonotone(UsedBy(s.quotas, d), MinOf(s.quotas, d));
    }
  }

  /** In every state of every run each quota is within its Max and the total within the summed Min, in every dimension. */
  lemma {:induction false} EveryRunWithinBounds(states: seq<Scheduler>, i: nat)
    requires Run(states) && i < |states|
    ensures Safe(states[i])
  {
    if i > 0 {
      EveryRunWithinBounds(states, i - 1);
      StepSafe(states[i - 1], states[i]);
    } else {
      InitSafe(states[0]);
    }
  }
}
