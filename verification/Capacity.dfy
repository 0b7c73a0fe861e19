/** The CapacityScheduling plugin: PreFilter, and victim selection on a node and a snapshot of the quotas. */
module Capacity {
  import opened Options
  import opened Pods
  import opened NodeInfos
  import opened QuotaModel
  import opened Admission
  import opened CapacityModel
  import opened QuotaReprieve
  import opened ElasticQuotas
  import opened Disruption
  import T = Toleration
  import Reprieve

  /** What PreFilter leaves for the later steps of the cycle. */
  datatype CycleState = CycleState(request: Resources, inQuota: Resources, total: Resources)

  /** The sums of PreFilter; for a pod without a quota only its request is kept. */
  ghost predicate StateFor(quotas: Quotas, pod: PodInfo, nominated: seq<PodInfo>, state: CycleState) {
    && state.request == pod.request
    && (pod.namespace in quotas ==>
          && state.inQuota == Plus(NominatedInQuota(quotas, pod, nominated), pod.request)
          && state.total == Plus(NominatedTotal(quotas, pod, nominated), pod.request))
  }

  /** Nominated pods are visited once; the verdict is that of the two checks. */
  method RunPreFilter(ledger: Ledger, pod: PodInfo, nominated: seq<PodInfo>) returns (verdict: Verdict, state: CycleState)
    requires ledger.Valid()
    ensures verdict == PreFilter(ledger.quotas, pod, nominated)
    ensures StateFor(ledger.quotas, pod, nominated, state)
  {
    if pod.namespace !in ledger.infos {
      return Success, CycleState(pod.request, ZERO, ZERO);
    }
    var inQuota, total := ZERO, ZERO;
    for i := 0 to |nominated|
      invariant inQuota == NominatedInQuota(ledger.quotas, pod, nominated[..i])
      invariant total == NominatedTotal(ledger.quotas, pod, nominated[..i])
    {
      assert nominated[..i + 1][..i] == nominated[..i];
      var p := nominated[i];
      if p.uid != pod.uid && p.namespace in ledger.infos {
        if p.namespace == pod.namespace && p.priority >= pod.priority {
          inQuota := Plus(inQuota, p.request);
          total := Plus(total, p.request);
        } else if p.namespace != pod.namespace && !ledger.infos[p.namespace].View().OverMin() {
          total := Plus(total, p.request);
        }
      }
    }
    assert nominated[..|nominated|] == nominated;
    inQuota, total := Plus(inQuota, pod.request), Plus(total, pod.request);
    state := CycleState(pod.request, inQuota, total);
    if ledger.infos[pod.namespace].View().OverMaxWith(inQuota) {
      return OverMax, state;
    }
    var over := ledger.AggregatedUsedOverMinWith(total);
    if over {
      return OverTotalMin, state;
    }
    return Success, state;
  }

  /** What PreFilter counted for the preemptor covers its own request. */
  lemma PreFilterCovers(quotas: Quotas, pod: PodInfo, nominated: seq<PodInfo>, state: CycleState, fits: Reprieve.Fits, base: set<PodInfo>)
    requires NonNegativePods(nominated) && StateFor(quotas, pod, nominated, state)
    ensures ContextFor(fits, base, pod, state).CountsRequest(quotas, state.request)
  {
    NominatedNonNegative(quotas, pod, nominated);
  }

  // ---------------------------------------------------------------------------

  /** `removePod`: off the node, and out of the snapshot; fails when the pod has no uid or is not on the node. */
  method RemovePod(node: NodeInfo, snapshot: Ledger, p: PodInfo) returns (ok: bool)
    requires node.Valid() && snapshot.Valid() && Apart(node, snapshot)
    requires p in node.Contents || T.NotOn(p, node.Contents)
    modifies node`length, node`Contents, node.buffer, snapshot`quotas, snapshot.Repr
    ensures node.Valid() && snapshot.Valid() && snapshot.Repr == old(snapshot.Repr)
    ensures ok <==> p.uid != "" && p in old(node.Contents)
    ensures node.Contents == if ok then old(node.Contents) - {p} else old(node.Contents)
    ensures snapshot.quotas == if ok then DeletePodFrom(old(snapshot.quotas), p) else old(snapshot.quotas)
  {
    hide Ledger.Valid, DeletePodFrom;
    ghost var k;
    ghost var pods := node.Pods();
    assert forall i :: 0 <= i < node.length ==> node.buffer[i] == pods[i] && pods[i] in node.Contents;
    ok, k := node.RemovePod(p);
    if ok {
      snapshot.Delete(p);
    }
  }

  /** The node and the snapshot share no memory. */
  ghost predicate Apart(node: NodeInfo, snapshot: Ledger)
    reads node, snapshot
  {
    node !in snapshot.Repr && node.buffer !in snapshot.Repr
  }

  // ---------------------------------------------------------------------------
  // Collecting candidates

  /**
    The node's pods are sorted in place by a comparison that is no ordering (it holds of a pod and
    itself), so nothing is known of the order they end up in.
   */
  method Reorder(node: NodeInfo)
    requires node.Valid()
    modifies node.buffer
    ensures node.Valid()
  {
    var swaps: nat :| true;
    for s := 0 to swaps
      invariant node.Valid()
    {
      var i: nat, j: nat :| true;
      if i < j < node.length {
        SwapKeeps(node.Pods(), i, j);
        ghost var swapped := node.Pods()[i := node.buffer[j]][j := node.buffer[i]];
        node.buffer[i], node.buffer[j] := node.buffer[j], node.buffer[i];
        assert node.buffer[..node.length] == swapped;
      }
    }
  }

  lemma SwapKeeps(pods: seq<PodInfo>, i: nat, j: nat)
    requires i < j < |pods| && DistinctUids(pods)
    ensures var t := pods[i := pods[j]][j := pods[i]];
            DistinctUids(t) && Elements(t) == Elements(pods)
  {
    var t := pods[i := pods[j]][j := pods[i]];
    forall k | 0 <= k < |pods|
      ensures pods[k] in t
    {
      assert t[if k == i then j else if k == j then i else k] == pods[k];
    }
  }

  /** Whether the pod is taken, by the snapshot as it stands. */
  method CheckTakes(snapshot: Ledger, preemptor: PodInfo, mode: Mode, p: PodInfo) returns (takes: bool)
    requires snapshot.Valid()
    ensures takes == Takes(snapshot.quotas, preemptor, mode, p)
  {
    match mode {
      case OwnQuota =>
        return p.namespace in snapshot.infos && p.namespace == preemptor.namespace && p.priority < preemptor.priority;
      case OtherQuotas =>
        return p.namespace in snapshot.infos && p.namespace != preemptor.namespace && snapshot.infos[p.namespace].View().OverMin();
      case Unquoted =>
        return p.namespace !in snapshot.infos && p.priority < preemptor.priority;
    }
  }

  /** The ranging loop is about to visit pod `i` of the original list. */
  ghost predicate Visiting(node: NodeInfo, snapshot: Ledger, orig: seq<PodInfo>, i: nat, taken: seq<PodInfo>)
    reads node, node.buffer, snapshot, snapshot.Repr
  {
    && node.Valid() && snapshot.Valid() && Apart(node, snapshot)
    && DistinctUids(orig) && |orig| <= node.buffer.Length
    && Ranging(orig, node.buffer[..|orig|], node.length, i, taken)
  }

  method VisitPod(node: NodeInfo, snapshot: Ledger, p: PodInfo, preemptor: PodInfo, mode: Mode,
                  ghost orig: seq<PodInfo>, ghost i: nat, ghost taken: seq<PodInfo>)
    returns (takes: bool, ok: bool)
    requires Visiting(node, snapshot, orig, i, taken) && i < |orig| && p == orig[i]
    modifies node`length, node`Contents, node.buffer, snapshot`quotas, snapshot.Repr
    ensures snapshot.Repr == old(snapshot.Repr) && node.Valid() && snapshot.Valid()
    ensures takes == Takes(old(snapshot.quotas), preemptor, mode, p)
    ensures ok <==> takes ==> p.uid != ""
    ensures ok ==> Visiting(node, snapshot, orig, i + 1, if takes then taken + [p] else taken)
    ensures ok ==> snapshot.quotas == if takes then DeletePodFrom(old(snapshot.quotas), p) else old(snapshot.quotas)
  {
    takes := CheckTakes(snapshot, preemptor, mode, p);
    ok := true;
    if takes {
      ok := TakeVisited(node, p, orig, i, taken);
      if ok {
        snapshot.Delete(p);
      }
    } else {
      RangeSkip(orig, node.buffer[..|orig|], node.length, i, taken);
    }
  }

  lemma CollectNone(quotas: Quotas, preemptor: PodInfo, mode: Mode, pods: seq<PodInfo>) returns (c: Collection)
    ensures c == Collect(quotas, preemptor, mode, pods, 0) == Collection([], quotas)
  {
    c := Collection([], quotas);
  }

  lemma CollectNext(quotas: Quotas, preemptor: PodInfo, mode: Mode, pods: seq<PodInfo>, n: nat, c: Collection) returns (next: Collection)
    requires n < |pods| && c == Collect(quotas, preemptor, mode, pods, n)
    ensures next == Collect(quotas, preemptor, mode, pods, n + 1)
    ensures next == if Takes(c.quotas, preemptor, mode, pods[n])
                    then Collection(c.taken + [pods[n]], DeletePodFrom(c.quotas, pods[n])) else c
  {
    next := Collect(quotas, preemptor, mode, pods, n + 1);
  }

  /**
    The loop ranges over the node's pods while it removes them, and over quotas whose usage it changes. It breaks off
    at a pod without a uid that it is to take.
   */
  method CollectCandidates(node: NodeInfo, snapshot: Ledger, preemptor: PodInfo, mode: Mode) returns (taken: seq<PodInfo>, ok: bool)
    requires node.Valid() && snapshot.Valid() && Apart(node, snapshot)
    modifies node`length, node`Contents, node.buffer, snapshot`quotas, snapshot.Repr
    ensures node.Valid() && snapshot.Valid() && snapshot.Repr == old(snapshot.Repr)
    ensures var col := Collect(old(snapshot.quotas), preemptor, mode, old(node.Pods()), old(node.length));
            && (ok <==> HasUids(col.taken))
            && (ok ==> Collection(taken, snapshot.quotas) == col && node.Contents == old(node.Contents) - Elements(taken))
  {
    hide Collect, Takes, DeletePodFrom, Ledger.Valid, Ranging;
    taken := [];
    ghost var orig, before := node.Pods(), snapshot.quotas;
    ghost var c := CollectNone(before, preemptor, mode, orig);
    var cells, n := node.buffer, node.length;
    assert cells[..n] == orig;
    RangeStart(orig);
    for i := 0 to n
      invariant node.buffer == cells && snapshot.Repr == old(snapshot.Repr)
      invariant Visiting(node, snapshot, orig, i, taken)
      invariant c == Collect(before, preemptor, mode, orig, i) && taken == c.taken && snapshot.quotas == c.quotas && HasUids(taken)
    {
      var p := cells[i];
      RangeSkip(orig, cells[..n], node.length, i, taken);
      assert p == cells[..n][i] == orig[i];
      var takes, removed := VisitPod(node, snapshot, p, preemptor, mode, orig, i, taken);
      c := CollectNext(before, preemptor, mode, orig, i, c);
      if !removed {
        CollectGrows(before, preemptor, mode, orig, i + 1, n);
        assert c.taken[|taken|] == p;
        return taken, false;
      }
      if takes {
        taken := taken + [p];
      }
    }
    ok := true;
    RangeEnd(orig, cells[..n], node.length, n, taken);
    assert cells[..n][..node.length] == node.Pods();
  }

  // ---------------------------------------------------------------------------
  // Reprieve

  /** The preemptor's quota, or the total, has no room for the amount. */
  method CheckOver(snapshot: Ledger, ns: string, inQuota: Resources, total: Resources) returns (over: bool)
    requires snapshot.Valid()
    ensures over <==> ns in snapshot.quotas && (snapshot.quotas[ns].OverMaxWith(inQuota) || AggregateOverMinWith(snapshot.quotas, total))
  {
    if ns !in snapshot.infos {
      return false;
    }
    if snapshot.infos[ns].View().OverMaxWith(inQuota) {
      return true;
    }
    over := snapshot.AggregatedUsedOverMinWith(total);
  }

  method AddPod(node: NodeInfo, snapshot: Ledger, p: PodInfo)
    requires node.Valid() && snapshot.Valid() && Apart(node, snapshot) && T.NotOn(p, node.Contents)
    modifies node, node.buffer, snapshot`quotas, snapshot.Repr
    ensures node.Valid() && snapshot.Valid() && snapshot.Repr == old(snapshot.Repr)
    ensures node.buffer == old(node.buffer) || fresh(node.buffer)
    ensures node.Contents == old(node.Contents) + {p}
    ensures snapshot.quotas == AddPodTo(old(snapshot.quotas), p)
  {
    node.AddPodInfo(p);
    var _ := snapshot.Add(p);
  }

  /** The state of node and snapshot is that of the reprieve so far. */
  ghost predicate Standing(node: NodeInfo, snapshot: Ledger, c: Context, g: Progress)
    reads node, node.buffer, snapshot, snapshot.Repr
  {
    && node.Valid() && snapshot.Valid() && Apart(node, snapshot)
    && g.Going? && node.Contents == c.base + g.kept && snapshot.quotas == g.quotas
  }

  /** `reprievePod`, with the second removal that fails. */
  method ReprievePod(node: NodeInfo, snapshot: Ledger, c: Context, p: PodInfo, ghost g: Progress, ghost h: Progress)
    returns (ok: bool, fit: bool, victim: bool)
    requires Standing(node, snapshot, c, g) && T.NotOn(p, node.Contents) && p.uid != "" && h == TryReprieve(c, g, p)
    modifies node, node.buffer, snapshot`quotas, snapshot.Repr
    ensures snapshot.Repr == old(snapshot.Repr) && (node.buffer == old(node.buffer) || fresh(node.buffer))
    ensures node.Valid() && snapshot.Valid()
    ensures ok <==> h.Going?
    ensures ok ==> && Standing(node, snapshot, c, h)
                   && h.victims == (if victim then g.victims + [p] else g.victims)
                   && h.misfits == (if fit then g.misfits else g.misfits + 1)
  {
    hide NodeInfo.Valid, Ledger.Valid, AddPodTo, DeletePodFrom, AggregateOverMinWith;
    ghost var before := node.Contents;
    assert c.base + g.kept + {p} == c.base + (g.kept + {p}) && before + {p} - {p} == before;
    AddPod(node, snapshot, p);
    fit := T.RunFilters(node, c.fits);
    victim := false;
    if !fit {
      ok := RemovePod(node, snapshot, p);
      victim := true;
    }
    var over := CheckOver(snapshot, c.ns, c.inQuota, c.total);
    if over {
      ok := RemovePod(node, snapshot, p);
      if !ok {
        return false, fit, victim;
      }
      victim := true;
    }
    ok := true;
  }

  /** Nobody in the order is on the node when its turn comes. */
  ghost predicate Clear(c: Context, quotas: Quotas, order: seq<PodInfo>) {
    forall n :: 0 <= n < |order| ==> ClearAt(c, quotas, order, n)
  }

  ghost predicate ClearAt(c: Context, quotas: Quotas, order: seq<PodInfo>, n: nat)
    requires n < |order|
  {
    var g := ReprieveAll(c, quotas, order, n);
    g.Going? ==> T.NotOn(order[n], c.base + g.kept)
  }

  lemma CandidatesClear(c: Context, quotas: Quotas, order: seq<PodInfo>)
    requires DistinctUids(order) && c.fits(c.base) && forall p :: p in order ==> T.NotOn(p, c.base)
    ensures Clear(c, quotas, order)
  {
    forall n | 0 <= n < |order|
      ensures ClearAt(c, quotas, order, n)
    {
      if ReprieveAll(c, quotas, order, n).Going? {
        ReprievePartitions(c, quotas, order, n);
        Reprieve.NextIsNew(order, n);
        assert order[n] in order;
      }
    }
  }

  /** One pass over a stretch of the order; it breaks off at the first failing removal. */
  method ReprieveStretch(node: NodeInfo, snapshot: Ledger, c: Context, order: seq<PodInfo>, from: nat, to: nat, ghost quotas: Quotas)
    returns (ok: bool, victims: seq<PodInfo>, misfits: nat)
    requires from <= to <= |order| && Clear(c, quotas, order) && HasUids(order)
    requires Standing(node, snapshot, c, ReprieveAll(c, quotas, order, from))
    modifies node, node.buffer, snapshot`quotas, snapshot.Repr
    ensures node.Valid() && snapshot.Valid()
    ensures snapshot.Repr == old(snapshot.Repr) && (node.buffer == old(node.buffer) || fresh(node.buffer))
    ensures ok <==> ReprieveAll(c, quotas, order, to).Going?
    ensures ok ==>
      var g, h := ReprieveAll(c, quotas, order, from), ReprieveAll(c, quotas, order, to);
      Standing(node, snapshot, c, h) && h.victims == g.victims + victims && h.misfits == g.misfits + misfits
  {
    hide TryReprieve, ReprieveAll, NodeInfo.Valid, Ledger.Valid;
    victims, misfits := [], 0;
    ghost var start := ReprieveAll(c, quotas, order, from);
    ghost var g := start;
    for i := from to to
      invariant g == ReprieveAll(c, quotas, order, i) && Standing(node, snapshot, c, g)
      invariant snapshot.Repr == old(snapshot.Repr) && (node.buffer == old(node.buffer) || fresh(node.buffer))
      invariant g.victims == start.victims + victims && g.misfits == start.misfits + misfits
    {
      assert ClearAt(c, quotas, order, i);
      ReprieveNext(c, quotas, order, i);
      ghost var h := ReprieveAll(c, quotas, order, i + 1);
      assert h == TryReprieve(c, g, order[i]);
      var done, fit, victim := ReprievePod(node, snapshot, c, order[i], g, h);
      if !done {
        FailedStays(c, quotas, order, i + 1, to);
        return false, victims, misfits;
      }
      g := h;
      if victim {
        victims := victims + [order[i]];
      }
      if !fit {
        misfits := misfits + 1;
      }
    }
    return true, victims, misfits;
  }

  lemma {:induction false} FailedStays(c: Context, quotas: Quotas, order: seq<PodInfo>, m: nat, n: nat)
    requires m <= n <= |order| && ReprieveAll(c, quotas, order, m).Failed?
    ensures ReprieveAll(c, quotas, order, n).Failed?
    decreases n
  {
    hide ReprieveAll;
    if m < n {
      FailedStays(c, quotas, order, m, n - 1);
      ReprieveNext(c, quotas, order, n - 1);
    }
  }

  // ---------------------------------------------------------------------------
  // The whole selection

  datatype Selection =
    | Errored // a pod that is to be taken has no uid
    | NoCandidates
    | DoesNotFit
    | QuotaExceeded
    | RemovalFailed
    | Selected(victims: seq<PodInfo>, violations: nat)

  function ContextFor(fits: Reprieve.Fits, base: set<PodInfo>, preemptor: PodInfo, state: CycleState): Context {
    Context(fits, base, preemptor.namespace, state.inQuota, state.total)
  }

  /** The request alone has no room in its quota or in the total. */
  ghost predicate Tight(quotas: Quotas, ns: string, request: Resources) {
    ns in quotas && (quotas[ns].OverMaxWith(request) || AggregateOverMinWith(quotas, request))
  }

  /** That is, in some resource it names it exceeds the quota's Max, or in some dimension the total exceeds the summed Min. */
  lemma TightIff(quotas: Quotas, ns: string, request: Resources)
    requires BoundsNonNegative(quotas)
    ensures Tight(quotas, ns, request) <==>
      ns in quotas &&
        ((exists d :: Names(request, d) && At(request, d) + At(quotas[ns].used, d) > At(quotas[ns].max, d))
         || (exists d :: Sum(UsedBy(quotas, d)) + At(request, d) > Sum(MinOf(quotas, d))))
  {
    AggregateIsTotal(quotas, request);
    if ns in quotas {
      ExceedsByDimension(request, quotas[ns].used, quotas[ns].max);
    }
  }

  /**
    What a successful selection promises, with the node's `pods` and the snapshot's `quotas` before, and
    what is `left` of the node and the quotas `now`.
   */
  ghost predicate GoodSelection(fits: Reprieve.Fits, preemptor: PodInfo, state: CycleState, pods: set<PodInfo>, quotas: Quotas,
                                left: set<PodInfo>, now: Quotas, candidates: set<PodInfo>, victims: seq<PodInfo>) {
    && DistinctUids(victims) && Elements(victims) <= candidates
    && left == pods - Elements(victims)
    && fits(left)
    && (BoundsNonNegative(quotas) ==>
          && (ContextFor(fits, left, preemptor, state).CountsRequest(quotas, state.request) ==> RoomFor(now, preemptor.namespace, state.request))
          && GoodBooks(pods, quotas, now, candidates, Elements(victims)))
  }

  /** The balance, and when each quota dropped by exactly its victims: when its uncounted candidates ask for nothing. */
  ghost predicate GoodBooks(pods: set<PodInfo>, quotas: Quotas, now: Quotas, candidates: set<PodInfo>, victims: set<PodInfo>) {
    && Balance(quotas, now, victims, candidates - victims)
    && ((forall p :: p in pods ==> NonNegative(p.request)) ==>
          forall ns :: ns in quotas ==> (DropsExactly(quotas, now, victims, ns) <==> UncountedAskNothing(quotas, candidates, ns)))
  }

  lemma SelectionIsGood(fits: Reprieve.Fits, preemptor: PodInfo, state: CycleState, pods: seq<PodInfo>, quotas: Quotas, mode: Mode,
                        order: seq<PodInfo>)
    requires DistinctUids(pods) && DistinctUids(order)
    requires var col := Collect(quotas, preemptor, mode, pods, |pods|);
             var c := ContextFor(fits, Elements(pods) - Elements(col.taken), preemptor, state);
             && Elements(order) == Elements(col.taken) && HasUids(order)
             && fits(c.base)
             && !Tight(col.quotas, c.ns, state.request)
             && ReprieveAll(c, col.quotas, order, |order|).Going?
    ensures var col := Collect(quotas, preemptor, mode, pods, |pods|);
            var c := ContextFor(fits, Elements(pods) - Elements(col.taken), preemptor, state);
            var g := ReprieveAll(c, col.quotas, order, |order|);
            GoodSelection(fits, preemptor, state, Elements(pods), quotas, c.base + g.kept, g.quotas, Elements(col.taken), g.victims)
  {
    var col := Collect(quotas, preemptor, mode, pods, |pods|);
    var c := ContextFor(fits, Elements(pods) - Elements(col.taken), preemptor, state);
    assert pods[..|pods|] == pods && order[..|order|] == order;
    CollectTaken(quotas, preemptor, mode, pods, |pods|);
    CollectBounds(quotas, preemptor, mode, pods, |pods|);
    ReprievePartitions(c, col.quotas, order, |order|);
    if BoundsNonNegative(quotas) {
      var g := ReprieveAll(c, col.quotas, order, |order|);
      CollectReflects(quotas, preemptor, mode, pods, |pods|);
      AggregateIsTotal(col.quotas, state.request);
      CandidatesReady(quotas, preemptor, mode, pods, order);
      SuccessfulSelection(c, quotas, col.quotas, order, state.request);
      BooksAreGood(quotas, g.quotas, Elements(pods), Elements(g.victims), g.kept, order);
    }
  }

  lemma BooksAreGood(quotas: Quotas, now: Quotas, pods: set<PodInfo>, victims: set<PodInfo>, kept: set<PodInfo>, order: seq<PodInfo>)
    requires Balance(quotas, now, victims, kept) && victims !! kept && victims + kept == Elements(order) <= pods && HasUids(order)
    ensures GoodBooks(pods, quotas, now, Elements(order), victims)
  {
    hide Balance, DropsExactly;
    assert Elements(order) - victims == kept;
    assert SameBounds(quotas, now) by { BalanceKeepsBounds(quotas, now, victims, kept); }
    if forall p :: p in pods ==> NonNegative(p.request) {
      forall ns | ns in quotas
        ensures DropsExactly(quotas, now, victims, ns) <==> UncountedAskNothing(quotas, Elements(order), ns)
      {
        DropsExactlyIff(quotas, now, victims, kept, ns);
      }
    }
  }

  lemma BalanceKeepsBounds(quotas: Quotas, now: Quotas, victims: set<PodInfo>, kept: set<PodInfo>)
    requires Balance(quotas, now, victims, kept)
    ensures SameBounds(quotas, now)
  {
  }

  /**
    Which candidates a successful selection spares, and how far its count of violations can be trusted. If
    the request and the nominated pods had no room with every candidate gone, nobody is spared and nothing is
    counted. Otherwise, with filters that more pods never help, filters and quotas together allow no
    greater choice in this order and no victim back; and the count is exact when the quotas
    have room for the violating candidates that the filters alone would keep.
   */
  ghost predicate ExactOutcome(c: Context, quotas: Quotas, order: seq<PodInfo>, violating: seq<PodInfo>,
                               left: set<PodInfo>, victims: seq<PodInfo>, violations: nat)
    requires |violating| <= |order|
  {
    var joint, evicted := Joint(c, quotas, Elements(order)), T.CountIn(victims, violating);
    && (c.OverQuota(quotas) ==> victims == order && violations == 0)
    && (!c.OverQuota(quotas) && Reprieve.Monotone(c.fits) ==>
          && Reprieve.LexGreatest(joint, c.base, order, left - c.base)
          && forall v :: v in victims ==> !joint(left + {v}))
    && violations <= evicted
    && (violations == evicted <==>
          violating == [] || Room(c, quotas, Reprieve.Greedy(c.fits, c.base, order, |violating|).kept))
  }

  lemma OutcomeIsExact(c: Context, quotas: Quotas, order: seq<PodInfo>, violating: seq<PodInfo>)
    requires Ready(quotas, order) && NonNegativePods(order) && c.base !! Elements(order)
    requires |violating| <= |order| && order[..|violating|] == violating
    requires ReprieveAll(c, quotas, order, |order|).Going?
    ensures ReprieveAll(c, quotas, order, |violating|).Going?
    ensures var g := ReprieveAll(c, quotas, order, |order|);
            ExactOutcome(c, quotas, order, violating, c.base + g.kept, g.victims, ReprieveAll(c, quotas, order, |violating|).misfits)
  {
    hide ReprieveAll, Room, Reprieve.Greedy, T.CountIn, Reprieve.LexGreatest;
    var g := ReprieveAll(c, quotas, order, |order|);
    if ReprieveAll(c, quotas, order, |violating|).Failed? {
      FailedStays(c, quotas, order, |violating|, |order|);
    }
    ViolationsExactIff(c, quotas, order, |violating|);
    if c.OverQuota(quotas) {
      OverQuotaEvictsAll(c, quotas, order, |violating|);
    } else if Reprieve.Monotone(c.fits) {
      RoomyReprieveLexGreatest(c, quotas, order);
      KeptAreCandidates(c, quotas, order);
      assert c.base + g.kept - c.base == g.kept;
    }
  }

  lemma KeptAreCandidates(c: Context, quotas: Quotas, order: seq<PodInfo>)
    requires Ready(quotas, order) && !c.OverQuota(quotas)
    ensures var g := ReprieveAll(c, quotas, order, |order|);
            g.Going? && g.kept <= Elements(order)
  {
    CarriesNothing(quotas);
    OverIffNoRoom(c, quotas, quotas, {});
    RoomKept(c, quotas, order, |order|);
    assert order[..|order|] == order;
  }

  /** The exact account of a selection, before the reprieve: when it breaks off, and what it yields otherwise. */
  lemma SelectionIsExact(fits: Reprieve.Fits, preemptor: PodInfo, state: CycleState, pods: seq<PodInfo>, quotas: Quotas, mode: Mode,
                         order: seq<PodInfo>, violating: seq<PodInfo>)
    requires DistinctUids(pods) && DistinctUids(order) && NonNegativePods(pods) && BoundsNonNegative(quotas)
    requires |violating| <= |order| && order[..|violating|] == violating
    requires Elements(order) == Elements(Collect(quotas, preemptor, mode, pods, |pods|).taken)
    ensures var col := Collect(quotas, preemptor, mode, pods, |pods|);
            var c := ContextFor(fits, Elements(pods) - Elements(col.taken), preemptor, state);
            var g := ReprieveAll(c, col.quotas, order, |order|);
            && (g.Failed? <==> c.OverQuota(col.quotas) && exists p :: p in col.taken && !fits(c.base + {p}))
            && (g.Going? ==>
                  && ReprieveAll(c, col.quotas, order, |violating|).Going?
                  && ExactOutcome(c, col.quotas, order, violating, c.base + g.kept, g.victims,
                                  ReprieveAll(c, col.quotas, order, |violating|).misfits))
  {
    hide ReprieveAll, ExactOutcome, Collect;
    var col := Collect(quotas, preemptor, mode, pods, |pods|);
    var c := ContextFor(fits, Elements(pods) - Elements(col.taken), preemptor, state);
    CandidatesReady(quotas, preemptor, mode, pods, order);
    FailsIff(c, col.quotas, order);
    assert forall p :: p in col.taken <==> p in Elements(order);
    assert forall i :: 0 <= i < |order| ==> order[i] in Elements(order);
    if ReprieveAll(c, col.quotas, order, |order|).Going? {
      OutcomeIsExact(c, col.quotas, order, violating);
    }
  }

  lemma CandidatesReady(quotas: Quotas, preemptor: PodInfo, mode: Mode, pods: seq<PodInfo>, order: seq<PodInfo>)
    requires DistinctUids(pods) && DistinctUids(order) && BoundsNonNegative(quotas)
    requires Elements(order) == Elements(Collect(quotas, preemptor, mode, pods, |pods|).taken)
    ensures Ready(Collect(quotas, preemptor, mode, pods, |pods|).quotas, order)
    ensures NonNegativePods(pods) ==> NonNegativePods(order)
  {
    hide Collect;
    var col := Collect(quotas, preemptor, mode, pods, |pods|);
    CollectBounds(quotas, preemptor, mode, pods, |pods|);
    CollectAbsent(quotas, preemptor, mode, pods, |pods|);
    CollectTaken(quotas, preemptor, mode, pods, |pods|);
    assert pods[..|pods|] == pods;
    forall p | p in order
      ensures Absent(col.quotas, p) && (NonNegativePods(pods) ==> NonNegative(p.request))
    {
      assert p in Elements(order);
      assert p in col.taken && p in Elements(pods);
      var i :| 0 <= i < |pods| && pods[i] == p;
    }
  }

  // An input on which selection fails. The quota allows one CPU, all of it used by a pod that must go. The preemptor
  // asks for one CPU, which there will be room for; a nominated pod ahead of it asks for another.

  const ONE_CPU := Resources(1, 0, map[])
  const OCCUPANT := PodInfo("v", "a", "v", map[], 0, 0, "", None, false, ONE_CPU)
  const PREEMPTOR := OCCUPANT.(uid := "p", priority := 1)
  const NOMINATED := OCCUPANT.(uid := "n", priority := 2)
  const FULL_QUOTA: Quotas := map["a" := Quota(ONE_CPU, ONE_CPU, ONE_CPU, {"v"})]
  const TWO_CPUS := Resources(2, 0, map[])

  lemma OneAndOne()
    ensures Plus(Plus(ZERO, ONE_CPU), ONE_CPU) == TWO_CPUS
  {
    assert Plus(ZERO, ONE_CPU) == ONE_CPU;
  }

  lemma FullQuotaTurnsAway()
    ensures PreFilter(FULL_QUOTA, PREEMPTOR, [NOMINATED]) == OverMax
    ensures StateFor(FULL_QUOTA, PREEMPTOR, [NOMINATED], CycleState(ONE_CPU, TWO_CPUS, TWO_CPUS))
  {
    hide Plus;
    OneAndOne();
    var rest := [NOMINATED][..0];
    assert rest == [];
    assert NominatedInQuota(FULL_QUOTA, PREEMPTOR, [NOMINATED]) == Plus(NominatedInQuota(FULL_QUOTA, PREEMPTOR, rest), ONE_CPU);
    assert NominatedTotal(FULL_QUOTA, PREEMPTOR, [NOMINATED]) == Plus(NominatedTotal(FULL_QUOTA, PREEMPTOR, rest), ONE_CPU);
  }

  lemma OccupantTaken()
    ensures ModeFor(FULL_QUOTA, PREEMPTOR, TWO_CPUS) == OwnQuota
    ensures Collect(FULL_QUOTA, PREEMPTOR, OwnQuota, [OCCUPANT], 1) == Collection([OCCUPANT], DeletePodFrom(FULL_QUOTA, OCCUPANT))
  {
    assert Collect(FULL_QUOTA, PREEMPTOR, OwnQuota, [OCCUPANT], 0) == Collection([], FULL_QUOTA);
    assert [] + [OCCUPANT] == [OCCUPANT];
  }

  lemma RoomForOneCpu()
    ensures var left := DeletePodFrom(FULL_QUOTA, OCCUPANT);
            left.Keys == {"a"} && left["a"] == Quota(ONE_CPU, ONE_CPU, Minus(ONE_CPU, ONE_CPU), {"v"} - {"v"})
    ensures !Tight(DeletePodFrom(FULL_QUOTA, OCCUPANT), "a", ONE_CPU)
  {
    OneQuotaTotal(DeletePodFrom(FULL_QUOTA, OCCUPANT), "a", ONE_CPU);
  }

  /**
    The occupant does not fit and comes off the node, the quotas are found exceeded all the same, and
    the second removal fails, although the request alone has room.
   */
  lemma SecondRemovalFails()
    ensures var fits := (pods: set<PodInfo>) => OCCUPANT !in pods;
            var state := CycleState(ONE_CPU, TWO_CPUS, TWO_CPUS);
            var col := Collect(FULL_QUOTA, PREEMPTOR, ModeFor(FULL_QUOTA, PREEMPTOR, state.inQuota), [OCCUPANT], 1);
            && StateFor(FULL_QUOTA, PREEMPTOR, [NOMINATED], state)
            && col.taken == [OCCUPANT] && fits({}) && !Tight(col.quotas, PREEMPTOR.namespace, state.request)
            && ReprieveAll(ContextFor(fits, {}, PREEMPTOR, state), col.quotas, [OCCUPANT], 1).Failed?
  {
    hide ReprieveAll, Collect, StateFor, Tight, DeletePodFrom, ModeFor;
    FullQuotaTurnsAway();
    OccupantTaken();
    RoomForOneCpu();
    var fits := (pods: set<PodInfo>) => OCCUPANT !in pods;
    OccupantBreaksOff(ContextFor(fits, {}, PREEMPTOR, CycleState(ONE_CPU, TWO_CPUS, TWO_CPUS)));
  }

  lemma OccupantBreaksOff(c: Context)
    requires c.base == {} && c.ns == "a" && c.inQuota == TWO_CPUS && !c.fits({OCCUPANT})
    ensures ReprieveAll(c, DeletePodFrom(FULL_QUOTA, OCCUPANT), [OCCUPANT], 1).Failed?
  {
    hide ReprieveAll, Ready, NonNegativePods, Context.OverQuota, DeletePodFrom;
    var left, order := DeletePodFrom(FULL_QUOTA, OCCUPANT), [OCCUPANT];
    NominatedPodExceeds(c);
    assert c.base + {order[0]} == {OCCUPANT};
    FailsIff(c, left, order);
  }

  lemma NominatedPodExceeds(c: Context)
    requires c.ns == "a" && c.inQuota == TWO_CPUS
    ensures var left := DeletePodFrom(FULL_QUOTA, OCCUPANT);
            c.OverQuota(left) && Ready(left, [OCCUPANT]) && NonNegativePods([OCCUPANT])
  {
    RoomForOneCpu();
  }

  /** Where every pod fits, the same quota evicts the occupant without counting it: an eviction that violates a budget goes unreported. */
  lemma ViolationUncounted()
    ensures var c := Context((pods: set<PodInfo>) => true, {}, "a", TWO_CPUS, TWO_CPUS);
            var g := ReprieveAll(c, DeletePodFrom(FULL_QUOTA, OCCUPANT), [OCCUPANT], 1);
            g.Going? && g.victims == [OCCUPANT] && g.misfits == 0
  {
    hide ReprieveAll, Ready, NonNegativePods, Context.OverQuota, DeletePodFrom;
    var c := Context((pods: set<PodInfo>) => true, {}, "a", TWO_CPUS, TWO_CPUS);
    NominatedPodExceeds(c);
    var left, order := DeletePodFrom(FULL_QUOTA, OCCUPANT), [OCCUPANT];
    FailsIff(c, left, order);
    OverQuotaEvictsAll(c, left, order, 1);
  }

  // An input on which usage does not drop by the victims. The occupant is older than the quotas, so none counts it.

  const YOUNGER_QUOTAS: Quotas := map["a" := NewQuota(ZERO, TWO_CPUS), "b" := NewQuota(TWO_CPUS, TWO_CPUS)]

  lemma QuotasAfterPod()
    ensures ApplyAll(map[], [PodAdded(OCCUPANT, None), QuotaAdded("a", ZERO, TWO_CPUS), QuotaAdded("b", TWO_CPUS, TWO_CPUS)]) == YOUNGER_QUOTAS
  {
    var events := [PodAdded(OCCUPANT, None), QuotaAdded("a", ZERO, TWO_CPUS), QuotaAdded("b", TWO_CPUS, TWO_CPUS)];
    assert events[..2][..1] == [events[0]] && events[..2][1] == events[1];
    assert [events[0]][..0] == [];
    assert ApplyAll(map[], [events[0]]) == map[];
    assert ApplyAll(map[], events[..2]) == map["a" := NewQuota(ZERO, TWO_CPUS)];
  }

  lemma TwoTerms<K>(m: map<K, int>, j: K, k: K)
    requires m.Keys == {j, k} && j != k
    ensures Sum(m) == m[j] + m[k]
  {
    hide Sum;
    SumWithout(m, j);
    SumWithout(m - {j}, k);
    assert m - {j} - {k} == map[];
    NothingSums<K>();
  }

  /** Either quota has room for two CPUs in all. */
  lemma RoomForTwoCpus(quotas: Quotas, x: Resources)
    requires SameBounds(YOUNGER_QUOTAS, quotas)
    requires forall d :: At(quotas["a"].used, d) + At(quotas["b"].used, d) + At(x, d) <= At(TWO_CPUS, d)
    ensures !AggregateOverMinWith(quotas, x)
  {
    hide Sum;
    forall d
      ensures !OverMinAt(quotas, x, d)
    {
      TwoTerms(UsedBy(quotas, d), "a", "b");
      TwoTerms(MinOf(quotas, d), "a", "b");
    }
  }

  lemma OlderPodTaken()
    ensures ModeFor(YOUNGER_QUOTAS, PREEMPTOR, ONE_CPU) == OwnQuota
    ensures Collect(YOUNGER_QUOTAS, PREEMPTOR, OwnQuota, [OCCUPANT], 1) == Collection([OCCUPANT], YOUNGER_QUOTAS)
  {
    assert Collect(YOUNGER_QUOTAS, PREEMPTOR, OwnQuota, [OCCUPANT], 0) == Collection([], YOUNGER_QUOTAS);
    assert [] + [OCCUPANT] == [OCCUPANT];
    assert DeletePodFrom(YOUNGER_QUOTAS, OCCUPANT) == YOUNGER_QUOTAS;
  }

  /** The occupant comes off the node uncharged, is put back, and is charged: the usage rises although nobody is evicted. */
  lemma OlderPodCharged()
    ensures var c := Context((pods: set<PodInfo>) => true, {}, "a", ONE_CPU, ONE_CPU);
            var col := Collect(YOUNGER_QUOTAS, PREEMPTOR, ModeFor(YOUNGER_QUOTAS, PREEMPTOR, ONE_CPU), [OCCUPANT], 1);
            var g := ReprieveAll(c, col.quotas, [OCCUPANT], 1);
            && col == Collection([OCCUPANT], YOUNGER_QUOTAS) && !Tight(col.quotas, "a", ONE_CPU)
            && g.Going? && g.victims == [] && g.quotas.Keys == YOUNGER_QUOTAS.Keys && !DropsExactly(YOUNGER_QUOTAS, g.quotas, {}, "a")
  {
    hide Collect, ModeFor, ReprieveAll, AggregateOverMinWith, Sum;
    OlderPodTaken();
    var c := Context((pods: set<PodInfo>) => true, {}, "a", ONE_CPU, ONE_CPU);
    var order := [OCCUPANT];
    var added := AddPodTo(YOUNGER_QUOTAS, OCCUPANT);
    assert added["a"].used == Plus(ZERO, ONE_CPU) && added["b"].used == ZERO;
    RoomForTwoCpus(YOUNGER_QUOTAS, ONE_CPU);
    RoomForTwoCpus(added, ONE_CPU);
    ReprieveNone(c, YOUNGER_QUOTAS, order);
    ReprieveNext(c, YOUNGER_QUOTAS, order, 0);
    assert At(added["a"].used, Cpu) == 1;
    assert Loads({}, "a", Cpu) == map[];
    NothingSums<PodInfo>();
  }

  /** With a single quota that uses nothing the aggregate check is its own comparison. */
  lemma OneQuotaTotal(quotas: Quotas, ns: string, x: Resources)
    requires quotas.Keys == {ns} && (forall d :: At(quotas[ns].used, d) == 0) && forall d :: At(x, d) <= At(quotas[ns].min, d)
    ensures !AggregateOverMinWith(quotas, x)
  {
    forall d
      ensures !OverMinAt(quotas, x, d)
    {
      SumWithout(UsedBy(quotas, d), ns);
      SumWithout(MinOf(quotas, d), ns);
      assert UsedBy(quotas, d) - {ns} == map[] && MinOf(quotas, d) - {ns} == map[];
    }
  }

  /** Only pods in reach are candidates, none means that none is in reach, and those in reach by priority are all candidates. */
  ghost predicate ReachKept(quotas: Quotas, preemptor: PodInfo, inQuota: Resources, pods: set<PodInfo>, candidates: set<PodInfo>) {
    && candidates <= pods
    // in the two modes that go by priority
    && (preemptor.namespace !in quotas || !WithinMin(quotas[preemptor.namespace], inQuota) ==>
          candidates == set p | p in pods && InReach(quotas, preemptor, inQuota, p))
    // when the preemptor reclaims from other quotas
    && (preemptor.namespace in quotas && WithinMin(quotas[preemptor.namespace], inQuota) ==>
          && (forall p :: p in candidates ==> p.namespace in quotas && p.namespace != preemptor.namespace)
          && ((forall p :: p in pods ==> NonNegative(p.request)) && BoundsNonNegative(quotas) ==>
                forall p :: p in candidates ==> InReach(quotas, preemptor, inQuota, p)))
    && (BoundsNonNegative(quotas) ==> (candidates == {} <==> forall p :: p in pods ==> !InReach(quotas, preemptor, inQuota, p)))
  }

  lemma CandidatesInReach(quotas: Quotas, preemptor: PodInfo, inQuota: Resources, pods: seq<PodInfo>)
    requires DistinctUids(pods)
    ensures ReachKept(quotas, preemptor, inQuota, Elements(pods),
                      Elements(Collect(quotas, preemptor, ModeFor(quotas, preemptor, inQuota), pods, |pods|).taken))
  {
    hide Collect;
    var mode := ModeFor(quotas, preemptor, inQuota);
    var taken := Collect(quotas, preemptor, mode, pods, |pods|).taken;
    assert pods[..|pods|] == pods;
    CollectTaken(quotas, preemptor, mode, pods, |pods|);
    if preemptor.namespace in quotas {
      ExceedsByDimension(inQuota, quotas[preemptor.namespace].used, quotas[preemptor.namespace].min);
    }
    if mode != OtherQuotas {
      ByPriority(quotas, preemptor, inQuota, pods);
    } else {
      FromOtherQuotas(quotas, preemptor, inQuota, pods);
    }
    if BoundsNonNegative(quotas) {
      NoneTakenIff(quotas, preemptor, mode, pods, |pods|);
      forall p
        ensures Takes(quotas, preemptor, mode, p) <==> InReach(quotas, preemptor, inQuota, p)
      {
        TakesIfInReach(quotas, preemptor, inQuota, p);
      }
      if taken != [] {
        assert taken[0] in Elements(taken);
      }
    }
  }

  lemma CandidatesListed(taken: seq<PodInfo>)
    ensures Elements(taken) == {} <==> taken == []
    ensures HasUids(taken) <==> forall p :: p in Elements(taken) ==> p.uid != ""
  {
    if taken != [] {
      assert taken[0] in Elements(taken);
    }
    assert forall i :: 0 <= i < |taken| ==> taken[i] in Elements(taken);
  }

  lemma ByPriority(quotas: Quotas, preemptor: PodInfo, inQuota: Resources, pods: seq<PodInfo>)
    requires ModeFor(quotas, preemptor, inQuota) != OtherQuotas
    ensures Elements(Collect(quotas, preemptor, ModeFor(quotas, preemptor, inQuota), pods, |pods|).taken)
         == set p | p in Elements(pods) && InReach(quotas, preemptor, inQuota, p)
  {
    hide Collect;
    var mode := ModeFor(quotas, preemptor, inQuota);
    var taken := Collect(quotas, preemptor, mode, pods, |pods|).taken;
    assert pods[..|pods|] == pods;
    if preemptor.namespace in quotas {
      ExceedsByDimension(inQuota, quotas[preemptor.namespace].used, quotas[preemptor.namespace].min);
    }
    forall p
      ensures p in taken <==> p in pods && InReach(quotas, preemptor, inQuota, p)
    {
      if p in taken {
        TakenAtStart(quotas, preemptor, mode, pods, |pods|, p);
        TakenListed(quotas, preemptor, mode, pods, |pods|, p);
      }
      if p in pods && Takes(quotas, preemptor, mode, p) {
        AllTakenByPriority(quotas, preemptor, mode, pods, |pods|, p);
      }
    }
  }

  lemma {:induction false} TakenListed(quotas: Quotas, preemptor: PodInfo, mode: Mode, pods: seq<PodInfo>, n: nat, p: PodInfo)
    requires n <= |pods| && p in Collect(quotas, preemptor, mode, pods, n).taken
    ensures p in pods
  {
    if p in Collect(quotas, preemptor, mode, pods, n - 1).taken {
      TakenListed(quotas, preemptor, mode, pods, n - 1, p);
    }
  }

  lemma FromOtherQuotas(quotas: Quotas, preemptor: PodInfo, inQuota: Resources, pods: seq<PodInfo>)
    requires ModeFor(quotas, preemptor, inQuota) == OtherQuotas
    ensures var taken := Collect(quotas, preemptor, OtherQuotas, pods, |pods|).taken;
            && (forall p :: p in taken ==> p.namespace in quotas && p.namespace != preemptor.namespace)
            && ((forall p :: p in pods ==> NonNegative(p.request)) && BoundsNonNegative(quotas) ==>
                  forall p :: p in taken ==> InReach(quotas, preemptor, inQuota, p))
  {
    hide Collect;
    forall p | p in Collect(quotas, preemptor, OtherQuotas, pods, |pods|).taken
      ensures p.namespace in quotas && p.namespace != preemptor.namespace
      ensures (forall q :: q in pods ==> NonNegative(q.request)) && BoundsNonNegative(quotas) ==> InReach(quotas, preemptor, inQuota, p)
    {
      var i := TakenFromBorrower(quotas, preemptor, pods, |pods|, p);
      CollectBounds(quotas, preemptor, OtherQuotas, pods, i);
      if (forall q :: q in pods ==> NonNegative(q.request)) && BoundsNonNegative(quotas) {
        TakenAtStart(quotas, preemptor, OtherQuotas, pods, |pods|, p);
        TakesIfInReach(quotas, preemptor, inQuota, p);
      }
    }
  }

  /**
    Each outcome exactly when it is due, for the node's `pods` in the order in which they are collected, with what
    is `left` of the node and the snapshot as it is `now`.
   */
  ghost predicate WholeOutcome(quotas: Quotas, preemptor: PodInfo, state: CycleState, budgets: seq<Budget>, fits: Reprieve.Fits,
                               pods: seq<PodInfo>, order: seq<PodInfo>, violating: seq<PodInfo>,
                               left: set<PodInfo>, now: Quotas, result: Selection) {
    var mode := ModeFor(quotas, preemptor, state.inQuota);
    var col := Collect(quotas, preemptor, mode, pods, |pods|);
    var c := ContextFor(fits, Elements(pods) - Elements(col.taken), preemptor, state);
    var tight := Tight(col.quotas, c.ns, state.request);
    && (result.Errored? <==> !HasUids(col.taken))
    && (result.NoCandidates? <==> col.taken == [])
    && (result.DoesNotFit? <==> col.taken != [] && HasUids(col.taken) && !fits(c.base))
    && (result.QuotaExceeded? <==> col.taken != [] && HasUids(col.taken) && fits(c.base) && tight)
    && (result.RemovalFailed? || result.Selected? ==>
          && T.ReprieveOrder(order, col.taken, budgets, violating) && |violating| <= |order|
          && (result.RemovalFailed? <==> ReprieveAll(c, col.quotas, order, |order|).Failed?))
    && (result.Selected? ==>
          && result.victims == ReprieveAll(c, col.quotas, order, |order|).victims
          && ReprieveAll(c, col.quotas, order, |violating|).Going?
          && result.violations == ReprieveAll(c, col.quotas, order, |violating|).misfits
          && GoodSelection(fits, preemptor, state, Elements(pods), quotas, left, now, Elements(col.taken), result.victims))
    && (NonNegativePods(pods) && BoundsNonNegative(quotas) ==>
          && (result.RemovalFailed? <==>
                HasUids(col.taken) && fits(c.base) && !tight && c.OverQuota(col.quotas) && exists p :: p in col.taken && !fits(c.base + {p}))
          && (result.Selected? ==>
                ExactOutcome(c, col.quotas, order, violating, left, result.victims, result.violations)))
  }

  /**
    On success every candidate is kept or a victim exactly once, the preemptor passes the filters, its quota
    and the total have room for the request, and the books balance. `violations` counts only those violating
    candidates that did not fit.
   */
  method SelectVictimsOnNode(node: NodeInfo, snapshot: Ledger, preemptor: PodInfo, state: CycleState,
                             budgets: seq<Budget>, fits: Reprieve.Fits)
    returns (result: Selection, ghost candidates: set<PodInfo>, ghost pods: seq<PodInfo>, ghost order: seq<PodInfo>, ghost violating: seq<PodInfo>)
    requires node.Valid() && snapshot.Valid() && Apart(node, snapshot)
    modifies node, node.buffer, snapshot`quotas, snapshot.Repr
    ensures node.Valid() && snapshot.Valid() && DistinctUids(pods) && Elements(pods) == old(node.Contents)
    ensures ReachKept(old(snapshot.quotas), preemptor, state.inQuota, old(node.Contents), candidates)
    ensures (result.NoCandidates? <==> candidates == {}) && (result.Selected? ==> Elements(result.victims) <= candidates)
    ensures result.DoesNotFit? <==> candidates != {} && (forall p :: p in candidates ==> p.uid != "") && !fits(old(node.Contents) - candidates)
    ensures candidates == Elements(Collect(old(snapshot.quotas), preemptor, ModeFor(old(snapshot.quotas), preemptor, state.inQuota), pods, |pods|).taken)
    ensures WholeOutcome(old(snapshot.quotas), preemptor, state, budgets, fits, pods, order, violating, node.Contents, snapshot.quotas, result)
  {
    hide ReachKept, GoodSelection, ExactOutcome, ReprieveAll, Collect, T.ReprieveOrder, AggregateOverMinWith, Ledger.Valid, HasUids, BoundsNonNegative;
    order, violating := [], [];
    Reorder(node);
    pods := node.Pods();
    ghost var quotas := snapshot.quotas;
    var mode := ChooseMode(snapshot, preemptor, state.inQuota);
    CandidatesInReach(quotas, preemptor, state.inQuota, pods);
    candidates := Elements(Collect(quotas, preemptor, mode, pods, |pods|).taken);
    CandidatesListed(Collect(quotas, preemptor, mode, pods, |pods|).taken);
    var taken, ok := CollectCandidates(node, snapshot, preemptor, mode);
    if !ok {
      return Errored, candidates, pods, order, violating;
    }
    if |taken| == 0 {
      return NoCandidates, candidates, pods, order, violating;
    }
    var roomy := T.RunFilters(node, fits);
    if !roomy {
      return DoesNotFit, candidates, pods, order, violating;
    }
    var over := CheckOver(snapshot, preemptor.namespace, state.request, state.request);
    if over {
      return QuotaExceeded, candidates, pods, order, violating;
    }
    CollectTaken(quotas, preemptor, mode, pods, |pods|);
    assert pods[..|pods|] == pods;
    result, order, violating := ReprieveCandidates(node, snapshot, preemptor, state, budgets, fits, taken, pods, quotas, mode);
  }

  /**
    PreFilter and, on a snapshot taken before it, the selection on one node: what PreFilter sums up covers the
    request, so the room that a successful selection leaves is room for the preemptor. The live quotas are not touched.
   */
  method PreemptOnNode(ledger: Ledger, node: NodeInfo, pod: PodInfo, nominated: seq<PodInfo>, budgets: seq<Budget>, fits: Reprieve.Fits)
    returns (verdict: Verdict, result: Selection, ghost now: Quotas, ghost candidates: set<PodInfo>, ghost state: CycleState,
             ghost pods: seq<PodInfo>, ghost order: seq<PodInfo>, ghost violating: seq<PodInfo>)
    requires ledger.Valid() && node.Valid() && Apart(node, ledger)
    modifies node, node.buffer
    ensures ledger.Valid() && unchanged(ledger) && unchanged(ledger.Repr) && node.Valid()
    ensures verdict == PreFilter(ledger.quotas, pod, nominated) && StateFor(ledger.quotas, pod, nominated, state)
    ensures ReachKept(ledger.quotas, pod, state.inQuota, old(node.Contents), candidates)
    ensures Elements(pods) == old(node.Contents)
    ensures WholeOutcome(ledger.quotas, pod, state, budgets, fits, pods, order, violating, node.Contents, now, result)
    ensures result.Selected? ==>
      && Elements(result.victims) <= old(node.Contents) && DistinctUids(result.victims)
      && node.Contents == old(node.Contents) - Elements(result.victims) && fits(node.Contents)
    ensures result.Selected? && BoundsNonNegative(ledger.quotas) ==>
      && (NonNegativePods(nominated) ==> RoomFor(now, pod.namespace, pod.request))
      && Elements(result.victims) <= candidates <= old(node.Contents)
      && GoodBooks(old(node.Contents), ledger.quotas, now, candidates, Elements(result.victims))
  {
    hide GoodSelection, WholeOutcome, ReachKept, PreFilter, NodeInfo.Valid, Ledger.Valid, Collect, GoodBooks, RoomFor, StateFor;
    var snapshot := ledger.Snapshot();
    var kept;
    verdict, kept := RunPreFilter(ledger, pod, nominated);
    state := kept;
    ghost var quotas := ledger.quotas;
    result, candidates, pods, order, violating := SelectVictimsOnNode(node, snapshot, pod, kept, budgets, fits);
    now := snapshot.quotas;
    ghost var taken := Collect(quotas, pod, ModeFor(quotas, pod, state.inQuota), pods, |pods|).taken;
    if result.Selected? {
      OutcomeSelected(quotas, pod, state, budgets, fits, pods, order, violating, node.Contents, now, result);
      SelectedMeans(fits, pod, state, pods, quotas, node.Contents, now, nominated, result.victims, taken);
    }
  }

  lemma OutcomeSelected(quotas: Quotas, preemptor: PodInfo, state: CycleState, budgets: seq<Budget>, fits: Reprieve.Fits,
                        pods: seq<PodInfo>, order: seq<PodInfo>, violating: seq<PodInfo>,
                        left: set<PodInfo>, now: Quotas, result: Selection)
    requires result.Selected? && WholeOutcome(quotas, preemptor, state, budgets, fits, pods, order, violating, left, now, result)
    ensures GoodSelection(fits, preemptor, state, Elements(pods), quotas, left, now,
                          Elements(Collect(quotas, preemptor, ModeFor(quotas, preemptor, state.inQuota), pods, |pods|).taken), result.victims)
  {
  }

  lemma SelectedMeans(fits: Reprieve.Fits, pod: PodInfo, state: CycleState, pods: seq<PodInfo>, quotas: Quotas, left: set<PodInfo>,
                      now: Quotas, nominated: seq<PodInfo>, victims: seq<PodInfo>, taken: seq<PodInfo>)
    requires DistinctUids(pods) && StateFor(quotas, pod, nominated, state)
    requires taken == Collect(quotas, pod, ModeFor(quotas, pod, state.inQuota), pods, |pods|).taken
    requires GoodSelection(fits, pod, state, Elements(pods), quotas, left, now, Elements(taken), victims)
    ensures Elements(victims) <= Elements(taken) <= Elements(pods) && DistinctUids(victims) && left == Elements(pods) - Elements(victims) && fits(left)
    ensures BoundsNonNegative(quotas) ==>
      && (NonNegativePods(nominated) ==> RoomFor(now, pod.namespace, pod.request))
      && GoodBooks(Elements(pods), quotas, now, Elements(taken), Elements(victims))
  {
    CollectTaken(quotas, pod, ModeFor(quotas, pod, state.inQuota), pods, |pods|);
    assert pods[..|pods|] == pods;
    if NonNegativePods(nominated) {
      PreFilterCovers(quotas, pod, nominated, state, fits, left);
    }
  }

  method ChooseMode(snapshot: Ledger, preemptor: PodInfo, inQuota: Resources) returns (mode: Mode)
    requires snapshot.Valid()
    ensures mode == ModeFor(snapshot.quotas, preemptor, inQuota)
  {
    if preemptor.namespace !in snapshot.infos {
      return Unquoted;
    }
    if snapshot.infos[preemptor.namespace].View().OverMinWith(inQuota) {
      return OwnQuota;
    }
    return OtherQuotas;
  }

  method ReprieveCandidates(node: NodeInfo, snapshot: Ledger, preemptor: PodInfo, state: CycleState, budgets: seq<Budget>,
                            fits: Reprieve.Fits, taken: seq<PodInfo>, ghost pods: seq<PodInfo>, ghost quotas: Quotas, ghost mode: Mode)
    returns (result: Selection, ghost order: seq<PodInfo>, ghost violating: seq<PodInfo>)
    requires node.Valid() && snapshot.Valid() && Apart(node, snapshot)
    requires DistinctUids(pods) && DistinctUids(taken) && HasUids(taken) && Elements(taken) <= Elements(pods)
    requires Collect(quotas, preemptor, mode, pods, |pods|) == Collection(taken, snapshot.quotas)
    requires node.Contents == Elements(pods) - Elements(taken) && fits(node.Contents)
    requires !Tight(snapshot.quotas, preemptor.namespace, state.request)
    modifies node, node.buffer, snapshot`quotas, snapshot.Repr
    ensures node.Valid() && snapshot.Valid()
    ensures result.RemovalFailed? || result.Selected?
    ensures T.ReprieveOrder(order, taken, budgets, violating) && |violating| <= |order|
    ensures var c := ContextFor(fits, Elements(pods) - Elements(taken), preemptor, state);
            var now := old(snapshot.quotas);
            && (result.RemovalFailed? <==> ReprieveAll(c, now, order, |order|).Failed?)
            && (result.Selected? ==>
                  && result.victims == ReprieveAll(c, now, order, |order|).victims
                  && ReprieveAll(c, now, order, |violating|).Going?
                  && result.violations == ReprieveAll(c, now, order, |violating|).misfits
                  && GoodSelection(fits, preemptor, state, Elements(pods), quotas, node.Contents, snapshot.quotas,
                                   Elements(taken), result.victims))
            && (NonNegativePods(pods) && BoundsNonNegative(quotas) ==>
                  && (result.RemovalFailed? <==> c.OverQuota(now) && exists p :: p in taken && !fits(c.base + {p}))
                  && (result.Selected? ==> ExactOutcome(c, now, order, violating, node.Contents, result.victims, result.violations)))
  {
    var c := ContextFor(fits, (set p | p in node.Pods()), preemptor, state);
    assert c.base == Elements(pods) - Elements(taken);
    ghost var now := snapshot.quotas;
    var first, second := T.OrderCandidates(taken, budgets);
    var all := first + second;
    order, violating := all, first;
    T.CandidatesNotOn(pods, taken, order);
    CandidatesClear(c, now, order);
    T.SameUids(taken, order);
    if NonNegativePods(pods) && BoundsNonNegative(quotas) {
      assert order[..|violating|] == violating;
      SelectionIsExact(fits, preemptor, state, pods, quotas, mode, order, violating);
    }
    var ok, victims, misfits := TwoPasses(node, snapshot, c, all, |first|, now);
    if !ok {
      return RemovalFailed, order, violating;
    }
    SelectionIsGood(fits, preemptor, state, pods, quotas, mode, order);
    result := Selected(victims, misfits);
  }

  /** The `m` violating candidates first; only their misfits are counted. */
  method TwoPasses(node: NodeInfo, snapshot: Ledger, c: Context, order: seq<PodInfo>, m: nat, ghost quotas: Quotas)
    returns (ok: bool, victims: seq<PodInfo>, misfits: nat)
    requires m <= |order| && Clear(c, quotas, order) && HasUids(order)
    requires node.Valid() && snapshot.Valid() && Apart(node, snapshot) && node.Contents == c.base && snapshot.quotas == quotas
    modifies node, node.buffer, snapshot`quotas, snapshot.Repr
    ensures node.Valid() && snapshot.Valid()
    ensures ok <==> ReprieveAll(c, quotas, order, |order|).Going?
    ensures ok ==>
      var g := ReprieveAll(c, quotas, order, |order|);
      && node.Contents == c.base + g.kept && snapshot.quotas == g.quotas && victims == g.victims
      && ReprieveAll(c, quotas, order, m).Going? && misfits == ReprieveAll(c, quotas, order, m).misfits
  {
    hide TryReprieve, ReprieveAll;
    ReprieveNone(c, quotas, order);
    assert c.base + {} == c.base;
    var early, firstVictims, violations := ReprieveStretch(node, snapshot, c, order, 0, m, quotas);
    if !early {
      FailedStays(c, quotas, order, m, |order|);
      return false, [], 0;
    }
    var late, secondVictims, _ := ReprieveStretch(node, snapshot, c, order, m, |order|, quotas);
    return late, firstVictims + secondVictims, violations;
  }
}
