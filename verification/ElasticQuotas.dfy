/**
  Elastic quotas on the heap. A quota holds its usage and its pod set by reference, an
  update hands both on to the quota that replaces it, and a snapshot copies them.
 */
module ElasticQuotas {
  import opened Options
  import opened Pods
  import opened QuotaModel

  /** A `framework.Resource` that is updated in place. */
  class Usage {
    var cpu: int
    var memory: int
    var scalars: map<string, int>
    /** The namespace the usage is kept for; tells the usages of a ledger apart. */
    ghost const owner: string

    constructor (r: Resources, ghost owner: string)
      ensures View() == r && this.owner == owner
    {
      cpu, memory, scalars := r.cpu, r.memory, r.scalars;
      this.owner := owner;
    }

    function View(): Resources
      reads this
    {
      Resources(cpu, memory, scalars)
    }

    /** The scalars are set one by one, in whatever order the request lists them. */
    method Reserve(request: Resources)
      modifies this
      ensures View() == Plus(old(View()), request)
    {
      ghost var before := View();
      memory := memory + request.memory;
      cpu := cpu + request.cpu;
      var rest := request.scalars.Keys;
      while rest != {}
        invariant rest <= request.scalars.Keys
        invariant memory == before.memory + request.memory && cpu == before.cpu + request.cpu
        invariant forall s :: s in scalars <==> s in before.scalars || (s in request.scalars && s !in rest)
        invariant forall s :: s in scalars ==>
          scalars[s] == At(before, Scalar(s)) + if s in rest then 0 else At(request, Scalar(s))
        decreases rest
      {
        var s :| s in rest;
        rest := rest - {s};
        scalars := scalars[s := (if s in scalars then scalars[s] else 0) + request.scalars[s]];
      }
    }

    /** A scalar that was never used is set to a negative amount. */
    method Unreserve(request: Resources)
      modifies this
      ensures View() == Minus(old(View()), request)
    {
      ghost var before := View();
      memory := memory - request.memory;
      cpu := cpu - request.cpu;
      var rest := request.scalars.Keys;
      while rest != {}
        invariant rest <= request.scalars.Keys
        invariant memory == before.memory - request.memory && cpu == before.cpu - request.cpu
        invariant forall s :: s in scalars <==> s in before.scalars || (s in request.scalars && s !in rest)
        invariant forall s :: s in scalars ==>
          scalars[s] == At(before, Scalar(s)) - if s in rest then 0 else At(request, Scalar(s))
        decreases rest
      {
        var s :| s in rest;
        rest := rest - {s};
        scalars := scalars[s := (if s in scalars then scalars[s] else 0) - request.scalars[s]];
      }
    }
  }

  /** `sets.String` behind its reference. */
  class PodSet {
    var uids: set<string>
    ghost const owner: string

    constructor (uids: set<string>, ghost owner: string)
      ensures this.uids == uids && this.owner == owner
    {
      this.uids := uids;
      this.owner := owner;
    }
  }

  class ElasticQuotaInfo {
    const namespace: string
    const min: Resources
    const max: Resources
    var used: Usage
    var pods: PodSet

    constructor (namespace: string, min: Resources, max: Resources)
      ensures fresh(used) && fresh(pods)
      ensures Holds(namespace, NewQuota(min, max))
    {
      this.namespace, this.min, this.max := namespace, min, max;
      used := new Usage(ZERO, namespace);
      pods := new PodSet({}, namespace);
    }

    function View(): Quota
      reads this, used, pods
    {
      Quota(min, max, used.View(), pods.uids)
    }

    /** The quota is kept for `ns`, in cells of its own, and amounts to `q`. */
    ghost predicate Holds(ns: string, q: Quota)
      reads this, used, pods
    {
      namespace == ns && used.owner == ns && pods.owner == ns && View() == q
    }

    /** A copy that shares nothing with the original. */
    method Clone() returns (copy: ElasticQuotaInfo)
      ensures fresh(copy) && fresh(copy.used) && fresh(copy.pods)
      ensures copy.Holds(namespace, View())
    {
      copy := new ElasticQuotaInfo(namespace, min, max);
      copy.used := new Usage(used.View(), namespace);
      copy.pods := new PodSet(pods.uids, namespace);
    }

    method AddPodIfNotPresent(pod: PodInfo) returns (ok: bool)
      modifies used, pods
      ensures ok <==> pod.uid != ""
      ensures View() == old(View()).AddPod(pod)
    {
      if pod.uid == "" {
        return false;
      }
      if pod.uid !in pods.uids {
        pods.uids := pods.uids + {pod.uid};
        used.Reserve(pod.request);
      }
      return true;
    }

    method DeletePodIfPresent(pod: PodInfo) returns (ok: bool)
      modifies used, pods
      ensures ok <==> pod.uid != ""
      ensures View() == old(View()).DeletePod(pod)
    {
      if pod.uid == "" {
        return false;
      }
      if pod.uid in pods.uids {
        pods.uids := pods.uids - {pod.uid};
        used.Unreserve(pod.request);
      }
      return true;
    }
  }

  /** The map from namespaces to quotas, live or as a snapshot. */
  class Ledger {
    var infos: map<string, ElasticQuotaInfo>
    /** What the map holds, as values. */
    ghost var quotas: Quotas
    /** Everything behind the map. */
    ghost var Repr: set<object>

    ghost predicate Valid()
      reads this, Repr
    {
      && this !in Repr && quotas.Keys == infos.Keys
      && forall ns :: ns in infos ==>
           && infos[ns] in Repr && infos[ns].used in Repr && infos[ns].pods in Repr
           && infos[ns].Holds(ns, quotas[ns])
    }

    constructor ()
      ensures Valid() && quotas == map[] && Repr == {}
    {
      infos, quotas, Repr := map[], map[], {};
    }

    /** `clone`: every quota is copied, in whatever order the map is visited. */
    method Snapshot() returns (copy: Ledger)
      requires Valid()
      ensures fresh(copy) && fresh(copy.Repr)
      ensures copy.Valid() && copy.quotas == quotas
    {
      hide Part;
      copy := new Ledger();
      var rest := infos.Keys;
      PartBounds(quotas);
      while rest != {}
        invariant rest <= infos.Keys
        invariant fresh(copy) && fresh(copy.Repr) && copy.Valid()
        invariant copy.quotas == Part(quotas, quotas.Keys - rest)
        decreases rest
      {
        var ns :| ns in rest;
        assert rest == (rest - {ns}) + {ns};
        rest := rest - {ns};
        PartGrows(quotas, rest, ns);
        copy.PutCopy(ns, infos[ns]);
      }
    }

    /** Store a copy of the quota. */
    method PutCopy(ns: string, info: ElasticQuotaInfo)
      requires Valid() && info.Holds(ns, info.View()) && this !in {info, info.used, info.pods}
      modifies this
      ensures Valid() && quotas == old(quotas)[ns := old(info.View())] && fresh(Repr - old(Repr))
    {
      var copy := info.Clone();
      Put(ns, copy);
    }

    method Put(ns: string, info: ElasticQuotaInfo)
      requires Valid() && info.Holds(ns, info.View()) && this !in {info, info.used, info.pods}
      modifies this
      ensures Valid() && quotas == old(quotas)[ns := info.View()] && infos == old(infos)[ns := info]
      ensures Repr == old(Repr) + {info, info.used, info.pods}
    {
      infos := infos[ns := info];
      quotas := quotas[ns := info.View()];
      Repr := Repr + {info, info.used, info.pods};
    }

    /** The cells of different namespaces are apart, so a change to one quota leaves the others as they were. */
    twostate lemma StaysValid(ns: string)
      requires old(Valid()) && ns in infos && infos == old(infos) && Repr == old(Repr)
      requires quotas == old(quotas)[ns := infos[ns].View()]
      requires forall o :: o in Repr && o != infos[ns].used && o != infos[ns].pods ==> unchanged(o)
      ensures Valid()
    {
    }

    /** Pod added, reserved, or put back: only its own namespace's cells change. */
    method Add(pod: PodInfo) returns (ok: bool)
      requires Valid()
      modifies this`quotas, Repr
      ensures Valid() && Repr == old(Repr) && infos == old(infos)
      ensures quotas == AddPodTo(old(quotas), pod)
      ensures ok <==> pod.namespace in quotas ==> pod.uid != ""
    {
      ok := true;
      if pod.namespace in infos {
        var info := infos[pod.namespace];
        assert info.View() == quotas[pod.namespace];
        ok := info.AddPodIfNotPresent(pod);
        quotas := quotas[pod.namespace := info.View()];
        StaysValid(pod.namespace);
      }
    }

    method Delete(pod: PodInfo)
      requires Valid()
      modifies this`quotas, Repr
      ensures Valid() && Repr == old(Repr) && infos == old(infos)
      ensures quotas == DeletePodFrom(old(quotas), pod)
    {
      if pod.namespace in infos {
        var info := infos[pod.namespace];
        assert info.View() == quotas[pod.namespace];
        var _ := info.DeletePodIfPresent(pod);
        quotas := quotas[pod.namespace := info.View()];
        StaysValid(pod.namespace);
      }
    }

    // -------------------------------------------------------------------------
    // Event handlers and scheduling steps, each one event of the runs in `QuotaModel`

    method OnQuotaAdded(ns: string, min: Resources, max: Resources)
      requires Valid()
      modifies this
      ensures Valid() && fresh(Repr - old(Repr))
      ensures quotas == Apply(old(quotas), QuotaAdded(ns, min, max))
    {
      if ns !in infos {
        var info := new ElasticQuotaInfo(ns, min, max);
        Put(ns, info);
      }
    }

    /** The new quota takes over the old one's usage and pod set by reference. */
    method OnQuotaUpdated(ns: string, min: Resources, max: Resources)
      requires Valid()
      modifies this
      ensures Valid() && fresh(Repr - old(Repr))
      ensures quotas == Apply(old(quotas), QuotaUpdated(ns, min, max))
    {
      var info := new ElasticQuotaInfo(ns, min, max);
      if ns in infos {
        info.pods := infos[ns].pods;
        info.used := infos[ns].used;
      }
      Put(ns, info);
    }

    method OnQuotaDeleted(ns: string)
      requires Valid()
      modifies this
      ensures Valid() && fresh(Repr - old(Repr))
      ensures quotas == Apply(old(quotas), QuotaDeleted(ns))
    {
      infos := infos - {ns};
      quotas := quotas - {ns};
    }

    method OnPodAdded(pod: PodInfo, listed: Option<(Resources, Resources)>)
      requires Valid()
      modifies this, Repr
      ensures Valid() && fresh(Repr - old(Repr))
      ensures quotas == Apply(old(quotas), PodAdded(pod, listed))
    {
      if pod.namespace !in infos {
        if listed.None? {
          return;
        }
        OnQuotaAdded(pod.namespace, listed.value.0, listed.value.1);
      }
      var _ := Add(pod);
    }

    method OnPodUpdated(pod: PodInfo, wasFinished: bool, active: bool)
      requires Valid()
      modifies this`quotas, Repr
      ensures Valid() && Repr == old(Repr)
      ensures quotas == Apply(old(quotas), PodUpdated(pod, wasFinished, active))
    {
      if wasFinished {
        return;
      }
      if !active {
        Delete(pod);
      }
    }

    // -------------------------------------------------------------------------

    /** Used and Min are summed over the quotas, in whatever order the map is visited, and then compared. */
    method AggregatedUsedOverMinWith(x: Resources) returns (over: bool)
      requires Valid()
      ensures over <==> AggregateOverMinWith(quotas, x)
    {
      var used, min := ZERO, ZERO;
      var rest := infos.Keys;
      SummedNone(quotas);
      while rest != {}
        invariant rest <= infos.Keys && Summed(quotas, rest, used, min)
        decreases rest
      {
        var ns :| ns in rest;
        SummedNext(quotas, rest, used, min, ns);
        used := Plus(used, infos[ns].used.View());
        min := Plus(min, infos[ns].min);
        rest := rest - {ns};
      }
      SummedAll(quotas, used, min, x);
      used := Plus(used, x);
      over := Exceeds(used, ZERO, min);
    }
  }

  /** A pod put into, or taken out of, a snapshot. */
  datatype Change = Adding(pod: PodInfo) | Removing(pod: PodInfo)

  function Changed(quotas: Quotas, changes: seq<Change>): Quotas {
    if changes == [] then quotas
    else
      var before, last := Changed(quotas, changes[..|changes| - 1]), changes[|changes| - 1];
      if last.Adding? then AddPodTo(before, last.pod) else DeletePodFrom(before, last.pod)
  }

  /** Whatever is played on a snapshot, the live ledger stays as it was. */
  method PlayOnSnapshot(live: Ledger, changes: seq<Change>) returns (snapshot: Ledger)
    requires live.Valid()
    ensures live.Valid() && unchanged(live) && unchanged(live.Repr)
    ensures snapshot.Valid() && snapshot.quotas == Changed(live.quotas, changes)
  {
    snapshot := live.Snapshot();
    for i := 0 to |changes|
      invariant fresh(snapshot) && fresh(snapshot.Repr) && snapshot.Valid()
      invariant snapshot.quotas == Changed(live.quotas, changes[..i])
    {
      assert changes[..i + 1][..i] == changes[..i];
      match changes[i]
      case Adding(pod) => var _ := snapshot.Add(pod);
      case Removing(pod) => snapshot.Delete(pod);
    }
    assert changes[..|changes|] == changes;
  }

  ghost function Part(quotas: Quotas, rest: set<string>): Quotas {
    map ns | ns in quotas && ns in rest :: quotas[ns]
  }

  lemma PartBounds(quotas: Quotas)
    ensures Part(quotas, quotas.Keys - quotas.Keys) == map[] && Part(quotas, quotas.Keys - {}) == quotas
  {
  }

  lemma PartGrows(quotas: Quotas, rest: set<string>, ns: string)
    requires ns in quotas && ns !in rest
    ensures Part(quotas, quotas.Keys - (rest + {ns}))[ns := quotas[ns]] == Part(quotas, quotas.Keys - rest)
  {
  }

  /** The accumulators cover the quotas outside `rest`. */
  ghost predicate Summed(quotas: Quotas, rest: set<string>, used: Resources, min: Resources) {
    && (forall d :: SummedAt(quotas, rest, used, min, d))
    && (forall s :: s in used.scalars <==> exists ns :: ns in quotas && ns !in rest && s in quotas[ns].used.scalars)
  }

  ghost predicate SummedAt(quotas: Quotas, rest: set<string>, used: Resources, min: Resources, d: Dimension) {
    && At(used, d) + Sum(UsedBy(Part(quotas, rest), d)) == Sum(UsedBy(quotas, d))
    && At(min, d) + Sum(MinOf(Part(quotas, rest), d)) == Sum(MinOf(quotas, d))
  }

  lemma SummedNone(quotas: Quotas)
    ensures Summed(quotas, quotas.Keys, ZERO, ZERO)
  {
    forall d
      ensures SummedAt(quotas, quotas.Keys, ZERO, ZERO, d)
    {
      assert Part(quotas, quotas.Keys) == quotas;
      assert At(ZERO, d) == 0;
    }
  }

  lemma SummedNextAt(quotas: Quotas, rest: set<string>, used: Resources, min: Resources, ns: string, d: Dimension)
    requires SummedAt(quotas, rest, used, min, d) && ns in rest && ns in quotas
    ensures SummedAt(quotas, rest - {ns}, Plus(used, quotas[ns].used), Plus(min, quotas[ns].min), d)
  {
    SumWithout(UsedBy(Part(quotas, rest), d), ns);
    SumWithout(MinOf(Part(quotas, rest), d), ns);
    assert UsedBy(Part(quotas, rest), d) - {ns} == UsedBy(Part(quotas, rest - {ns}), d);
    assert MinOf(Part(quotas, rest), d) - {ns} == MinOf(Part(quotas, rest - {ns}), d);
  }

  lemma SummedNext(quotas: Quotas, rest: set<string>, used: Resources, min: Resources, ns: string)
    requires Summed(quotas, rest, used, min) && ns in rest && ns in quotas
    ensures Summed(quotas, rest - {ns}, Plus(used, quotas[ns].used), Plus(min, quotas[ns].min))
  {
    forall d
      ensures SummedAt(quotas, rest - {ns}, Plus(used, quotas[ns].used), Plus(min, quotas[ns].min), d)
    {
      assert SummedAt(quotas, rest, used, min, d);
      SummedNextAt(quotas, rest, used, min, ns, d);
    }
  }

  lemma SummedAll(quotas: Quotas, used: Resources, min: Resources, x: Resources)
    requires Summed(quotas, {}, used, min)
    ensures Exceeds(Plus(used, x), ZERO, min) <==> AggregateOverMinWith(quotas, x)
  {
    forall d
      ensures At(used, d) == Sum(UsedBy(quotas, d)) && At(min, d) == Sum(MinOf(quotas, d)) && At(ZERO, d) == 0
    {
      assert SummedAt(quotas, {}, used, min, d);
      assert UsedBy(Part(quotas, {}), d) == map[] && MinOf(Part(quotas, {}), d) == map[];
    }
    ExceedsByDimension(Plus(used, x), ZERO, min);
    if AggregateOverMinWith(quotas, x) {
      var d :| OverMinAt(quotas, x, d);
      assert Names(Plus(used, x), d);
    }
    if d :| Names(Plus(used, x), d) && At(Plus(used, x), d) + At(ZERO, d) > At(min, d) {
      assert d.Scalar? ==> Names(x, d) || exists ns :: ns in quotas && Names(quotas[ns].used, d);
      assert OverMinAt(quotas, x, d);
    }
  }
}
