/**
  What filters and quotas together make of the reprieve. With room in the quotas at the outset the
  reprieve is the greedy choice under both tests; without it nothing is kept, and a single
  candidate that does not fit makes the selection fail.
 */
module QuotaReprieve {
  import opened Pods
  import opened QuotaModel
  import opened Admission
  import opened CapacityModel
  import Reprieve
  import T = Toleration

  // ---------------------------------------------------------------------------
  // Room in the quotas, as a property of the set of pods put back

  /** Those of the pods that the quotas count when they are put back. */
  ghost function Counted(quotas: Quotas, pods: set<PodInfo>): set<PodInfo> {
    set p | p in pods && p.namespace in quotas && p.uid != ""
  }

  ghost function AllLoads(pods: set<PodInfo>, d: Dimension): map<PodInfo, int> {
    map p | p in pods :: At(p.request, d)
  }

  /** With these pods back, the preemptor and the nominated pods ahead of it have room in the quota and in total. */
  ghost predicate Room(c: Context, quotas: Quotas, pods: set<PodInfo>) {
    c.ns in quotas ==> forall d :: RoomAt(c, quotas, pods, d)
  }

  ghost predicate RoomAt(c: Context, quotas: Quotas, pods: set<PodInfo>, d: Dimension)
    requires c.ns in quotas
  {
    var back := Counted(quotas, pods);
    && (Names(c.inQuota, d) ==>
          At(c.inQuota, d) + At(quotas[c.ns].used, d) + Sum(Loads(back, c.ns, d)) <= At(quotas[c.ns].max, d))
    && Sum(UsedBy(quotas, d)) + Sum(AllLoads(back, d)) + At(c.total, d) <= Sum(MinOf(quotas, d))
  }

  lemma {:induction false} SumOfPart<K>(m: map<K, int>, n: map<K, int>)
    requires m.Keys <= n.Keys && (forall k :: k in m ==> m[k] == n[k]) && forall k :: k in n ==> n[k] >= 0
    ensures Sum(m) <= Sum(n)
    decreases n.Keys
  {
    hide Sum;
    if k :| k in n && k !in m {
      SumWithout(n, k);
      SumOfPart(m, n - {k});
    } else {
      assert m == n;
    }
  }

  /** Fewer pods back leave more room. */
  lemma RoomShrinks(c: Context, quotas: Quotas, fewer: set<PodInfo>, more: set<PodInfo>)
    requires fewer <= more && (forall p :: p in more ==> NonNegative(p.request)) && Room(c, quotas, more)
    ensures Room(c, quotas, fewer)
  {
    if c.ns in quotas {
      forall d
        ensures RoomAt(c, quotas, fewer, d)
      {
        assert RoomAt(c, quotas, more, d);
        var few, many := Counted(quotas, fewer), Counted(quotas, more);
        SumOfPart(Loads(few, c.ns, d), Loads(many, c.ns, d));
        SumOfPart(AllLoads(few, d), AllLoads(many, d));
      }
    }
  }

  /** `now` is `quotas` with exactly these pods charged on top. */
  ghost predicate Carries(quotas: Quotas, now: Quotas, pods: set<PodInfo>) {
    && SameBounds(quotas, now)
    && (forall ns, d :: ns in quotas ==> CarriesIn(quotas, now, pods, ns, d))
    && forall d :: CarriesInTotal(quotas, now, pods, d)
  }

  ghost predicate CarriesIn(quotas: Quotas, now: Quotas, pods: set<PodInfo>, ns: string, d: Dimension)
    requires ns in quotas && ns in now
  {
    At(now[ns].used, d) == At(quotas[ns].used, d) + Sum(Loads(Counted(quotas, pods), ns, d))
  }

  ghost predicate CarriesInTotal(quotas: Quotas, now: Quotas, pods: set<PodInfo>, d: Dimension) {
    Sum(UsedBy(now, d)) == Sum(UsedBy(quotas, d)) + Sum(AllLoads(Counted(quotas, pods), d))
  }

  lemma CarriesNothing(quotas: Quotas)
    ensures Carries(quotas, quotas, {})
  {
    assert Counted(quotas, {}) == {};
    forall ns, d | ns in quotas
      ensures CarriesIn(quotas, quotas, {}, ns, d)
    {
      assert Loads({}, ns, d) == map[];
    }
    forall d
      ensures CarriesInTotal(quotas, quotas, {}, d)
    {
      assert AllLoads({}, d) == map[];
    }
  }

  lemma OneMoreIn(quotas: Quotas, now: Quotas, pods: set<PodInfo>, p: PodInfo, ns: string, d: Dimension)
    requires ns in quotas && quotas.Keys == now.Keys && CarriesIn(quotas, now, pods, ns, d)
    requires p !in pods && p.namespace in quotas && p.uid != "" && Absent(now, p)
    ensures CarriesIn(quotas, AddPodTo(now, p), pods + {p}, ns, d)
  {
    hide Sum;
    assert Counted(quotas, pods + {p}) == Counted(quotas, pods) + {p};
    LoadsWith(Counted(quotas, pods), p, ns, d);
  }

  lemma OneMoreInTotal(quotas: Quotas, now: Quotas, pods: set<PodInfo>, p: PodInfo, d: Dimension)
    requires quotas.Keys == now.Keys && CarriesInTotal(quotas, now, pods, d)
    requires p !in pods && p.namespace in quotas && p.uid != "" && Absent(now, p)
    ensures CarriesInTotal(quotas, AddPodTo(now, p), pods + {p}, d)
  {
    hide Sum;
    var back := Counted(quotas, pods);
    assert Counted(quotas, pods + {p}) == back + {p};
    SumWith(AllLoads(back, d), p, At(p.request, d));
    assert AllLoads(back + {p}, d) == AllLoads(back, d)[p := At(p.request, d)];
    TotalWithQuota(now, p.namespace, now[p.namespace].AddPod(p), d);
  }

  lemma CarriesMore(quotas: Quotas, now: Quotas, pods: set<PodInfo>, p: PodInfo)
    requires Carries(quotas, now, pods) && p !in pods && Absent(now, p)
    ensures Carries(quotas, AddPodTo(now, p), pods + {p})
  {
    hide Sum, CarriesIn, CarriesInTotal;
    var back, after := Counted(quotas, pods), AddPodTo(now, p);
    if p.namespace in quotas && p.uid != "" {
      forall ns, d | ns in quotas
        ensures CarriesIn(quotas, after, pods + {p}, ns, d)
      {
        OneMoreIn(quotas, now, pods, p, ns, d);
      }
      forall d
        ensures CarriesInTotal(quotas, after, pods + {p}, d)
      {
        OneMoreInTotal(quotas, now, pods, p, d);
      }
    } else {
      assert Counted(quotas, pods + {p}) == back;
      SameCarried(quotas, now, after, pods);
      SameCounted(quotas, after, pods, pods + {p});
    }
  }

  lemma SameCounted(quotas: Quotas, now: Quotas, pods: set<PodInfo>, others: set<PodInfo>)
    requires Carries(quotas, now, pods) && Counted(quotas, pods) == Counted(quotas, others)
    ensures Carries(quotas, now, others)
  {
    forall ns, d | ns in quotas
      ensures CarriesIn(quotas, now, others, ns, d)
    {
      assert CarriesIn(quotas, now, pods, ns, d);
    }
    forall d
      ensures CarriesInTotal(quotas, now, others, d)
    {
      assert CarriesInTotal(quotas, now, pods, d);
    }
  }

  lemma SameCarried(quotas: Quotas, now: Quotas, same: Quotas, pods: set<PodInfo>)
    requires Carries(quotas, now, pods) && SameAmounts(now, same)
    ensures Carries(quotas, same, pods)
  {
    forall ns, d | ns in quotas
      ensures CarriesIn(quotas, same, pods, ns, d)
    {
      assert CarriesIn(quotas, now, pods, ns, d);
    }
    forall d
      ensures CarriesInTotal(quotas, same, pods, d)
    {
      assert CarriesInTotal(quotas, now, pods, d);
      assert UsedBy(now, d) == UsedBy(same, d);
    }
  }

  /** The quota test looks at amounts only: it finds the quotas exceeded exactly when there is no room. */
  lemma OverIffNoRoom(c: Context, quotas: Quotas, now: Quotas, pods: set<PodInfo>)
    requires BoundsNonNegative(quotas) && Carries(quotas, now, pods)
    ensures c.OverQuota(now) <==> !Room(c, quotas, pods)
  {
    hide Sum;
    if c.ns in quotas {
      AggregateIsTotal(now, c.total);
      ExceedsByDimension(c.inQuota, now[c.ns].used, now[c.ns].max);
      forall d
        ensures RoomAt(c, quotas, pods, d) <==>
          && (Names(c.inQuota, d) ==> At(c.inQuota, d) + At(now[c.ns].used, d) <= At(now[c.ns].max, d))
          && Sum(UsedBy(now, d)) + At(c.total, d) <= Sum(MinOf(now, d))
      {
        assert CarriesIn(quotas, now, pods, c.ns, d) && CarriesInTotal(quotas, now, pods, d);
        assert MinOf(quotas, d) == MinOf(now, d);
      }
      if Room(c, quotas, pods) {
        forall d
          ensures Names(c.inQuota, d) ==> At(c.inQuota, d) + At(now[c.ns].used, d) <= At(now[c.ns].max, d)
          ensures Sum(UsedBy(now, d)) + At(c.total, d) <= Sum(MinOf(now, d))
        {
          assert RoomAt(c, quotas, pods, d);
        }
      }
    }
  }

  // ---------------------------------------------------------------------------
  // One candidate

  /** What collecting leaves: the candidates are told apart by uid, and the quotas count none of them. */
  ghost predicate Ready(quotas: Quotas, order: seq<PodInfo>) {
    DistinctUids(order) && BoundsNonNegative(quotas) && AllAbsent(quotas, order)
  }

  /** The pod sets of `now` are those of `quotas` and exactly these pods. */
  ghost predicate Lists(quotas: Quotas, now: Quotas, pods: set<PodInfo>) {
    quotas.Keys == now.Keys && forall ns :: ns in quotas ==> now[ns].pods == quotas[ns].pods + UidsOf(Counted(quotas, pods), ns)
  }

  lemma ListsMore(quotas: Quotas, now: Quotas, pods: set<PodInfo>, p: PodInfo)
    requires Lists(quotas, now, pods)
    ensures Lists(quotas, AddPodTo(now, p), pods + {p})
  {
    var back, after := Counted(quotas, pods), AddPodTo(now, p);
    forall ns | ns in quotas
      ensures after[ns].pods == quotas[ns].pods + UidsOf(Counted(quotas, pods + {p}), ns)
    {
      if p.namespace == ns && p.uid != "" {
        assert Counted(quotas, pods + {p}) == back + {p};
        assert UidsOf(back + {p}, ns) == UidsOf(back, ns) + {p.uid};
      } else {
        assert UidsOf(Counted(quotas, pods + {p}), ns) == UidsOf(back, ns);
      }
    }
  }

  lemma SameListed(quotas: Quotas, now: Quotas, same: Quotas, pods: set<PodInfo>)
    requires Lists(quotas, now, pods) && same.Keys == now.Keys && forall ns :: ns in now ==> same[ns].pods == now[ns].pods
    ensures Lists(quotas, same, pods)
  {
  }

  /** The quotas carry the pods kept, and none of the candidates still to come. */
  ghost predicate Kept(quotas: Quotas, order: seq<PodInfo>, n: nat, g: Progress)
    requires n <= |order|
  {
    && g.Going? && g.kept <= Elements(order[..n])
    && Carries(quotas, g.quotas, g.kept) && Lists(quotas, g.quotas, g.kept)
    && forall i :: n <= i < |order| ==> Absent(g.quotas, order[i])
  }

  lemma KeptAtFirst(c: Context, quotas: Quotas, order: seq<PodInfo>)
    requires Ready(quotas, order)
    ensures Kept(quotas, order, 0, ReprieveAll(c, quotas, order, 0))
  {
    ReprieveNone(c, quotas, order);
    CarriesNothing(quotas);
    assert Counted(quotas, {}) == {};
    assert forall ns :: UidsOf({}, ns) == {};
    assert forall i :: 0 <= i < |order| ==> order[i] in order;
  }

  /** How one candidate fares, in terms of the filters and of room. */
  lemma TryByRoom(c: Context, quotas: Quotas, order: seq<PodInfo>, n: nat, g: Progress)
    requires n < |order| && Ready(quotas, order) && Kept(quotas, order, n, g)
    ensures order[n] !in g.kept
    ensures var p := order[n];
            var h := TryReprieve(c, g, p);
            && (h.Failed? <==> !c.fits(c.base + g.kept + {p}) && !Room(c, quotas, g.kept))
            && (h.Going? ==>
                  var keep := c.fits(c.base + g.kept + {p}) && Room(c, quotas, g.kept + {p});
                  && Kept(quotas, order, n + 1, h)
                  && h.kept == (if keep then g.kept + {p} else g.kept)
                  && h.victims == (if keep then g.victims else g.victims + [p])
                  && h.misfits == (if c.fits(c.base + g.kept + {p}) then g.misfits else g.misfits + 1))
  {
    hide Carries, Room, Lists;
    var p := order[n];
    Reprieve.NextIsNew(order, n);
    assert p !in g.kept;
    var added := AddPodTo(g.quotas, p);
    var back := DeletePodFrom(added, p);
    CarriesMore(quotas, g.quotas, g.kept, p);
    ListsMore(quotas, g.quotas, g.kept, p);
    AddThenDelete(g.quotas, p);
    SameListed(quotas, g.quotas, back, g.kept);
    SameCarried(quotas, g.quotas, back, g.kept);
    OverIffNoRoom(c, quotas, added, g.kept + {p});
    OverIffNoRoom(c, quotas, back, g.kept);
    assert order[..n + 1] == order[..n] + [p];
    Reprieve.ElementsWith(order[..n], p);
    forall i | n + 1 <= i < |order|
      ensures Absent(added, order[i]) && Absent(back, order[i])
    {
      assert Absent(g.quotas, order[i]) && order[i].uid != p.uid;
    }
  }

  // ---------------------------------------------------------------------------
  // With room at the outset: the greedy choice under both tests

  /** The preemptor passes the filters with these pods on the node, and the quotas have room beside the candidates among them. */
  ghost function Joint(c: Context, quotas: Quotas, candidates: set<PodInfo>): Reprieve.Fits {
    (pods: set<PodInfo>) => c.fits(pods) && Room(c, quotas, pods * candidates)
  }

  lemma {:induction false} RoomKept(c: Context, quotas: Quotas, order: seq<PodInfo>, n: nat)
    requires n <= |order| && Ready(quotas, order) && Room(c, quotas, {})
    ensures var g := ReprieveAll(c, quotas, order, n);
            g.Going? && Kept(quotas, order, n, g) && Room(c, quotas, g.kept)
  {
    hide Room, Kept, TryReprieve;
    if n == 0 {
      KeptAtFirst(c, quotas, order);
    } else {
      RoomKept(c, quotas, order, n - 1);
      ReprieveNext(c, quotas, order, n - 1);
      TryByRoom(c, quotas, order, n - 1, ReprieveAll(c, quotas, order, n - 1));
    }
  }

  lemma {:induction false} ReprieveIsGreedy(c: Context, quotas: Quotas, order: seq<PodInfo>, n: nat)
    requires n <= |order| && Ready(quotas, order) && Room(c, quotas, {}) && c.base !! Elements(order)
    ensures var g := ReprieveAll(c, quotas, order, n);
            var o := Reprieve.Greedy(Joint(c, quotas, Elements(order)), c.base, order, n);
            g.Going? && g.kept == o.kept && g.victims == o.victims
  {
    hide Room, TryReprieve, ReprieveAll, Reprieve.Greedy;
    var joint := Joint(c, quotas, Elements(order));
    if n == 0 {
      ReprieveNone(c, quotas, order);
      Reprieve.GreedyNone(joint, c.base, order);
    } else {
      ReprieveIsGreedy(c, quotas, order, n - 1);
      RoomKept(c, quotas, order, n - 1);
      ReprieveNext(c, quotas, order, n - 1);
      var g, p := ReprieveAll(c, quotas, order, n - 1), order[n - 1];
      TryByRoom(c, quotas, order, n - 1, g);
      var _ := Reprieve.GreedyNext(joint, c.base, order, n - 1, Reprieve.Greedy(joint, c.base, order, n - 1));
      AmongCandidates(c.base, g.kept, p, order, n - 1);
    }
  }

  lemma AmongCandidates(base: set<PodInfo>, kept: set<PodInfo>, p: PodInfo, order: seq<PodInfo>, n: nat)
    requires n < |order| && p == order[n] && kept <= Elements(order[..n]) && base !! Elements(order)
    ensures (base + kept + {p}) * Elements(order) == kept + {p}
  {
    assert forall q :: q in kept ==> q in order[..n] && q in order;
  }

  lemma JointMonotone(c: Context, quotas: Quotas, order: seq<PodInfo>)
    requires Reprieve.Monotone(c.fits) && NonNegativePods(order)
    ensures Reprieve.Monotone(Joint(c, quotas, Elements(order)))
  {
    var joint := Joint(c, quotas, Elements(order));
    forall s: set<PodInfo>, t: set<PodInfo> | s <= t && joint(t)
      ensures joint(s)
    {
      RoomShrinks(c, quotas, s * Elements(order), t * Elements(order));
    }
  }

  // ---------------------------------------------------------------------------
  // Without room at the outset: nothing is kept

  ghost predicate Misfit(c: Context, order: seq<PodInfo>, n: nat) {
    exists i :: 0 <= i < n <= |order| && !c.fits(c.base + {order[i]})
  }

  lemma {:induction false} NoRoomEvictsAll(c: Context, quotas: Quotas, order: seq<PodInfo>, n: nat)
    requires n <= |order| && Ready(quotas, order) && NonNegativePods(order) && !Room(c, quotas, {})
    ensures var g := ReprieveAll(c, quotas, order, n);
            && (g.Failed? <==> Misfit(c, order, n))
            && (g.Going? ==> Kept(quotas, order, n, g) && g.kept == {} && g.victims == order[..n] && g.misfits == 0)
  {
    hide Room, Kept, TryReprieve, ReprieveAll;
    if n == 0 {
      KeptAtFirst(c, quotas, order);
      ReprieveNone(c, quotas, order);
    } else {
      NoRoomEvictsAll(c, quotas, order, n - 1);
      ReprieveNext(c, quotas, order, n - 1);
      var g, p := ReprieveAll(c, quotas, order, n - 1), order[n - 1];
      if g.Going? {
        TryByRoom(c, quotas, order, n - 1, g);
        if Room(c, quotas, {} + {p}) {
          RoomShrinks(c, quotas, {}, {} + {p});
        }
        assert c.base + {} + {p} == c.base + {p};
      }
      assert order[..n] == order[..n - 1] + [order[n - 1]];
    }
  }

  // ---------------------------------------------------------------------------
  // The books afterwards

  /** Those of the pods that a quota covers and did not count. */
  ghost function NewIn(quotas: Quotas, pods: set<PodInfo>): set<PodInfo> {
    set p | p in Counted(quotas, pods) && !Counts(quotas, p)
  }

  /**
    Usage `now` is usage before, less the requests of the victims that were counted, plus those of the pods kept that
    were not: a pod older than its quota comes off the node uncharged, and is charged when it is put back.
   */
  ghost predicate Balance(before: Quotas, now: Quotas, victims: set<PodInfo>, kept: set<PodInfo>) {
    SameBounds(before, now) && forall ns :: ns in before ==> BalanceIn(before, now, victims, kept, ns)
  }

  ghost predicate BalanceIn(before: Quotas, now: Quotas, victims: set<PodInfo>, kept: set<PodInfo>, ns: string)
    requires ns in before && ns in now
  {
    var gone, added := CountedIn(before, victims), NewIn(before, kept);
    && now[ns].pods == before[ns].pods - UidsOf(gone, ns) + UidsOf(added, ns)
    && forall d :: At(now[ns].used, d) == At(before[ns].used, d) - Sum(Loads(gone, ns, d)) + Sum(Loads(added, ns, d))
  }

  lemma {:induction false} LoadsApart(s: set<PodInfo>, t: set<PodInfo>, ns: string, d: Dimension)
    requires s !! t
    ensures Sum(Loads(s + t, ns, d)) == Sum(Loads(s, ns, d)) + Sum(Loads(t, ns, d))
    decreases t
  {
    hide Sum;
    if p :| p in t {
      var rest := t - {p};
      LoadsApart(s, rest, ns, d);
      LoadsWith(s + rest, p, ns, d);
      LoadsWith(rest, p, ns, d);
      assert s + rest + {p} == s + t && rest + {p} == t;
    } else {
      assert s + t == s;
      assert Loads(t, ns, d) == map[];
      NothingSums<PodInfo>();
    }
  }

  lemma NothingSums<K>()
    ensures Sum<K>(map[]) == 0
  {
  }

  /** The quotas go on carrying exactly the pods put back. */
  lemma {:induction false} ReprieveKeeps(c: Context, quotas: Quotas, order: seq<PodInfo>, n: nat)
    requires n <= |order| && Ready(quotas, order) && ReprieveAll(c, quotas, order, n).Going?
    ensures Kept(quotas, order, n, ReprieveAll(c, quotas, order, n))
  {
    hide Room, TryReprieve, ReprieveAll, Kept;
    if n == 0 {
      KeptAtFirst(c, quotas, order);
    } else {
      ReprieveNext(c, quotas, order, n - 1);
      ReprieveKeeps(c, quotas, order, n - 1);
      TryByRoom(c, quotas, order, n - 1, ReprieveAll(c, quotas, order, n - 1));
    }
  }

  /** Room for the request stays: a pod is put back for good only if the quotas still have it. */
  lemma {:induction false} ReprieveKeepsRoom(c: Context, quotas: Quotas, order: seq<PodInfo>, n: nat, request: Resources)
    requires n <= |order| && Ready(quotas, order) && ReprieveAll(c, quotas, order, n).Going?
    requires c.CountsRequest(quotas, request) && RoomFor(quotas, c.ns, request)
    ensures RoomFor(ReprieveAll(c, quotas, order, n).quotas, c.ns, request)
  {
    hide Room, RoomFor, TryReprieve, ReprieveAll, Context.OverQuota;
    if n == 0 {
      ReprieveNone(c, quotas, order);
    } else {
      ReprieveNext(c, quotas, order, n - 1);
      ReprieveKeepsRoom(c, quotas, order, n - 1, request);
      ReprieveKeeps(c, quotas, order, n - 1);
      var g, h := ReprieveAll(c, quotas, order, n - 1), ReprieveAll(c, quotas, order, n);
      TryByRoom(c, quotas, order, n - 1, g);
      if h.kept == g.kept {
        SameCarriedAmounts(quotas, g.quotas, h.quotas, g.kept);
        RoomByAmounts(g.quotas, h.quotas, c.ns, request);
      } else {
        OverIffNoRoom(c, quotas, h.quotas, h.kept);
        NotOverGivesRoom(c, h.quotas, request);
      }
    }
  }

  lemma SameCarriedAmounts(quotas: Quotas, now: Quotas, other: Quotas, pods: set<PodInfo>)
    requires Carries(quotas, now, pods) && Carries(quotas, other, pods)
    ensures SameAmounts(now, other)
  {
    forall ns, d | ns in now
      ensures At(now[ns].used, d) == At(other[ns].used, d)
    {
      assert CarriesIn(quotas, now, pods, ns, d) && CarriesIn(quotas, other, pods, ns, d);
    }
  }

  /** Collecting released what was counted, and the reprieve charged what it put back: that is the balance. */
  lemma BooksBalance(before: Quotas, quotas: Quotas, now: Quotas, victims: set<PodInfo>, kept: set<PodInfo>)
    requires Reflects(before, quotas, victims + kept) && victims !! kept && UidsTellApart(victims + kept)
    requires Carries(quotas, now, kept) && Lists(quotas, now, kept)
    ensures Balance(before, now, victims, kept)
  {
    hide Sum;
    var gone, stay, added := CountedIn(before, victims), CountedIn(before, kept), NewIn(before, kept);
    assert CountedIn(before, victims + kept) == gone + stay;
    assert Counted(quotas, kept) == stay + added;
    forall ns | ns in before
      ensures BalanceIn(before, now, victims, kept, ns)
    {
      assert Follows(before[ns], quotas[ns], gone + stay, ns);
      UidsBalance(before, victims, kept, ns);
      forall d
        ensures At(now[ns].used, d) == At(before[ns].used, d) - Sum(Loads(gone, ns, d)) + Sum(Loads(added, ns, d))
      {
        assert CarriesIn(quotas, now, kept, ns, d);
        LoadsApart(gone, stay, ns, d);
        LoadsApart(stay, added, ns, d);
      }
    }
  }

  lemma UidsBalance(before: Quotas, victims: set<PodInfo>, kept: set<PodInfo>, ns: string)
    requires ns in before && victims !! kept && UidsTellApart(victims + kept)
    ensures var gone, stay, added := CountedIn(before, victims), CountedIn(before, kept), NewIn(before, kept);
            before[ns].pods - UidsOf(gone + stay, ns) + UidsOf(stay + added, ns) == before[ns].pods - UidsOf(gone, ns) + UidsOf(added, ns)
  {
    var gone, stay, added := CountedIn(before, victims), CountedIn(before, kept), NewIn(before, kept);
    assert UidsOf(gone + stay, ns) == UidsOf(gone, ns) + UidsOf(stay, ns);
    assert UidsOf(stay + added, ns) == UidsOf(stay, ns) + UidsOf(added, ns);
    assert UidsOf(stay, ns) <= before[ns].pods;
    forall u | u in UidsOf(stay, ns)
      ensures u !in UidsOf(gone, ns)
    {
      var p :| p in stay && p.namespace == ns && p.uid == u;
      assert p in kept;
    }
  }

  ghost predicate AsksNothing(p: PodInfo) { forall d :: At(p.request, d) == 0 }

  /** The usage of the quota dropped by exactly the requests of its victims. */
  ghost predicate DropsExactly(before: Quotas, now: Quotas, victims: set<PodInfo>, ns: string)
    requires ns in before && ns in now
  {
    forall d :: At(now[ns].used, d) == At(before[ns].used, d) - Sum(Loads(victims, ns, d))
  }

  /** The candidates of the quota that it did not count ask for nothing. */
  ghost predicate UncountedAskNothing(before: Quotas, candidates: set<PodInfo>, ns: string) {
    forall p :: p in candidates && p.namespace == ns && !Counts(before, p) ==> AsksNothing(p)
  }

  lemma ZeroTotal<K>(m: map<K, int>, k: K)
    requires k in m && (forall j :: j in m ==> m[j] >= 0) && Sum(m) == 0
    ensures m[k] == 0
  {
    hide Sum;
    SumWithout(m, k);
    NothingSums<K>();
    SumOfPart(map[], m - {k});
  }

  lemma {:induction false} ZeroTerms<K>(m: map<K, int>)
    requires forall k :: k in m ==> m[k] == 0
    ensures Sum(m) == 0
    decreases m.Keys
  {
    if k :| k in m {
      SumWithout(m, k);
      ZeroTerms(m - {k});
    } else {
      assert m == map[];
    }
  }

  /** With non-negative requests each usage drops by exactly its victims exactly when its uncounted candidates ask for nothing. */
  lemma DropsExactlyIff(before: Quotas, now: Quotas, victims: set<PodInfo>, kept: set<PodInfo>, ns: string)
    requires ns in before && Balance(before, now, victims, kept)
    requires forall p :: p in victims + kept ==> NonNegative(p.request) && p.uid != ""
    ensures DropsExactly(before, now, victims, ns) <==> UncountedAskNothing(before, victims + kept, ns)
  {
    hide Sum;
    var gone, left, added := CountedIn(before, victims), victims - CountedIn(before, victims), NewIn(before, kept);
    assert BalanceIn(before, now, victims, kept, ns);
    forall d
      ensures Sum(Loads(victims, ns, d)) == Sum(Loads(gone, ns, d)) + Sum(Loads(left, ns, d))
    {
      LoadsApart(gone, left, ns, d);
      assert gone + left == victims;
    }
    if UncountedAskNothing(before, victims + kept, ns) {
      forall d
        ensures Sum(Loads(left, ns, d)) == 0 && Sum(Loads(added, ns, d)) == 0
      {
        ZeroTerms(Loads(left, ns, d));
        ZeroTerms(Loads(added, ns, d));
      }
    }
    if DropsExactly(before, now, victims, ns) {
      forall p | p in victims + kept && p.namespace == ns && !Counts(before, p)
        ensures AsksNothing(p)
      {
        forall d
          ensures At(p.request, d) == 0
        {
          NothingSums<PodInfo>();
          SumOfPart(map[], Loads(left, ns, d));
          SumOfPart(map[], Loads(added, ns, d));
          assert Sum(Loads(left, ns, d)) + Sum(Loads(added, ns, d)) == 0;
          if p in victims {
            ZeroTotal(Loads(left, ns, d), p);
          } else {
            assert p in added;
            ZeroTotal(Loads(added, ns, d), p);
          }
        }
      }
    }
  }

  /**
    A selection that succeeds: the preemptor fits on what is left of the node, its quota has room for
    the request within Max and the total within the summed Min, and the books balance.
   */
  lemma SuccessfulSelection(c: Context, before: Quotas, quotas: Quotas, order: seq<PodInfo>, request: Resources)
    requires Ready(quotas, order) && c.fits(c.base) && Reflects(before, quotas, Elements(order))
    requires ReprieveAll(c, quotas, order, |order|).Going?
    ensures var g := ReprieveAll(c, quotas, order, |order|);
            && c.fits(c.base + g.kept)
            && Elements(g.victims) !! g.kept && Elements(g.victims) + g.kept == Elements(order)
            && (c.CountsRequest(quotas, request) && RoomFor(quotas, c.ns, request) ==> RoomFor(g.quotas, c.ns, request))
            && Balance(before, g.quotas, Elements(g.victims), g.kept)
  {
    hide ReprieveAll, RoomFor, Balance, Reflects, Carries, Lists, Covers;
    ReprievePartitions(c, quotas, order, |order|);
    assert order[..|order|] == order;
    if c.CountsRequest(quotas, request) && RoomFor(quotas, c.ns, request) {
      ReprieveKeepsRoom(c, quotas, order, |order|, request);
    }
    ReprieveKeeps(c, quotas, order, |order|);
    TellApart(order);
    var g := ReprieveAll(c, quotas, order, |order|);
    assert Elements(g.victims) + g.kept == Elements(order);
    BooksBalance(before, quotas, g.quotas, Elements(g.victims), g.kept);
  }

  // ---------------------------------------------------------------------------
  // Main results

  /**
    Selection breaks off in a second removal exactly when, with every candidate off the node, the request
    and the nominated pods ahead of it exceed the quotas, and some candidate does not fit by itself.
   */
  lemma FailsIff(c: Context, quotas: Quotas, order: seq<PodInfo>)
    requires Ready(quotas, order) && NonNegativePods(order)
    ensures ReprieveAll(c, quotas, order, |order|).Failed? <==>
            c.OverQuota(quotas) && exists i :: 0 <= i < |order| && !c.fits(c.base + {order[i]})
  {
    hide Room, ReprieveAll;
    CarriesNothing(quotas);
    OverIffNoRoom(c, quotas, quotas, {});
    if Room(c, quotas, {}) {
      RoomKept(c, quotas, order, |order|);
    } else {
      NoRoomEvictsAll(c, quotas, order, |order|);
    }
  }

  /** Without that room a selection that succeeds evicts every candidate, and reports no violation. */
  lemma OverQuotaEvictsAll(c: Context, quotas: Quotas, order: seq<PodInfo>, m: nat)
    requires Ready(quotas, order) && NonNegativePods(order) && m <= |order| && c.OverQuota(quotas)
    requires ReprieveAll(c, quotas, order, |order|).Going?
    ensures var g := ReprieveAll(c, quotas, order, |order|);
            g.kept == {} && g.victims == order
    ensures ReprieveAll(c, quotas, order, m).Going? && ReprieveAll(c, quotas, order, m).misfits == 0
  {
    hide Room, ReprieveAll;
    CarriesNothing(quotas);
    OverIffNoRoom(c, quotas, quotas, {});
    NoRoomEvictsAll(c, quotas, order, |order|);
    NoRoomEvictsAll(c, quotas, order, m);
    assert order[..|order|] == order;
  }

  /**
    With that room it never fails, and with filters that more pods never help it keeps the lexicographically
    greatest set of candidates that filters and quotas allow together; no victim is needless.
   */
  lemma RoomyReprieveLexGreatest(c: Context, quotas: Quotas, order: seq<PodInfo>)
    requires Ready(quotas, order) && NonNegativePods(order) && c.base !! Elements(order)
    requires !c.OverQuota(quotas) && Reprieve.Monotone(c.fits)
    ensures var g := ReprieveAll(c, quotas, order, |order|);
            var joint := Joint(c, quotas, Elements(order));
            && g.Going?
            && Reprieve.LexGreatest(joint, c.base, order, g.kept)
            && forall v :: v in g.victims ==> !joint(c.base + g.kept + {v})
  {
    hide Room, ReprieveAll, Reprieve.Greedy;
    CarriesNothing(quotas);
    OverIffNoRoom(c, quotas, quotas, {});
    ReprieveIsGreedy(c, quotas, order, |order|);
    JointMonotone(c, quotas, order);
    var joint := Joint(c, quotas, Elements(order));
    Reprieve.GreedyLexGreatest(joint, c.base, order);
    forall v | v in ReprieveAll(c, quotas, order, |order|).victims
      ensures !joint(c.base + ReprieveAll(c, quotas, order, |order|).kept + {v})
    {
      Reprieve.VictimsNeeded(joint, c.base, order, v);
    }
  }

  /** The counter keeps up with the victims exactly while the quotas have room for what the filters alone would keep. */
  lemma {:induction false} MisfitsIff(c: Context, quotas: Quotas, order: seq<PodInfo>, n: nat)
    requires n <= |order| && Ready(quotas, order) && NonNegativePods(order) && Room(c, quotas, {})
    ensures var g := ReprieveAll(c, quotas, order, n);
            var alone := Reprieve.Greedy(c.fits, c.base, order, n);
            && g.Going? && g.misfits <= |g.victims|
            && (g.misfits == |g.victims| <==> Room(c, quotas, alone.kept))
            && (Room(c, quotas, alone.kept) ==> g.kept == alone.kept)
  {
    hide Room, Kept, TryReprieve, ReprieveAll, Reprieve.Greedy;
    if n == 0 {
      ReprieveNone(c, quotas, order);
      Reprieve.GreedyNone(c.fits, c.base, order);
    } else {
      MisfitsIff(c, quotas, order, n - 1);
      RoomKept(c, quotas, order, n - 1);
      ReprieveNext(c, quotas, order, n - 1);
      var g, p := ReprieveAll(c, quotas, order, n - 1), order[n - 1];
      TryByRoom(c, quotas, order, n - 1, g);
      var alone := Reprieve.Greedy(c.fits, c.base, order, n - 1);
      var next := Reprieve.GreedyNext(c.fits, c.base, order, n - 1, alone);
      if Room(c, quotas, next.kept) {
        AloneNonNegative(c, order, n);
        RoomShrinks(c, quotas, alone.kept, next.kept);
      }
    }
  }

  lemma AloneNonNegative(c: Context, order: seq<PodInfo>, n: nat)
    requires n <= |order| && DistinctUids(order) && NonNegativePods(order)
    ensures forall p :: p in Reprieve.Greedy(c.fits, c.base, order, n).kept ==> NonNegative(p.request)
  {
    Reprieve.GreedyPartitions(c.fits, c.base, order, n);
    forall p | p in Reprieve.Greedy(c.fits, c.base, order, n).kept
      ensures NonNegative(p.request)
    {
      assert p in order[..n];
    }
  }

  /**
    The reported number of violations, the misfits among the first `m` candidates, is the number of victims
    among these exactly when there are no such candidates or the quotas have room for those of them
    that the filters alone would keep. Otherwise it is too low.
   */
  lemma ViolationsExactIff(c: Context, quotas: Quotas, order: seq<PodInfo>, m: nat)
    requires Ready(quotas, order) && NonNegativePods(order) && c.base !! Elements(order) && m <= |order|
    requires ReprieveAll(c, quotas, order, |order|).Going? && ReprieveAll(c, quotas, order, m).Going?
    ensures var reported := ReprieveAll(c, quotas, order, m).misfits;
            var evicted := T.CountIn(ReprieveAll(c, quotas, order, |order|).victims, order[..m]);
            && reported <= evicted
            && (reported == evicted <==> m == 0 || Room(c, quotas, Reprieve.Greedy(c.fits, c.base, order, m).kept))
  {
    hide Room, Kept, ReprieveAll, Reprieve.Greedy, T.CountIn;
    CarriesNothing(quotas);
    OverIffNoRoom(c, quotas, quotas, {});
    var alone := Reprieve.Greedy(c.fits, c.base, order, m);
    if Room(c, quotas, {}) {
      MisfitsIff(c, quotas, order, m);
      Reprieve.GreedyNone(c.fits, c.base, order);
      ReprieveIsGreedy(c, quotas, order, m);
      ReprieveIsGreedy(c, quotas, order, |order|);
      var joint := Joint(c, quotas, Elements(order));
      Reprieve.VictimsGrow(joint, c.base, order, m, |order|);
      var early, all := Reprieve.Greedy(joint, c.base, order, m).victims, Reprieve.Greedy(joint, c.base, order, |order|).victims;
      assert all == early + all[|early|..];
      T.ViolationsCounted(joint, c.base, order, m, early, all[|early|..]);
    } else {
      OverQuotaEvictsAll(c, quotas, order, m);
      CountFirst(order, m);
      if Room(c, quotas, alone.kept) {
        AloneNonNegative(c, order, m);
        RoomShrinks(c, quotas, {}, alone.kept);
      }
    }
  }

  lemma CountFirst(order: seq<PodInfo>, m: nat)
    requires m <= |order| && DistinctUids(order)
    ensures T.CountIn(order, order[..m]) == m
  {
    hide T.CountIn;
    var early, late := order[..m], order[m..];
    LaterNotEarlier(order, m);
    T.CountAll(early, early, true);
    T.CountAll(late, early, false);
    T.CountConcat(early, late, early);
    assert order == early + late;
  }

  lemma LaterNotEarlier(order: seq<PodInfo>, m: nat)
    requires m <= |order| && DistinctUids(order)
    ensures forall p :: p in order[m..] ==> p !in order[..m]
  {
    forall i, j | 0 <= i < m <= j < |order|
      ensures order[i] != order[j]
    {
      assert order[i].uid != order[j].uid;
    }
  }
}
