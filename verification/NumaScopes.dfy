/**
  What the greedy container scope guarantees, and how it relates to the pod scope:
  when does a pod that fits as a whole also get through container by container?
 */
module NumaScopes {
  import opened Options
  import opened NumaModel

  // ---------------------------------------------------------------------------
  // No overdraft

  /** Two zones share an id, and of a resource both report, `j` has something where `i` has less. */
  ghost predicate Disagree(zones: seq<Zone>, known: set<string>, i: int, j: int, r: string) {
    && 0 <= i < |zones| && 0 <= j < |zones|
    && zones[i].id == zones[j].id && 0 <= zones[i].id < MASK_BITS
    && r in known && r in zones[i].resources && r in zones[j].resources
    && zones[i].resources[r] < zones[j].resources[r] && zones[j].resources[r] > 0
  }

  /** Zones with the same id report the same amount of each resource that both report, or nothing positive. */
  ghost predicate Agreeing(zones: seq<Zone>, known: set<string>) {
    forall i, j, r :: !Disagree(zones, known, i, j, r)
  }

  ghost predicate DistinctIds(zones: seq<Zone>) {
    forall i, j :: 0 <= i < j < |zones| ==> zones[i].id != zones[j].id
  }

  lemma DistinctIdsAgree(zones: seq<Zone>, known: set<string>)
    requires DistinctIds(zones)
    ensures Agreeing(zones, known)
  {
  }

  /** What the first `k` containers asked of `r` on the NUMA id they were given. */
  function PlacedOn(containers: seq<ResourceList>, ids: seq<int>, k: nat, id: int, r: string): int
    requires k <= |containers| && k <= |ids|
  {
    if k == 0 then 0
    else PlacedOn(containers, ids, k - 1, id, r) + if ids[k - 1] == id then Amount(containers[k - 1], r) else 0
  }

  lemma {:induction false} PlacedOnPrefix(containers: seq<ResourceList>, ids: seq<int>, more: seq<int>, k: nat, id: int, r: string)
    requires k <= |containers| && k <= |ids|
    ensures PlacedOn(containers, ids + more, k, id, r) == PlacedOn(containers, ids, k, id, r)
  {
    if k > 0 {
      PlacedOnPrefix(containers, ids, more, k - 1, id, r);
    }
  }

  /** The books balance: what a zone has left is what it reported less what was placed on its id. */
  lemma {:induction false} GreedyBalance(zones: seq<Zone>, qos: QosClass, known: set<string>, containers: seq<ResourceList>, k: nat, z: nat, r: string)
    requires k <= |containers| && z < |zones| && r in zones[z].resources
    requires Greedy(zones, qos, known, containers, k).Placed?
    ensures var p := Greedy(zones, qos, known, containers, k);
            && r in p.zones[z].resources
            && p.zones[z].resources[r] == zones[z].resources[r] - PlacedOn(containers, p.ids, k, zones[z].id, r)
  {
    if k > 0 {
      GreedyStep(zones, qos, known, containers, k - 1);
      GreedyBalance(zones, qos, known, containers, k - 1, z, r);
      GreedyStep(zones, qos, known, containers, k - 1);
      var before, after := Greedy(zones, qos, known, containers, k - 1), Greedy(zones, qos, known, containers, k);
      PlacedOnPrefix(containers, before.ids, [after.ids[k - 1]], k - 1, zones[z].id, r);
    }
  }

  lemma PlacedOnNone(containers: seq<ResourceList>, ids: seq<int>, id: int, r: string)
    ensures PlacedOn(containers, ids, 0, id, r) == 0
  {
  }

  lemma PlacedOnNext(containers: seq<ResourceList>, ids: seq<int>, next: int, k: nat, id: int, r: string)
    requires k < |containers| && k == |ids|
    ensures PlacedOn(containers, ids + [next], k + 1, id, r)
         == PlacedOn(containers, ids, k, id, r) + if next == id then Amount(containers[k], r) else 0
  {
    PlacedOnPrefix(containers, ids, [next], k, id, r);
  }

  lemma {:induction false} PlacedOnNonNegative(containers: seq<ResourceList>, ids: seq<int>, k: nat, id: int, r: string)
    requires k <= |containers| && k <= |ids| && AllNonNegative(containers)
    ensures PlacedOn(containers, ids, k, id, r) >= 0
  {
    if k > 0 {
      PlacedOnNonNegative(containers, ids, k - 1, id, r);
    }
  }

  /** What one container is given, every zone with the chosen id that reported the resource still has. */
  lemma ChosenZoneCovers(zones: seq<Zone>, known: set<string>, containers: seq<ResourceList>, k: nat, z: nat, r: string)
    requires k < |containers| && AllNonNegative(containers) && Agreeing(zones, known)
    requires Greedy(zones, Guaranteed, known, containers, k + 1).Placed?
    requires z < |zones| && r in zones[z].resources && zones[z].id == Greedy(zones, Guaranteed, known, containers, k + 1).ids[k]
    requires Amount(containers[k], r) != 0
    ensures var before := Greedy(zones, Guaranteed, known, containers, k);
            before.Placed? && PlacedOn(containers, before.ids, k, zones[z].id, r) + Amount(containers[k], r) <= zones[z].resources[r]
  {
    hide Greedy, PlacedOn;
    GreedyStep(zones, Guaranteed, known, containers, k);
    var before, id, asked := Greedy(zones, Guaranteed, known, containers, k), zones[z].id, Amount(containers[k], r);
    var left := before.zones;
    GreedyBalance(zones, Guaranteed, known, containers, k, z, r);
    GreedyDrains(zones, Guaranteed, known, containers, k);
    assert FitsOn(left, Guaranteed, known, containers[k], id);
    assert Meets(left, Guaranteed, known, r, asked, id);
    assert Affine(left, r);
    var i :| 0 <= i < |left| && left[i].id == id && r in left[i].resources && left[i].resources[r] >= asked;
    assert ZoneDrained(zones[i], left[i], containers, k);
    assert asked > 0;
    GreedyBalance(zones, Guaranteed, known, containers, k, i, r);
    PlacedOnNonNegative(containers, before.ids, k, id, r);
    assert !Disagree(zones, known, z, i, r);
  }

  /**
    For a Guaranteed pod the greedy choices are an assignment: on every zone, and for every
    resource the zone reported, the requests placed there are within what was available.
   */
  lemma {:induction false} GreedyNeverOverdraws(zones: seq<Zone>, known: set<string>, containers: seq<ResourceList>, k: nat, z: nat, r: string)
    requires k <= |containers| && AllNonNegative(containers) && Agreeing(zones, known)
    requires z < |zones| && r in zones[z].resources
    requires Greedy(zones, Guaranteed, known, containers, k).Placed?
    ensures !Overdrawn(zones, known, containers, k, z, r)
  {
    hide Greedy, Agreeing, PlacedOn, Subtract;
    if k == 0 {
      PlacedOnNone(containers, Greedy(zones, Guaranteed, known, containers, 0).ids, zones[z].id, r);
    } else {
      GreedyStep(zones, Guaranteed, known, containers, k - 1);
      GreedyNeverOverdraws(zones, known, containers, k - 1, z, r);
      var before, after := Greedy(zones, Guaranteed, known, containers, k - 1), Greedy(zones, Guaranteed, known, containers, k);
      var id := after.ids[k - 1];
      PlacedOnNext(containers, before.ids, id, k - 1, zones[z].id, r);
      if id == zones[z].id && Amount(containers[k - 1], r) != 0 {
        ChosenZoneCovers(zones, known, containers, k - 1, z, r);
      }
    }
  }

  /** More of the resource was placed on the zone than it reported. */
  ghost predicate Overdrawn(zones: seq<Zone>, known: set<string>, containers: seq<ResourceList>, k: nat, z: int, r: string) {
    && k <= |containers| && 0 <= z < |zones| && r in zones[z].resources
    && Greedy(zones, Guaranteed, known, containers, k).Placed?
    && var placed := PlacedOn(containers, Greedy(zones, Guaranteed, known, containers, k).ids, k, zones[z].id, r);
       placed != 0 && placed > zones[z].resources[r]
  }

  /** No Guaranteed pod that is accepted overdraws any zone. */
  ghost predicate NeverOverdraws(zones: seq<Zone>, known: set<string>) {
    forall containers: seq<ResourceList>, z: int, r: string | AllNonNegative(containers) ::
      !Overdrawn(zones, known, containers, |containers|, z, r)
  }

  /** What the first `n` zones have of the resource, where that is positive. */
  function PositiveTotal(zones: seq<Zone>, r: string, n: nat): nat
    requires n <= |zones|
  {
    if n == 0 then 0
    else PositiveTotal(zones, r, n - 1) + if Amount(zones[n - 1].resources, r) > 0 then Amount(zones[n - 1].resources, r) else 0
  }

  /** The zone that serves a request has so much less afterwards, and no zone has more. */
  lemma {:induction false} PositiveTotalFalls(left: seq<Zone>, id: int, r: string, a: int, i: nat, n: nat)
    requires n <= |left| && i < |left| && left[i].id == id && a > 0 && Amount(left[i].resources, r) >= a
    ensures PositiveTotal(Subtract(left, id, map[r := a]), r, n) <= PositiveTotal(left, r, n) - if i < n then a else 0
  {
    if n > 0 {
      PositiveTotalFalls(left, id, r, a, i, n - 1);
      var after := Subtract(left, id, map[r := a]);
      assert Amount(after[n - 1].resources, r) == Amount(left[n - 1].resources, r) - if left[n - 1].id == id then a else 0;
    }
  }

  /** The shared id is the last one chosen. */
  ghost predicate Chosen(zones: seq<Zone>, known: set<string>, containers: seq<ResourceList>, k: nat, id: int) {
    && 0 < k <= |containers| && Greedy(zones, Guaranteed, known, containers, k).Placed?
    && Greedy(zones, Guaranteed, known, containers, k).ids[k - 1] == id
  }

  /** Until then the zone is untouched, and each container took its amount from the others. */
  ghost predicate NotYet(zones: seq<Zone>, known: set<string>, containers: seq<ResourceList>, k: nat, j: nat, r: string, a: int)
    requires k <= |containers| && j < |zones|
  {
    var p := Greedy(zones, Guaranteed, known, containers, k);
    && p.Placed? && p.zones[j] == zones[j]
    && PositiveTotal(p.zones, r, |zones|) + k * a <= PositiveTotal(zones, r, |zones|)
  }

  /** A container that asks for what zone `j` has, again and again, comes to that zone's id in the end. */
  lemma {:induction false} ChosenInTheEnd(zones: seq<Zone>, known: set<string>, containers: seq<ResourceList>, k: nat, j: nat, r: string, a: int)
    requires k <= |containers| && (forall c :: c in containers ==> c == map[r := a]) && r in known
    requires j < |zones| && 0 <= zones[j].id < MASK_BITS && r in zones[j].resources && zones[j].resources[r] == a > 0
    ensures NotYet(zones, known, containers, k, j, r, a) || exists m: nat :: Chosen(zones, known, containers, m, zones[j].id)
  {
    hide Greedy, PositiveTotal;
    if k == 0 {
      GreedyNone(zones, Guaranteed, known, containers);
    } else {
      ChosenInTheEnd(zones, known, containers, k - 1, j, r, a);
      if NotYet(zones, known, containers, k - 1, j, r, a) {
        assert containers[k - 1] in containers;
        NotYetOrChosen(zones, known, containers, k - 1, j, r, a);
      }
    }
  }

  lemma NotYetOrChosen(zones: seq<Zone>, known: set<string>, containers: seq<ResourceList>, k: nat, j: nat, r: string, a: int)
    requires k < |containers| && containers[k] == map[r := a] && r in known
    requires j < |zones| && 0 <= zones[j].id < MASK_BITS && r in zones[j].resources && zones[j].resources[r] == a > 0
    requires NotYet(zones, known, containers, k, j, r, a)
    ensures NotYet(zones, known, containers, k + 1, j, r, a) || Chosen(zones, known, containers, k + 1, zones[j].id)
  {
    hide Greedy, PositiveTotal, LeastFit;
    var left := Greedy(zones, Guaranteed, known, containers, k).zones;
    assert Serves(left, Guaranteed, r, a, zones[j].id);
    assert FitsOn(left, Guaranteed, known, containers[k], zones[j].id);
    var id := GreedyGoesOn(zones, Guaranteed, known, containers, k);
    if id != zones[j].id {
      var i := ServedBy(left, known, r, a, id);
      PositiveTotalFalls(left, id, r, a, i, |left|);
      assert k * a + a == (k + 1) * a;
    }
  }

  lemma ServedBy(left: seq<Zone>, known: set<string>, r: string, a: int, id: int) returns (i: nat)
    requires FitsOn(left, Guaranteed, known, map[r := a], id) && Affine(left, r) && a > 0
    ensures i < |left| && left[i].id == id && Amount(left[i].resources, r) >= a
  {
    assert Meets(left, Guaranteed, known, r, map[r := a][r], id);
    i :| 0 <= i < |left| && left[i].id == id && r in left[i].resources && left[i].resources[r] >= a;
  }

  lemma GreedyNone(zones: seq<Zone>, qos: QosClass, known: set<string>, containers: seq<ResourceList>)
    ensures Greedy(zones, qos, known, containers, 0) == Placed(zones, [])
  {
  }

  lemma GreedyGoesOn(zones: seq<Zone>, qos: QosClass, known: set<string>, containers: seq<ResourceList>, k: nat) returns (id: int)
    requires k < |containers|
    requires var p := Greedy(zones, qos, known, containers, k); p.Placed? && Alignable(p.zones, qos, known, containers[k])
    ensures var p := Greedy(zones, qos, known, containers, k);
            && FitsOn(p.zones, qos, known, containers[k], id)
            && Greedy(zones, qos, known, containers, k + 1) == Placed(Subtract(p.zones, id, containers[k]), p.ids + [id])
  {
    id := LeastFit(Greedy(zones, qos, known, containers, k).zones, qos, known, containers[k]).value;
  }

  /** The pod behind the second half: enough copies of a container that asks for the larger of the two amounts. */
  lemma DisagreementOverdraws(zones: seq<Zone>, known: set<string>, i: nat, j: nat, r: string)
    requires Disagree(zones, known, i, j, r)
    ensures !NeverOverdraws(zones, known)
  {
    hide Greedy;
    var a := zones[j].resources[r];
    var request: ResourceList := map[r := a];
    var n := PositiveTotal(zones, r, |zones|) + 1;
    var copies := seq(n, _ => request);
    ChosenInTheEnd(zones, known, copies, n, j, r, a);
    assert n * a >= n;
    var m: nat :| Chosen(zones, known, copies, m, zones[j].id);
    var containers := copies[..m];
    GreedyOfPrefix(zones, Guaranteed, known, copies, m);
    var ids := Greedy(zones, Guaranteed, known, containers, m).ids;
    PlacedOnNonNegative(containers, ids, m - 1, zones[j].id, r);
    assert containers[m - 1] == request;
    assert Overdrawn(zones, known, containers, |containers|, i, r);
  }

  /** The placement looks at no later container. */
  lemma {:induction false} GreedyOfPrefix(zones: seq<Zone>, qos: QosClass, known: set<string>, containers: seq<ResourceList>, k: nat)
    requires k <= |containers|
    ensures Greedy(zones, qos, known, containers[..k], k) == Greedy(zones, qos, known, containers, k)
  {
    GreedySame(zones, qos, known, containers[..k], containers, k);
  }

  lemma {:induction false} GreedySame(zones: seq<Zone>, qos: QosClass, known: set<string>, c: seq<ResourceList>, d: seq<ResourceList>, k: nat)
    requires k <= |c| && k <= |d| && forall i :: 0 <= i < k ==> c[i] == d[i]
    ensures Greedy(zones, qos, known, c, k) == Greedy(zones, qos, known, d, k)
  {
    if k > 0 {
      GreedySame(zones, qos, known, c, d, k - 1);
    }
  }

  /** The books are never overdrawn, by any Guaranteed pod, exactly when zones that share an id agree. */
  lemma NeverOverdrawsIff(zones: seq<Zone>, known: set<string>)
    ensures NeverOverdraws(zones, known) <==> Agreeing(zones, known)
  {
    hide Greedy, PlacedOn;
    if Agreeing(zones, known) {
      forall containers: seq<ResourceList>, z: int, r: string | AllNonNegative(containers)
        ensures !Overdrawn(zones, known, containers, |containers|, z, r)
      {
        if 0 <= z < |zones| && r in zones[z].resources && Greedy(zones, Guaranteed, known, containers, |containers|).Placed? {
          GreedyNeverOverdraws(zones, known, containers, |containers|, z, r);
        }
      }
    } else {
      var i, j, r :| Disagree(zones, known, i, j, r);
      DisagreementOverdraws(zones, known, i, j, r);
    }
  }

  /** With one id reported twice the promise breaks: the second zone pays although only the first could serve. */
  lemma SharedIdOverdraws()
    ensures var zones := [Zone(0, map[CPU := 4]), Zone(0, map[CPU := 1])];
            var p := Greedy(zones, Guaranteed, {CPU}, [map[CPU := 3]], 1);
            p.Placed? && Amount(p.zones[1].resources, CPU) == -2
  {
    var zones := [Zone(0, map[CPU := 4]), Zone(0, map[CPU := 1])];
    var request := map[CPU := 3];
    assert zones[0].resources[CPU] == 4;
    assert Serves(zones, Guaranteed, CPU, 3, 0);
    assert FitsOn(zones, Guaranteed, {CPU}, request, 0);
    assert Greedy(zones, Guaranteed, {CPU}, [request], 0) == Placed(zones, []);
  }

  // ---------------------------------------------------------------------------
  // Pod scope against container scope

  /** The container, wherever the greedy choice puts it, ends up on an id that some zone has. */
  ghost predicate Lands(zones: seq<Zone>, request: ResourceList) {
    || (exists r :: r in request && request[r] != 0 && Affine(zones, r))
    || (exists i :: 0 <= i < |zones| && zones[i].id == 0)
  }

  /**
    A resource no zone reports is named by one container and requested by a later one. The first
    leaves a zone with a zero or negative entry, and the second takes that entry for NUMA affinity.
   */
  ghost predicate Blocks(zones: seq<Zone>, containers: seq<ResourceList>, i: int, j: int, r: string) {
    && 0 <= i < j < |containers|
    && !Affine(zones, r)
    && r in containers[i] && Lands(zones, containers[i])
    && r in containers[j] && containers[j][r] != 0
  }

  ghost predicate Blocked(zones: seq<Zone>, containers: seq<ResourceList>) {
    exists i, j, r :: Blocks(zones, containers, i, j, r)
  }

  /** The pod as a whole fits on `id`. */
  ghost predicate WholePodFits(pod: Pod, zones: seq<Zone>, known: set<string>, id: int) {
    && FitsOn(zones, pod.qos, known, EffectiveRequest(pod), id)
    && AllNonNegative(pod.containers) && AllNonNegative(pod.inits)
  }

  /** A request not above the pod's fits wherever the whole pod fits. */
  lemma SmallerRequestFits(pod: Pod, zones: seq<Zone>, known: set<string>, request: ResourceList, id: int)
    requires WholePodFits(pod, zones, known, id) && NonNegative(request)
    requires forall r :: Amount(EffectiveRequest(pod), r) >= Amount(request, r)
    ensures FitsOn(zones, pod.qos, known, request, id)
  {
    var whole := EffectiveRequest(pod);
    forall r | r in request && request[r] != 0
      ensures Meets(zones, pod.qos, known, r, request[r], id)
    {
      assert Amount(whole, r) >= Amount(request, r) > 0;
      assert Meets(zones, pod.qos, known, r, whole[r], id);
      if Serves(zones, pod.qos, r, whole[r], id) {
        var i :| 0 <= i < |zones| && zones[i].id == id && r in zones[i].resources
                 && Suitable(pod.qos, r, whole[r], zones[i].resources[r]);
        assert Serves(zones, pod.qos, r, request[r], id);
      }
    }
  }

  /** A nonzero request for a resource of the zones, or of the node, carried over from the whole pod. */
  lemma WholePodServes(pod: Pod, zones: seq<Zone>, known: set<string>, id: int, k: nat, r: string)
    requires WholePodFits(pod, zones, known, id) && k < |pod.containers|
    requires r in pod.containers[k] && pod.containers[k][r] != 0
    ensures r in known
    ensures !Affine(zones, r) ==> !IsNative(r)
    ensures Affine(zones, r) ==> Serves(zones, pod.qos, r, Amount(EffectiveRequest(pod), r), id)
    ensures Amount(EffectiveRequest(pod), r) >= Total(pod.containers, k, r) + pod.containers[k][r]
  {
    EffectiveCovers(pod, r);
    TotalMonotone(pod.containers, k + 1, |pod.containers|, r);
    TotalMonotone(pod.containers, 0, k, r);
    assert Meets(zones, pod.qos, known, r, EffectiveRequest(pod)[r], id);
    if Serves(zones, pod.qos, r, EffectiveRequest(pod)[r], id) {
      assert Affine(zones, r);
    }
  }

  /**
    What every prefix of the greedy placement keeps: a zone gave up at most what the containers
    asked so far, and an entry for a resource no zone reported is not positive.
   */
  ghost predicate Drained(zones: seq<Zone>, left: seq<Zone>, containers: seq<ResourceList>, k: nat)
    requires k <= |containers|
  {
    && |left| == |zones|
    && forall z :: 0 <= z < |zones| ==> ZoneDrained(zones[z], left[z], containers, k)
  }

  ghost predicate ZoneDrained(zone: Zone, left: Zone, containers: seq<ResourceList>, k: nat)
    requires k <= |containers|
  {
    && left.id == zone.id
    && zone.resources.Keys <= left.resources.Keys
    && forall r :: r in left.resources ==>
         if r in zone.resources
         then left.resources[r] >= zone.resources[r] - Total(containers, k, r)
         else left.resources[r] <= 0
  }

  lemma ZoneDrainedStep(zone: Zone, left: Zone, containers: seq<ResourceList>, k: nat, id: int)
    requires k < |containers| && AllNonNegative(containers) && ZoneDrained(zone, left, containers, k)
    ensures ZoneDrained(zone, if left.id == id then Zone(id, SubtractList(left.resources, containers[k])) else left, containers, k + 1)
  {
  }

  lemma {:induction false} GreedyDrains(zones: seq<Zone>, qos: QosClass, known: set<string>, containers: seq<ResourceList>, k: nat)
    requires k <= |containers| && AllNonNegative(containers)
    requires Greedy(zones, qos, known, containers, k).Placed?
    ensures Drained(zones, Greedy(zones, qos, known, containers, k).zones, containers, k)
  {
    if k > 0 {
      GreedyStep(zones, qos, known, containers, k - 1);
      GreedyDrains(zones, qos, known, containers, k - 1);
      var left := Greedy(zones, qos, known, containers, k - 1).zones;
      var id := Greedy(zones, qos, known, containers, k).ids[k - 1];
      forall z | 0 <= z < |zones|
        ensures ZoneDrained(zones[z], Subtract(left, id, containers[k - 1])[z], containers, k)
      {
        ZoneDrainedStep(zones[z], left[z], containers, k - 1, id);
      }
    }
  }

  /** One container of the greedy placement. */
  lemma GreedyStep(zones: seq<Zone>, qos: QosClass, known: set<string>, containers: seq<ResourceList>, k: nat)
    requires k < |containers| && Greedy(zones, qos, known, containers, k + 1).Placed?
    ensures var before, after := Greedy(zones, qos, known, containers, k), Greedy(zones, qos, known, containers, k + 1);
            && before.Placed?
            && LeastFit(before.zones, qos, known, containers[k]) == Some(after.ids[k])
            && after == Placed(Subtract(before.zones, after.ids[k], containers[k]), before.ids + [after.ids[k]])
  {
  }

  lemma AffineStays(zones: seq<Zone>, left: seq<Zone>, containers: seq<ResourceList>, k: nat, r: string)
    requires k <= |containers| && Drained(zones, left, containers, k) && Affine(zones, r)
    ensures Affine(left, r)
  {
    var i :| 0 <= i < |zones| && r in zones[i].resources;
    assert ZoneDrained(zones[i], left[i], containers, k);
    assert r in left[i].resources;
  }

  /** Where a zone still has the resource, the choice falls on an id that some zone has. */
  lemma ChoiceHasZone(zones: seq<Zone>, qos: QosClass, known: set<string>, containers: seq<ResourceList>, k: nat)
    requires k < |containers| && AllNonNegative(containers)
    requires Greedy(zones, qos, known, containers, k + 1).Placed?
    requires Lands(zones, containers[k])
    ensures exists z :: 0 <= z < |zones| && zones[z].id == Greedy(zones, qos, known, containers, k + 1).ids[k]
  {
    GreedyStep(zones, qos, known, containers, k);
    var left, request := Greedy(zones, qos, known, containers, k).zones, containers[k];
    var id := Greedy(zones, qos, known, containers, k + 1).ids[k];
    GreedyDrains(zones, qos, known, containers, k);
    if r :| r in request && request[r] != 0 && Affine(left, r) {
      assert Meets(left, qos, known, r, request[r], id);
      var z :| 0 <= z < |left| && left[z].id == id && r in left[z].resources;
      assert zones[z].id == id;
    } else {
      forall r | r in request && request[r] != 0
        ensures !Affine(zones, r)
      {
        if Affine(zones, r) {
          AffineStays(zones, left, containers, k, r);
        }
      }
      AnyIdFits(left, qos, known, request, id);
      assert id == 0;
    }
  }

  /** A request that touches no zone is served by the lowest id of all. */
  lemma AnyIdFits(left: seq<Zone>, qos: QosClass, known: set<string>, request: ResourceList, id: int)
    requires FitsOn(left, qos, known, request, id)
    requires forall r :: r in request && request[r] != 0 ==> !Affine(left, r)
    ensures FitsOn(left, qos, known, request, 0)
  {
    forall r | r in request
      ensures Meets(left, qos, known, r, request[r], 0)
    {
      assert Meets(left, qos, known, r, request[r], id);
      if request[r] != 0 {
        assert !Serves(left, qos, r, request[r], id) by {
          if Serves(left, qos, r, request[r], id) {
            assert Affine(left, r);
          }
        }
      }
    }
  }

  /** Entries that the zones did not report were left by an earlier container that named the resource. */
  ghost predicate Explained(zones: seq<Zone>, left: seq<Zone>, containers: seq<ResourceList>, k: nat)
    requires k <= |containers|
  {
    forall r :: Affine(left, r) && !Affine(zones, r) ==>
      exists i :: 0 <= i < k && r in containers[i] && Lands(zones, containers[i])
  }

  /** One more container of an unblocked pod: the id that fits the whole pod still serves it. */
  lemma NextContainerFits(pod: Pod, zones: seq<Zone>, known: set<string>, id: int, k: nat, left: seq<Zone>)
    requires WholePodFits(pod, zones, known, id) && k < |pod.containers|
    requires Drained(zones, left, pod.containers, k) && Explained(zones, left, pod.containers, k)
    requires !Blocked(zones, pod.containers)
    ensures FitsOn(left, pod.qos, known, pod.containers[k], id)
  {
    var request := pod.containers[k];
    forall r | r in request && request[r] != 0
      ensures Meets(left, pod.qos, known, r, request[r], id)
    {
      WholePodServes(pod, zones, known, id, k, r);
      if Affine(zones, r) {
        var whole := Amount(EffectiveRequest(pod), r);
        var z :| 0 <= z < |zones| && zones[z].id == id && r in zones[z].resources
                 && Suitable(pod.qos, r, whole, zones[z].resources[r]);
        assert ZoneDrained(zones[z], left[z], pod.containers, k);
        assert Serves(left, pod.qos, r, request[r], id);
      } else if Affine(left, r) {
        var i :| 0 <= i < k && r in pod.containers[i] && Lands(zones, pod.containers[i]);
        assert Blocks(zones, pod.containers, i, k, r);
      }
    }
  }

  /** ... and the entries it leaves behind are explained in turn. */
  lemma NextContainerExplained(pod: Pod, zones: seq<Zone>, known: set<string>, k: nat, left: seq<Zone>, chosen: int)
    requires k < |pod.containers|
    requires Drained(zones, left, pod.containers, k) && Explained(zones, left, pod.containers, k)
    requires !Blocked(zones, pod.containers)
    requires LeastFit(left, pod.qos, known, pod.containers[k]) == Some(chosen)
    ensures Explained(zones, Subtract(left, chosen, pod.containers[k]), pod.containers, k + 1)
  {
    var request, after := pod.containers[k], Subtract(left, chosen, pod.containers[k]);
    forall r | Affine(after, r) && !Affine(zones, r)
      ensures exists i :: 0 <= i < k + 1 && r in pod.containers[i] && Lands(zones, pod.containers[i])
    {
      if Affine(left, r) {
        var i :| 0 <= i < k && r in pod.containers[i] && Lands(zones, pod.containers[i]);
      } else {
        var z :| 0 <= z < |after| && r in after[z].resources;
        assert r !in left[z].resources;
        assert zones[z].id == chosen && r in request;
        if !exists s :: s in request && request[s] != 0 && Affine(zones, s) {
          forall s | s in request && request[s] != 0
            ensures !Affine(left, s)
          {
            if Affine(left, s) {
              var i :| 0 <= i < k && s in pod.containers[i] && Lands(zones, pod.containers[i]);
              assert Blocks(zones, pod.containers, i, k, s);
            }
          }
          AnyIdFits(left, pod.qos, known, request, chosen);
          assert chosen == 0;
        }
        assert Lands(zones, pod.containers[k]);
      }
    }
  }

  lemma {:induction false} UnblockedPlaced(pod: Pod, zones: seq<Zone>, known: set<string>, id: int, k: nat)
    requires WholePodFits(pod, zones, known, id) && k <= |pod.containers|
    requires !Blocked(zones, pod.containers)
    ensures var p := Greedy(zones, pod.qos, known, pod.containers, k);
            p.Placed? && Explained(zones, p.zones, pod.containers, k)
  {
    if k > 0 {
      UnblockedPlaced(pod, zones, known, id, k - 1);
      var before := Greedy(zones, pod.qos, known, pod.containers, k - 1);
      GreedyDrains(zones, pod.qos, known, pod.containers, k - 1);
      NextContainerFits(pod, zones, known, id, k - 1, before.zones);
      var chosen := LeastFit(before.zones, pod.qos, known, pod.containers[k - 1]);
      NextContainerExplained(pod, zones, known, k - 1, before.zones, chosen.value);
    }
  }

  lemma SubtractKeepsEntries(left: seq<Zone>, id: int, request: ResourceList, r: string)
    requires Affine(left, r)
    ensures Affine(Subtract(left, id, request), r)
  {
    var z :| 0 <= z < |left| && r in left[z].resources;
    assert r in Subtract(left, id, request)[z].resources;
  }

  /** The container that names a resource leaves an entry for it on the zone it lands on. */
  lemma EntryLeft(zones: seq<Zone>, qos: QosClass, known: set<string>, containers: seq<ResourceList>, i: nat, r: string)
    requires i < |containers| && AllNonNegative(containers)
    requires Greedy(zones, qos, known, containers, i + 1).Placed?
    requires r in containers[i] && Lands(zones, containers[i])
    ensures Affine(Greedy(zones, qos, known, containers, i + 1).zones, r)
  {
    hide Greedy, Lands, LeastFit;
    GreedyStep(zones, qos, known, containers, i);
    GreedyDrains(zones, qos, known, containers, i);
    ChoiceHasZone(zones, qos, known, containers, i);
    var left := Greedy(zones, qos, known, containers, i).zones;
    var id := Greedy(zones, qos, known, containers, i + 1).ids[i];
    var z :| 0 <= z < |zones| && zones[z].id == id;
    assert ZoneDrained(zones[z], left[z], containers, i);
    assert r in Subtract(left, id, containers[i])[z].resources;
  }

  /** An entry left for a resource the zones did not report stays. */
  lemma {:induction false} EntryStays(zones: seq<Zone>, qos: QosClass, known: set<string>, containers: seq<ResourceList>, i: nat, k: nat, r: string)
    requires i < k <= |containers| && AllNonNegative(containers)
    requires Greedy(zones, qos, known, containers, k).Placed?
    requires r in containers[i] && Lands(zones, containers[i])
    ensures Affine(Greedy(zones, qos, known, containers, k).zones, r)
    decreases k
  {
    hide Greedy, Lands, LeastFit, Subtract, Affine;
    if i == k - 1 {
      EntryLeft(zones, qos, known, containers, i, r);
    } else {
      GreedyStep(zones, qos, known, containers, k - 1);
      var left := Greedy(zones, qos, known, containers, k - 1).zones;
      var id := Greedy(zones, qos, known, containers, k).ids[k - 1];
      EntryStays(zones, qos, known, containers, i, k - 1, r);
      SubtractKeepsEntries(left, id, containers[k - 1], r);
    }
  }

  /** Once stuck, the placement stays stuck. */
  lemma {:induction false} PlacedPrefix(zones: seq<Zone>, qos: QosClass, known: set<string>, containers: seq<ResourceList>, j: nat, k: nat)
    requires j <= k <= |containers|
    ensures Greedy(zones, qos, known, containers, k).Placed? ==> Greedy(zones, qos, known, containers, j).Placed?
    decreases k
  {
    if j < k && Greedy(zones, qos, known, containers, k).Placed? {
      GreedyStep(zones, qos, known, containers, k - 1);
      PlacedPrefix(zones, qos, known, containers, j, k - 1);
    }
  }

  /** An entry that was not reported serves no one whose amount is compared. */
  lemma LeftoversServeNoOne(zones: seq<Zone>, left: seq<Zone>, containers: seq<ResourceList>, k: nat, qos: QosClass, known: set<string>,
                            request: ResourceList, r: string)
    requires k <= |containers| && Drained(zones, left, containers, k)
    requires !Affine(zones, r) && Affine(left, r) && AmountChecked(qos, r)
    requires r in request && request[r] > 0
    ensures !Alignable(left, qos, known, request)
  {
    forall id
      ensures !FitsOn(left, qos, known, request, id)
    {
      forall z | 0 <= z < |left| && r in left[z].resources
        ensures !Suitable(qos, r, request[r], left[z].resources[r])
      {
        assert ZoneDrained(zones[z], left[z], containers, k) && r !in zones[z].resources;
      }
      assert !Meets(left, qos, known, r, request[r], id);
    }
  }

  lemma UnalignableStops(zones: seq<Zone>, qos: QosClass, known: set<string>, containers: seq<ResourceList>, k: nat)
    requires k < |containers|
    requires var p := Greedy(zones, qos, known, containers, k); p.Placed? ==> !Alignable(p.zones, qos, known, containers[k])
    ensures Greedy(zones, qos, known, containers, k + 1) == Stuck
  {
  }

  /** A blocked pair of containers cannot both be placed. */
  lemma BlockedStuck(zones: seq<Zone>, qos: QosClass, known: set<string>, containers: seq<ResourceList>, i: nat, j: nat, r: string)
    requires AllNonNegative(containers) && Blocks(zones, containers, i, j, r) && AmountChecked(qos, r)
    ensures Greedy(zones, qos, known, containers, |containers|) == Stuck
  {
    hide Greedy, Lands, Drained, Alignable;
    if Greedy(zones, qos, known, containers, j).Placed? {
      EntryStays(zones, qos, known, containers, i, j, r);
      GreedyDrains(zones, qos, known, containers, j);
      LeftoversServeNoOne(zones, Greedy(zones, qos, known, containers, j).zones, containers, j, qos, known, containers[j], r);
    }
    UnalignableStops(zones, qos, known, containers, j);
    PlacedPrefix(zones, qos, known, containers, j + 1, |containers|);
  }

  /** A qualified name that starts like huge pages is the one kind of unreported resource whose amount may go unchecked. */
  ghost predicate AmountsMatter(pod: Pod, zones: seq<Zone>) {
    forall i, r :: 0 <= i < |pod.containers| && r in pod.containers[i] ==> Affine(zones, r) || AmountChecked(pod.qos, r)
  }

  /**
    A pod accepted as a whole is accepted container by container unless two of its containers block each
    other over a resource that no zone reports: the id that fits the whole pod stays good for every
    remaining container, wherever the earlier ones were put. Where amounts matter the
    converse holds too, so blocking decides. Zone ids may repeat.
   */
  lemma PodScopeAgainstContainerScope(pod: Pod, zones: seq<Zone>, known: set<string>)
    requires AllNonNegative(pod.containers) && AllNonNegative(pod.inits)
    requires PodScopeAccepts(pod, zones, known)
    ensures !Blocked(zones, pod.containers) ==> ContainerScopeAccepts(pod, zones, known)
    ensures AmountsMatter(pod, zones) ==> (ContainerScopeAccepts(pod, zones, known) <==> !Blocked(zones, pod.containers))
  {
    var id :| FitsOn(zones, pod.qos, known, EffectiveRequest(pod), id);
    forall i | 0 <= i < |pod.inits|
      ensures Alignable(zones, pod.qos, known, pod.inits[i])
    {
      forall r
        ensures Amount(EffectiveRequest(pod), r) >= Amount(pod.inits[i], r)
      {
        EffectiveCovers(pod, r);
      }
      SmallerRequestFits(pod, zones, known, pod.inits[i], id);
    }
    if !Blocked(zones, pod.containers) {
      UnblockedPlaced(pod, zones, known, id, |pod.containers|);
    } else if AmountsMatter(pod, zones) {
      var i, j, r :| Blocks(zones, pod.containers, i, j, r);
      BlockedStuck(zones, pod.qos, known, pod.containers, i, j, r);
    }
  }

  /** With every requested resource reported by some zone nothing blocks: pod scope is the stricter of the two. */
  lemma PodScopeIsStricter(pod: Pod, zones: seq<Zone>, known: set<string>)
    requires AllNonNegative(pod.containers) && AllNonNegative(pod.inits)
    requires PodScopeAccepts(pod, zones, known)
    requires forall i, r :: 0 <= i < |pod.containers| && r in pod.containers[i] ==> Affine(zones, r)
    ensures ContainerScopeAccepts(pod, zones, known)
  {
    PodScopeAgainstContainerScope(pod, zones, known);
  }

  /**
    The other side of the equivalence at work: two containers ask for one unit each of a device
    that only the node reports. As a whole the pod is accepted; container by container the second is turned away.
   */
  lemma UnreportedDeviceBlocks(device: string)
    requires '/' in device && !IsNative(device) && !IsHugePage(device)
    ensures var zones := [Zone(0, map[CPU := 4])];
            var pod := Pod([], [map[device := 1], map[device := 1]], Burstable);
            PodScopeAccepts(pod, zones, {CPU, device}) && !ContainerScopeAccepts(pod, zones, {CPU, device})
  {
    var zones := [Zone(0, map[CPU := 4])];
    var one := map[device := 1];
    var pod := Pod([], [one, one], Burstable);
    assert device != CPU && device != MEMORY;
    assert !Affine(zones, device);
    assert FitsOn(zones, Burstable, {CPU, device}, EffectiveRequest(pod), 0) by {
      forall r | r in EffectiveRequest(pod)
        ensures r == device
      {
        OnlyDevice(pod, device, r);
      }
    }
    assert zones[0].id == 0 && Lands(zones, one);
    assert Blocks(zones, pod.containers, 0, 1, device);
    BlockedStuck(zones, Burstable, {CPU, device}, pod.containers, 0, 1, device);
  }

  lemma OnlyDevice(pod: Pod, device: string, r: string)
    requires pod.inits == [] && pod.containers == [map[device := 1], map[device := 1]]
    requires r in EffectiveRequest(pod)
    ensures r == device
  {
    var cs := pod.containers;
    assert cs[..1][..0] == [] && cs[..1][0] == cs[0];
    assert SumRequests(cs[..1]) == MergeSum(map[], cs[0]);
    assert SumRequests(cs) == MergeSum(SumRequests(cs[..1]), cs[1]);
  }
}
