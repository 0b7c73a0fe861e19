/**
  The gang scheduling protocol. A pod that has a place on a node counts as assigned, whether it is
  bound, waits for its group, or was rejected and is about to give the place up.
 */
module Gang {

  /** `group` is the full name of the pod's group, or "" when it has none. */
  datatype Pod = Pod(uid: string, group: string)

  // ---------------------------------------------------------------------------
  // A cache whose entries expire

  datatype Expiry = Never | At(time: int)

  const DEFAULT_EXPIRATION := 3

  function ExpiryFor(now: int, duration: int): Expiry {
    if duration == 0 then At(now + DEFAULT_EXPIRATION) else if duration > 0 then At(now + duration) else Never
  }

  type Cache = map<string, Expiry>

  predicate Has(c: Cache, g: string, now: int) { g in c && (c[g].Never? || now <= c[g].time) }

  /** `Add` keeps an entry that has not expired. */
  function Added(c: Cache, g: string, now: int, duration: int): Cache {
    if Has(c, g, now) then c else c[g := ExpiryFor(now, duration)]
  }

  // ---------------------------------------------------------------------------
  // The protocol

  /** The pod groups that exist, with the members each needs, and the two timeouts. */
  datatype Config = Config(minMember: map<string, int>, scheduleTimeout: int, deniedTimeout: int)

  /**
    The scheduling cycle under way; cycles are serial. Its steps count the pods that were placed when it
    began, whatever has happened since: pods that wait elsewhere may time out meanwhile.
   */
  datatype Cycle =
    | Idle
    | Busy(
        pod: Pod,
        passed: bool,       // whether the pod passed PreFilter
        snapshot: set<Pod>, // the pods placed when the cycle began
        deleted: set<Pod>)  // those of them that were deleted since

  datatype State = State(
    placed: set<Pod>,   // the assigned pods: those with a place on a node
    waiting: set<Pod>,  // of these, the pods held back in Permit
    failing: set<Pod>,  // of these, the pods rejected and not yet unreserved
    denied: Cache,
    permitted: Cache,
    now: int,
    cycle: Cycle)

  function Members(pods: set<Pod>, g: string): set<Pod> { set p | p in pods && p.group == g }

  datatype Verdict = Pass | Reject

  /** PreFilter, given how many pods of the group exist, whether it asks for resources, and whether the cluster has them. */
  function PreFilter(k: Config, s: State, pod: Pod, siblings: int, asks: bool, enough: bool): (State, Verdict) {
    var g := pod.group;
    if g == "" || g !in k.minMember then (s, Pass)
    else if Has(s.denied, g, s.now) then (s, Reject)
    else if siblings < k.minMember[g] then (s, Reject)
    else if !asks then (s, Pass)
    else if Has(s.permitted, g, s.now) then (s, Pass)
    else if !enough then (s.(denied := Added(s.denied, g, s.now, k.deniedTimeout)), Reject)
    else (s.(permitted := Added(s.permitted, g, s.now, k.scheduleTimeout)), Pass)
  }

  /** A cycle begins: the snapshot is taken, and PreFilter runs. */
  function Begun(k: Config, s: State, pod: Pod, siblings: int, asks: bool, enough: bool): State {
    var (t, verdict) := PreFilter(k, s, pod, siblings, asks, enough);
    t.(cycle := Busy(pod, verdict.Pass?, s.placed, {}))
  }

  datatype Permission = NotSpecified | NotFound | Wait | Success

  function Permit(k: Config, snapshot: set<Pod>, pod: Pod): Permission {
    if pod.group == "" then NotSpecified
    else if pod.group !in k.minMember then NotFound
    else if |Members(snapshot, pod.group)| + 1 >= k.minMember[pod.group] then Success
    else Wait
  }

  /** The pod takes its place; it waits, or its whole group is let go. */
  function Permitted(k: Config, s: State, snapshot: set<Pod>, pod: Pod): State {
    var t := s.(cycle := Idle);
    match Permit(k, snapshot, pod)
    case NotSpecified => t.(placed := s.placed + {pod})
    case NotFound => t // turned down, and nothing to undo for a group that does not exist
    case Wait => t.(placed := s.placed + {pod}, waiting := s.waiting + {pod})
    case Success => t.(placed := s.placed + {pod}, waiting := s.waiting - Members(s.waiting, pod.group))
  }

  /** The waiting pods of the group are rejected; the group is denied for a while and no longer permitted. */
  function Rejected(k: Config, s: State, g: string): State {
    s.(waiting := s.waiting - Members(s.waiting, g),
       failing := s.failing + Members(s.waiting, g),
       denied := Added(s.denied, g, s.now, k.deniedTimeout),
       permitted := s.permitted - {g})
  }

  /** A pod found no node, or did not pass PreFilter. A group that is complete, or short of its quorum by at most a tenth, is left alone. */
  function PostFiltered(k: Config, s: State, snapshot: set<Pod>, pod: Pod): State {
    var g, t := pod.group, s.(cycle := Idle);
    if g == "" || g !in k.minMember then t
    else
      var placed := |Members(snapshot, g)|;
      if placed >= k.minMember[g] then t
      else if 10 * (k.minMember[g] - placed) <= k.minMember[g] then t
      else Rejected(k, t, g)
  }

  /** A pod is no longer on its node. */
  function Gone(s: State, pod: Pod): State {
    s.(placed := s.placed - {pod}, waiting := s.waiting - {pod}, failing := s.failing - {pod})
  }

  /** A pod gives up its place: it timed out, was rejected, or could not be bound; or its own cycle breaks off after Reserve. */
  function Unreserved(k: Config, s: State, pod: Pod): State {
    var t := if pod.group == "" || pod.group !in k.minMember then s else Rejected(k, s, pod.group);
    var u := Gone(t, pod);
    if s.cycle.Busy? && s.cycle.pod == pod then u.(cycle := Idle) else u
  }

  function Deleted(s: State, pod: Pod): State {
    var t := Gone(s, pod);
    if s.cycle.Busy? then t.(cycle := s.cycle.(deleted := s.cycle.deleted + {pod})) else t
  }

  datatype Action =
    | DoPreFilter(pod: Pod, siblings: int, asks: bool, enough: bool)
    | DoPermit(pod: Pod)
    | DoPostFilter(pod: Pod)
    | BreakOff           // an error ends the cycle, or another plugin's PostFilter comes first
    | DoUnreserve(pod: Pod)
    | PodGone(pod: Pod)
    | Tick(seconds: nat)

  /**
    A cycle begins with PreFilter for a pod without a place, when no other is under way. Permit is reached only
    after PreFilter passed; PostFilter follows a failed PreFilter or Filter.
   */
  ghost predicate Enabled(s: State, a: Action) {
    match a
    case DoPreFilter(pod, _, _, _) => s.cycle.Idle? && pod !in s.placed
    case DoPermit(pod) => s.cycle.Busy? && s.cycle.pod == pod && s.cycle.passed
    case DoPostFilter(pod) => s.cycle.Busy? && s.cycle.pod == pod
    case BreakOff => s.cycle.Busy?
    case DoUnreserve(pod) => pod in s.placed || (s.cycle.Busy? && s.cycle.pod == pod && s.cycle.passed)
    case _ => true
  }

  function Next(k: Config, s: State, a: Action): State {
    match a
    case DoPreFilter(pod, siblings, asks, enough) => Begun(k, s, pod, siblings, asks, enough)
    case DoPermit(pod) => if s.cycle.Busy? then Permitted(k, s, s.cycle.snapshot, pod) else s
    case DoPostFilter(pod) => if s.cycle.Busy? then PostFiltered(k, s, s.cycle.snapshot, pod) else s
    case BreakOff => s.(cycle := Idle)
    case DoUnreserve(pod) => Unreserved(k, s, pod)
    case PodGone(pod) => Deleted(s, pod)
    case Tick(seconds) => s.(now := s.now + seconds)
  }

  function Init(now: int): State { State({}, {}, {}, map[], map[], now, Idle) }

  ghost predicate Step(k: Config, s: State, a: Action, t: State) { Enabled(s, a) && t == Next(k, s, a) }

  ghost predicate Run(k: Config, states: seq<State>, actions: seq<Action>) {
    && |states| == |actions| + 1
    && states[0] == Init(states[0].now)
    && forall i :: 0 <= i < |actions| ==> Step(k, states[i], actions[i], states[i + 1])
  }

  // ---------------------------------------------------------------------------
  // The ten percent test, in 32-bit floating point

  const HALF_ULP: real := 1.0 / 268435456.0 // for a 24-bit significand, between a sixteenth and an eighth

  /** What the test needs of rounding to the nearest 32-bit number. */
  ghost predicate RoundsToNearest(round: real -> real) {
    && (forall x: real, y: real :: x <= y ==> round(x) <= round(y))
    && (forall x: real :: 0.0625 <= x <= 0.125 ==> -HALF_ULP <= round(x) - x <= HALF_ULP)
    && round(0.125) == 0.125
    && round(0.1) == 13421773.0 / 134217728.0
  }

  /** For groups of up to two to the twenty-fourth, whose sizes are exact, the rounded quotient passes exactly when the exact one does. */
  lemma TenPercentExact(round: real -> real, gap: int, min: int)
    requires RoundsToNearest(round) && 0 < gap <= min <= 16777216
    ensures round(gap as real / min as real) <= round(0.1) <==> 10 * gap <= min
  {
    var q := gap as real / min as real;
    QuotientBounds(q, gap as real, min as real);
    if q <= 0.125 {
      assert q >= 0.0625 ==> -HALF_ULP <= round(q) - q;
      assert q < 0.0625 ==> q <= 0.1;
    } else {
      assert round(q) >= round(0.125);
    }
  }

  lemma QuotientBounds(q: real, gap: real, size: real)
    requires q * size == gap && 0.0 < size <= 16777216.0
    ensures 10.0 * gap <= size ==> q <= 0.1
    ensures 10.0 * gap >= size + 1.0 ==> q >= 0.1 + 0.1 / 16777216.0
  {
    if q > 0.1 {
      Scaled(q, 0.1, size);
    }
    var step := 0.1 / 16777216.0;
    if q < 0.1 + step {
      Scaled(0.1 + step, q, size);
      if size < 16777216.0 {
        Scaled(16777216.0, size, step);
      }
      assert 16777216.0 * step == 0.1 && size * step <= 0.1;
      assert q * size < (0.1 + step) * size == 0.1 * size + size * step;
    }
  }

  lemma Scaled(a: real, b: real, m: real)
    requires m > 0.0 && a > b
    ensures a * m > b * m
  {
    assert (a - b) * m == a * m - b * m;
  }

  // ---------------------------------------------------------------------------
  // Safety

  ghost predicate Safe(k: Config, s: State) {
    && s.waiting <= s.placed && s.failing <= s.placed && s.waiting !! s.failing
    && (forall p :: p in s.waiting ==> p.group != "" && p.group in k.minMember)
    // a group that waits is not complete
    && (forall p :: p in s.waiting ==> |Members(s.placed, p.group)| < k.minMember[p.group])
    // no group is both denied and permitted
    && (forall g :: NotBoth(s, g))
    && (s.cycle.Busy? ==> InCycle(s, s.cycle))
  }

  ghost predicate NotBoth(s: State, g: string) {
    !(Has(s.denied, g, s.now) && Has(s.permitted, g, s.now))
  }

  /** During a cycle pods only lose their places. While its group waits, none of the group has given one up. */
  ghost predicate InCycle(s: State, c: Cycle)
    requires c.Busy?
  {
    && c.pod !in c.snapshot && s.placed <= c.snapshot
    && (forall p :: p in s.waiting && p.group == c.pod.group ==> Members(c.snapshot, p.group) <= s.placed + c.deleted)
  }

  lemma MembersWith(pods: set<Pod>, pod: Pod, g: string)
    requires pod !in pods
    ensures |Members(pods + {pod}, g)| == |Members(pods, g)| + if pod.group == g then 1 else 0
  {
    if pod.group == g {
      assert Members(pods + {pod}, g) == Members(pods, g) + {pod};
    } else {
      assert Members(pods + {pod}, g) == Members(pods, g);
    }
  }

  lemma {:induction false} SmallerSet<T>(s: set<T>, t: set<T>)
    requires s <= t
    ensures |s| <= |t|
  {
    assert t == s + (t - s);
  }

  lemma MembersFewer(pods: set<Pod>, more: set<Pod>, g: string)
    requires pods <= more
    ensures |Members(pods, g)| <= |Members(more, g)|
  {
    SmallerSet(Members(pods, g), Members(more, g));
  }

  lemma PermittedSafe(k: Config, s: State, pod: Pod)
    requires Safe(k, s) && Enabled(s, DoPermit(pod))
    ensures Safe(k, Permitted(k, s, s.cycle.snapshot, pod))
  {
    var t := Permitted(k, s, s.cycle.snapshot, pod);
    forall g
      ensures NotBoth(t, g)
    {
      assert NotBoth(s, g);
    }
    forall p | p in t.waiting
      ensures p.group in k.minMember && |Members(t.placed, p.group)| < k.minMember[p.group]
    {
      MembersWith(s.placed, pod, p.group);
      MembersFewer(s.placed, s.cycle.snapshot, p.group);
    }
  }

  lemma RejectedSafe(k: Config, s: State, g: string)
    requires Safe(k, s)
    ensures Safe(k, Rejected(k, s, g))
  {
    forall h
      ensures NotBoth(Rejected(k, s, g), h)
    {
      assert NotBoth(s, h);
    }
  }

  /** A pod that leaves takes nothing from the others; the cycle goes on if no one of its group waits, or the pod was deleted. */
  lemma GoneSafe(k: Config, s: State, pod: Pod)
    requires Safe(k, s)
    ensures Safe(k, Deleted(s, pod))
    ensures Members(s.waiting, pod.group) == {} ==> Safe(k, Gone(s, pod))
  {
    var t := Gone(s, pod);
    forall g
      ensures NotBoth(t, g) && NotBoth(Deleted(s, pod), g)
    {
      assert NotBoth(s, g);
    }
    forall p | p in s.waiting
      ensures |Members(s.placed - {pod}, p.group)| < k.minMember[p.group]
      ensures Members(s.waiting, pod.group) == {} ==> p.group != pod.group
    {
      MembersFewer(s.placed - {pod}, s.placed, p.group);
      assert p in Members(s.waiting, p.group);
    }
  }

  lemma UnreservedSafe(k: Config, s: State, pod: Pod)
    requires Safe(k, s)
    ensures Safe(k, Unreserved(k, s, pod))
  {
    if pod.group == "" || pod.group !in k.minMember {
      assert Members(s.waiting, pod.group) == {};
      GoneSafe(k, s, pod);
    } else {
      var t := Rejected(k, s, pod.group);
      RejectedSafe(k, s, pod.group);
      assert Members(t.waiting, pod.group) == {};
      GoneSafe(k, t, pod);
    }
    CycleEndsSafe(k, Gone(if pod.group == "" || pod.group !in k.minMember then s else Rejected(k, s, pod.group), pod));
  }

  lemma CycleEndsSafe(k: Config, s: State)
    requires Safe(k, s)
    ensures Safe(k, s.(cycle := Idle))
  {
    forall g
      ensures NotBoth(s.(cycle := Idle), g)
    {
      assert NotBoth(s, g);
    }
  }

  /** PreFilter touches the caches only, and time only makes their entries expire. */
  lemma CachesSafe(k: Config, s: State, a: Action)
    requires Safe(k, s) && (a.DoPreFilter? || a.Tick?) && Enabled(s, a)
    ensures Safe(k, Next(k, s, a))
  {
    forall g
      ensures NotBoth(Next(k, s, a), g)
    {
      assert NotBoth(s, g);
    }
  }

  lemma NextSafe(k: Config, s: State, a: Action)
    requires Safe(k, s) && Enabled(s, a)
    ensures Safe(k, Next(k, s, a))
  {
    match a
    case DoPreFilter(pod, siblings, asks, enough) => CachesSafe(k, s, a);
    case DoPermit(pod) => PermittedSafe(k, s, pod);
    case DoPostFilter(pod) =>
      CycleEndsSafe(k, s);
      RejectedSafe(k, s.(cycle := Idle), pod.group);
    case BreakOff => CycleEndsSafe(k, s);
    case DoUnreserve(pod) => UnreservedSafe(k, s, pod);
    case PodGone(pod) => GoneSafe(k, s, pod);
    case Tick(seconds) => CachesSafe(k, s, a);
  }

  /** In every reachable state a group with a waiting pod is incomplete, and none is both denied and permitted. */
  lemma {:induction false} EveryRunSafe(k: Config, states: seq<State>, actions: seq<Action>, i: nat)
    requires Run(k, states, actions) && i < |states|
    ensures Safe(k, states[i])
  {
    if i > 0 {
      EveryRunSafe(k, states, actions, i - 1);
      assert Step(k, states[i - 1], actions[i - 1], states[i]);
      NextSafe(k, states[i - 1], actions[i - 1]);
    }
  }

  /** A rejected group is turned away by PreFilter at once, and, if it was not denied before, for as long as the denial lasts. */
  lemma RejectedGroupTurnedAway(k: Config, s: State, pod: Pod, seconds: nat, siblings: int, asks: bool, enough: bool)
    requires pod.group != "" && pod.group in k.minMember
    requires seconds == 0 || (!Has(s.denied, pod.group, s.now) && seconds <= k.deniedTimeout)
    ensures var t := Next(k, Rejected(k, s, pod.group), Tick(seconds));
            PreFilter(k, t, pod, siblings, asks, enough) == (t, Reject)
  {
    var t := Next(k, Rejected(k, s, pod.group), Tick(seconds));
    assert Has(t.denied, pod.group, t.now);
  }

  // ---------------------------------------------------------------------------
  // What the steps decide

  /** How long an entry stays: for a positive duration, for three seconds if none is given, for ever if it is negative. */
  lemma EntryStaysFor(c: Cache, g: string, now: int, duration: int, later: int)
    requires !Has(c, g, now) && now <= later
    ensures Has(Added(c, g, now, duration), g, later) <==>
      duration < 0 || (duration == 0 && later <= now + 3) || (duration > 0 && later <= now + duration)
  {
  }

  /** Who passes PreFilter. */
  lemma PassesIff(k: Config, s: State, pod: Pod, siblings: int, asks: bool, enough: bool)
    ensures var t := Next(k, s, DoPreFilter(pod, siblings, asks, enough));
            t.cycle.Busy? && t.cycle.pod == pod &&
            (t.cycle.passed <==>
               || pod.group == "" || pod.group !in k.minMember
               || (&& !Has(s.denied, pod.group, s.now) && siblings >= k.minMember[pod.group]
                   && (!asks || Has(s.permitted, pod.group, s.now) || enough)))
  {
  }

  /** A group comes to be permitted only where it asks for resources and the cluster has them; and that step does permit it, for as long as it is given. */
  lemma PermittedOnlyIfEnough(k: Config, s: State, a: Action, g: string)
    requires Enabled(s, a) && !Has(s.permitted, g, s.now)
    ensures var t := Next(k, s, a);
            Has(t.permitted, g, t.now) ==> a.DoPreFilter? && a.pod.group == g && a.asks && a.enough && g in k.minMember
    ensures var t := Next(k, s, a);
            a.DoPreFilter? && a.pod.group == g && g != "" && g in k.minMember && a.asks && t.cycle.passed ==>
              g in t.permitted && t.permitted[g] == ExpiryFor(s.now, k.scheduleTimeout)
  {
  }

  /** A denial in force is not touched by any step. */
  lemma {:induction false} DenialStays(k: Config, states: seq<State>, actions: seq<Action>, g: string, i: nat, j: nat)
    requires Run(k, states, actions) && i <= j < |states|
    requires g in states[i].denied && (states[i].denied[g].Never? || states[j].now <= states[i].denied[g].time)
    ensures g in states[j].denied && states[j].denied[g] == states[i].denied[g]
    ensures states[i].now <= states[j].now
    decreases j
  {
    if i < j {
      assert Step(k, states[j - 1], actions[j - 1], states[j]);
      assert states[j - 1].now <= states[j].now;
      DenialStays(k, states, actions, g, i, j - 1);
    }
  }

  /**
    A group that the cluster cannot hold, neither denied nor permitted before, is turned away and, in every run,
    no pod of it passes PreFilter until its denial expires.
   */
  lemma TurnedAwayUntilExpiry(k: Config, states: seq<State>, actions: seq<Action>, i: nat, j: nat)
    requires Run(k, states, actions) && i < j < |actions| && actions[i].DoPreFilter? && actions[j].DoPreFilter?
    requires var g := actions[i].pod.group;
             && g != "" && g in k.minMember && actions[j].pod.group == g
             && !Has(states[i].denied, g, states[i].now) && !Has(states[i].permitted, g, states[i].now)
    requires actions[i].siblings >= k.minMember[actions[i].pod.group] && actions[i].asks && !actions[i].enough
    requires k.deniedTimeout < 0 || states[j].now <= states[i].now + if k.deniedTimeout == 0 then 3 else k.deniedTimeout
    ensures !states[i + 1].cycle.passed && !states[j + 1].cycle.passed
  {
    var g := actions[i].pod.group;
    assert Step(k, states[i], actions[i], states[i + 1]);
    assert Step(k, states[j], actions[j], states[j + 1]);
    assert states[i + 1].denied[g] == ExpiryFor(states[i].now, k.deniedTimeout);
    DenialStays(k, states, actions, g, i + 1, j);
    assert Has(states[j].denied, g, states[j].now);
  }

  /**
    A waiting pod is rejected exactly by a PostFilter of its group that finds the group short of its quorum by more than
    a tenth, and by an Unreserve of another of its group. Whoever rejects also denies the group, and it is permitted no longer.
   */
  lemma RejectedIff(k: Config, s: State, a: Action, p: Pod)
    requires Safe(k, s) && Enabled(s, a) && p in s.waiting
    ensures var t, min := Next(k, s, a), k.minMember[p.group];
            && (p in t.failing <==>
                  || (a.DoPostFilter? && a.pod.group == p.group && 10 * (min - |Members(s.cycle.snapshot, p.group)|) > min)
                  || (a.DoUnreserve? && a.pod.group == p.group && a.pod != p))
            && (p in t.failing ==> Has(t.denied, p.group, t.now) && p.group !in t.permitted)
  {
  }

  /** A PostFilter that finds the group short by more than a tenth denies it, waiting pods or not; any other leaves both caches alone. */
  lemma PostFilterDenies(k: Config, s: State, pod: Pod)
    requires Enabled(s, DoPostFilter(pod)) && pod.group != "" && pod.group in k.minMember && k.minMember[pod.group] > 0
    ensures var t, g := Next(k, s, DoPostFilter(pod)), pod.group;
            if 10 * (k.minMember[g] - |Members(s.cycle.snapshot, g)|) > k.minMember[g]
            then Has(t.denied, g, t.now) && g !in t.permitted
            else t.denied == s.denied && t.permitted == s.permitted && t.waiting == s.waiting
  {
  }

  /** The pod stops waiting, and goes on to be bound. */
  ghost predicate Released(s: State, t: State, p: Pod) {
    p in s.waiting && p !in t.waiting && p in t.placed && p !in t.failing
  }

  /**
    A waiting pod is released only by a Permit of its own group that brings the group to its quorum, and that
    step leaves no pod of the group waiting. The quorum counts pods with a place, and those deleted since the cycle began.
   */
  lemma ReleaseIsComplete(k: Config, s: State, a: Action, p: Pod)
    requires Safe(k, s) && Enabled(s, a) && Released(s, Next(k, s, a), p)
    ensures a.DoPermit? && a.pod.group == p.group
    ensures var t := Next(k, s, a);
            && |Members(t.placed + s.cycle.deleted, p.group)| >= k.minMember[p.group]
            && Members(t.waiting, p.group) == {}
  {
    if a.DoPermit? {
      var t := Next(k, s, a);
      MembersWith(s.cycle.snapshot, a.pod, p.group);
      assert Members(s.cycle.snapshot, p.group) <= s.placed + s.cycle.deleted;
      forall q | q in Members(s.cycle.snapshot + {a.pod}, p.group)
        ensures q in Members(t.placed + s.cycle.deleted, p.group)
      {
        assert q == a.pod || q in Members(s.cycle.snapshot, p.group);
      }
      SmallerSet(Members(s.cycle.snapshot + {a.pod}, p.group), Members(t.placed + s.cycle.deleted, p.group));
    }
  }

  // ---------------------------------------------------------------------------
  // Does the quorum count pods that will not run?

  /** The members with a place that have not been rejected. */
  function Live(s: State, g: string): set<Pod> { Members(s.placed - s.failing, g) }

  /** The members that Permit counts although they are gone or rejected. */
  function Lost(s: State, g: string): set<Pod>
    requires s.cycle.Busy?
  {
    Members(s.cycle.snapshot, g) - Live(s, g)
  }

  /**
    A Permit that succeeds leaves its group with a quorum of live pods exactly when no more of the
    members it counted are gone or rejected than it counted to spare.
   */
  lemma LiveQuorumIff(k: Config, s: State, pod: Pod)
    requires Safe(k, s) && Enabled(s, DoPermit(pod)) && Permit(k, s.cycle.snapshot, pod) == Success
    ensures var min, g := k.minMember[pod.group], pod.group;
            |Live(Next(k, s, DoPermit(pod)), g)| >= min <==> |Lost(s, g)| <= |Members(s.cycle.snapshot, g)| + 1 - min
  {
    var g, t := pod.group, Next(k, s, DoPermit(pod));
    assert Live(t, g) == Live(s, g) + {pod};
    assert Members(s.cycle.snapshot, g) == Live(s, g) + Lost(s, g);
  }

  /** None of the group has left since the cycle began. */
  ghost predicate NoneLeft(s: State)
    requires s.cycle.Busy?
  {
    Members(s.placed, s.cycle.pod.group) == Members(s.cycle.snapshot, s.cycle.pod.group)
  }

  /** Step `b` of the run began the cycle that state `i` is in. */
  ghost predicate BeganAt(states: seq<State>, actions: seq<Action>, b: nat, i: nat) {
    && b < i < |states| && i <= |actions| && actions[b].DoPreFilter?
    && forall j :: b < j <= i ==> states[j].cycle.Busy?
  }

  /**
    What a cycle keeps of the state `start` it began in. Its snapshot are the pods placed then. While a group of
    that size was complete no one of it waits, so no one is rejected; and no one is as long as none has left.
   */
  ghost predicate Since(k: Config, start: State, s: State) {
    && s.cycle.Busy? && s.cycle.snapshot == start.placed && s.placed <= start.placed
    && var g := s.cycle.pod.group;
       && Members(s.failing, g) >= Members(start.failing * s.placed, g)
       && (NoneLeft(s) || Completed(k, start, g) ==> Members(s.failing, g) == Members(start.failing * s.placed, g))
       && (Completed(k, start, g) ==> Members(s.waiting, g) == {})
  }

  ghost predicate Completed(k: Config, s: State, g: string) {
    g in k.minMember && |Members(s.placed, g)| >= k.minMember[g]
  }

  lemma BeginsSince(k: Config, s: State, a: Action)
    requires Safe(k, s) && Enabled(s, a) && a.DoPreFilter?
    ensures Since(k, s, Next(k, s, a))
  {
    var g, t := a.pod.group, Next(k, s, a);
    assert Members(s.failing * s.placed, g) == Members(s.failing, g);
    if Completed(k, s, g) {
      assert forall p :: p in s.waiting ==> p.group != g;
    }
  }

  lemma StaysSince(k: Config, start: State, s: State, a: Action)
    requires Safe(k, start) && Safe(k, s) && Enabled(s, a) && Since(k, start, s) && Next(k, s, a).cycle.Busy?
    ensures Since(k, start, Next(k, s, a))
  {
    var t, g := Next(k, s, a), s.cycle.pod.group;
    match a
    case Tick(_) =>
    case PodGone(pod) => LeavesSince(k, start, s, t, pod);
    case DoUnreserve(pod) => LeavesSince(k, start, s, t, pod);
  }

  /** A pod leaves during the cycle, by Unreserve or by deletion. */
  lemma LeavesSince(k: Config, start: State, s: State, t: State, pod: Pod)
    requires Safe(k, s) && Since(k, start, s) && t.cycle.Busy?
    requires t == Deleted(s, pod) || (t == Unreserved(k, s, pod) && pod in s.placed)
    ensures Since(k, start, t)
  {
    var g := s.cycle.pod.group;
    assert t.placed == s.placed - {pod};
    if pod.group == g && pod in s.placed {
      assert pod in Members(s.cycle.snapshot, g) && pod !in Members(t.placed, g);
      assert !NoneLeft(t);
    } else {
      assert Members(t.placed, g) == Members(s.placed, g);
    }
    forall p
      ensures p in Members(t.waiting, g) ==> p in Members(s.waiting, g)
      ensures p in Members(start.failing * t.placed, g) <==> p in Members(start.failing * s.placed, g) && p != pod
      ensures p in Members(s.failing, g) && p != pod ==> p in Members(t.failing, g)
      ensures p in Members(t.failing, g) ==> p != pod && (p in Members(s.failing, g) || (pod.group == g && p in Members(s.waiting, g)))
    {
    }
  }

  /** In every run, what a cycle has kept since it began. */
  lemma {:induction false} CycleKeeps(k: Config, states: seq<State>, actions: seq<Action>, b: nat, i: nat)
    requires Run(k, states, actions) && BeganAt(states, actions, b, i)
    ensures Since(k, states[b], states[i])
    decreases i
  {
    EveryRunSafe(k, states, actions, b);
    EveryRunSafe(k, states, actions, i - 1);
    assert Step(k, states[i - 1], actions[i - 1], states[i]);
    if i == b + 1 {
      BeginsSince(k, states[b], actions[b]);
    } else {
      CycleKeeps(k, states, actions, b, i - 1);
      StaysSince(k, states[b], states[i - 1], actions[i - 1]);
    }
  }

  /**
    In every run, a cycle counts no lost pod exactly when none of the group has left since it began and none was on its
    way out then. If the group was complete already, the lost are those who left and those who were on their way out.
   */
  lemma LostIff(k: Config, states: seq<State>, actions: seq<Action>, b: nat, i: nat)
    requires Run(k, states, actions) && BeganAt(states, actions, b, i)
    ensures var start, s := states[b], states[i];
            var g := s.cycle.pod.group;
            && (Lost(s, g) == {} <==> NoneLeft(s) && Members(start.failing, g) == {})
            && (Completed(k, start, g) ==> Lost(s, g) == Members(start.placed, g) - (s.placed - start.failing))
  {
    hide Since;
    CycleKeeps(k, states, actions, b, i);
    EveryRunSafe(k, states, actions, b);
    LostSince(k, states[b], states[i]);
    if Completed(k, states[b], states[i].cycle.pod.group) {
      LostIfCompleted(k, states[b], states[i]);
    }
  }

  lemma LostSince(k: Config, start: State, s: State)
    requires Safe(k, start) && Since(k, start, s)
    ensures var g := s.cycle.pod.group; Lost(s, g) == {} <==> NoneLeft(s) && Members(start.failing, g) == {}
  {
    var g := s.cycle.pod.group;
    if Lost(s, g) == {} {
      forall p
        ensures p in Members(start.placed, g) ==> p in s.placed && p !in s.failing && p !in start.failing
      {
        assert p !in Lost(s, g);
        assert p in Members(start.failing * s.placed, g) ==> p in Members(s.failing, g);
      }
    }
    if NoneLeft(s) && Members(start.failing, g) == {} {
      forall p
        ensures p !in Lost(s, g)
      {
        assert p in Members(start.placed, g) ==> p in Members(s.placed, g);
        assert p in Members(s.failing, g) ==> p in Members(start.failing * s.placed, g) && p in Members(start.failing, g);
      }
    }
  }

  lemma LostIfCompleted(k: Config, start: State, s: State)
    requires Since(k, start, s) && Completed(k, start, s.cycle.pod.group)
    ensures var g := s.cycle.pod.group;
            && Live(s, g) == Members(s.placed - start.failing, g)
            && Lost(s, g) == Members(start.placed, g) - (s.placed - start.failing)
  {
    var g := s.cycle.pod.group;
    forall p
      ensures p in Live(s, g) <==> p in Members(s.placed - start.failing, g)
    {
      assert p in Members(s.failing, g) <==> p in Members(start.failing * s.placed, g);
    }
  }

  /** Whatever state of a run is inside a cycle, some step began it. */
  lemma {:induction false} CycleBegan(k: Config, states: seq<State>, actions: seq<Action>, i: nat) returns (b: nat)
    requires Run(k, states, actions) && i < |states| && states[i].cycle.Busy?
    ensures BeganAt(states, actions, b, i)
  {
    assert i > 0;
    assert Step(k, states[i - 1], actions[i - 1], states[i]);
    if actions[i - 1].DoPreFilter? {
      b := i - 1;
    } else {
      b := CycleBegan(k, states, actions, i - 1);
    }
  }

  /**
    When a successful Permit leaves a quorum of live pods, in every run: where the pod just completes its group, exactly when
    none of the group has left since its cycle began and none was on its way out then; where the group was complete
    already, exactly when those still placed who were not on their way out then are enough with it.
   */
  lemma LiveQuorumInRuns(k: Config, states: seq<State>, actions: seq<Action>, b: nat, i: nat)
    requires Run(k, states, actions) && BeganAt(states, actions, b, i) && i < |actions|
    requires actions[i].DoPermit? && Permit(k, states[i].cycle.snapshot, actions[i].pod) == Success
    ensures var start, s, g := states[b], states[i], actions[i].pod.group;
            |Live(states[i + 1], g)| >= k.minMember[g] <==>
              if Completed(k, start, g) then |Members(s.placed - start.failing, g)| + 1 >= k.minMember[g]
              else NoneLeft(s) && Members(start.failing, g) == {}
  {
    hide Since;
    var start, s, pod := states[b], states[i], actions[i].pod;
    var g := pod.group;
    assert Step(k, s, actions[i], states[i + 1]);
    EveryRunSafe(k, states, actions, i);
    EveryRunSafe(k, states, actions, b);
    CycleKeeps(k, states, actions, b, i);
    LostIff(k, states, actions, b, i);
    LiveQuorumIff(k, s, pod);
    assert Live(states[i + 1], g) == Live(s, g) + {pod};
    if Completed(k, start, g) {
      LostIfCompleted(k, start, s);
    } else {
      assert |Lost(s, g)| <= 0 <==> Lost(s, g) == {};
    }
  }

  /** Every rejected pod gives up its place while its group is still denied. */
  ghost predicate Prompt(s: State) {
    forall p :: p in s.failing ==> Has(s.denied, p.group, s.now)
  }

  /** If that was so when the cycle began, PreFilter saw to it that none of the group was on its way out: only leaving matters. */
  lemma PromptQuorumIff(k: Config, states: seq<State>, actions: seq<Action>, b: nat, i: nat)
    requires Run(k, states, actions) && BeganAt(states, actions, b, i) && i < |actions| && Prompt(states[b])
    requires actions[i].DoPermit? && Permit(k, states[i].cycle.snapshot, actions[i].pod) == Success
    ensures var s, g := states[i], actions[i].pod.group;
            && (Lost(s, g) == {} <==> NoneLeft(s))
            && (NoneLeft(s) ==> |Live(states[i + 1], g)| >= k.minMember[g])
            && (!Completed(k, states[b], g) ==> (|Live(states[i + 1], g)| >= k.minMember[g] <==> NoneLeft(s)))
  {
    var s, pod := states[i], actions[i].pod;
    assert Step(k, s, actions[i], states[i + 1]);
    EveryRunSafe(k, states, actions, i);
    PassedNotDenied(k, states, actions, b, i);
    assert Members(states[b].failing, pod.group) == {};
    LostIff(k, states, actions, b, i);
    LiveQuorumIff(k, s, pod);
    LiveQuorumInRuns(k, states, actions, b, i);
  }

  /** A cycle that is past PreFilter began with its group not denied. */
  lemma {:induction false} PassedNotDenied(k: Config, states: seq<State>, actions: seq<Action>, b: nat, i: nat)
    requires Run(k, states, actions) && BeganAt(states, actions, b, i) && states[i].cycle.passed
    requires states[i].cycle.pod.group != "" && states[i].cycle.pod.group in k.minMember
    ensures !Has(states[b].denied, states[i].cycle.pod.group, states[b].now)
    decreases i
  {
    assert Step(k, states[i - 1], actions[i - 1], states[i]);
    if i > b + 1 {
      PassedNotDenied(k, states, actions, b, i - 1);
    }
  }

  // The steps of the two runs below: a single group, which asks for no resources, and no other pod waits

  lemma PassesPlainly(k: Config, s: State, pod: Pod)
    requires s.cycle.Idle? && pod !in s.placed && pod.group != "" && pod.group in k.minMember && !Has(s.denied, pod.group, s.now)
    ensures Step(k, s, DoPreFilter(pod, k.minMember[pod.group], false, false), s.(cycle := Busy(pod, true, s.placed, {})))
  {
  }

  lemma StartsWaiting(k: Config, s: State, pod: Pod)
    requires s.cycle.Busy? && s.cycle.pod == pod && s.cycle.passed && pod.group != "" && pod.group in k.minMember
    requires |Members(s.cycle.snapshot, pod.group)| + 1 < k.minMember[pod.group]
    ensures Step(k, s, DoPermit(pod), s.(placed := s.placed + {pod}, waiting := s.waiting + {pod}, cycle := Idle))
  {
  }

  lemma CompletesGroup(k: Config, s: State, pod: Pod)
    requires s.cycle.Busy? && s.cycle.pod == pod && s.cycle.passed && pod.group != "" && pod.group in k.minMember
    requires |Members(s.cycle.snapshot, pod.group)| + 1 >= k.minMember[pod.group] && s.waiting == {}
    ensures Step(k, s, DoPermit(pod), s.(placed := s.placed + {pod}, cycle := Idle))
  {
    assert s.waiting - Members(s.waiting, pod.group) == s.waiting;
  }

  lemma FindsNoNode(k: Config, s: State, pod: Pod)
    requires s.cycle.Busy? && s.cycle.pod == pod && pod.group != "" && pod.group in k.minMember && !Has(s.denied, pod.group, s.now)
    requires 10 * (k.minMember[pod.group] - |Members(s.cycle.snapshot, pod.group)|) > k.minMember[pod.group] >= 0
    requires k.deniedTimeout > 0 && (forall p :: p in s.waiting ==> p.group == pod.group) && s.permitted == map[]
    ensures Step(k, s, DoPostFilter(pod), s.(waiting := {}, failing := s.failing + s.waiting,
                                             denied := s.denied[pod.group := At(s.now + k.deniedTimeout)], cycle := Idle))
  {
    assert Members(s.waiting, pod.group) == s.waiting;
  }

  lemma TimesOut(k: Config, s: State, pod: Pod)
    requires pod in s.waiting && pod in s.placed && pod.group != "" && pod.group in k.minMember && !Has(s.denied, pod.group, s.now)
    requires s.cycle.Busy? ==> s.cycle.pod != pod
    requires k.deniedTimeout > 0 && (forall p :: p in s.waiting ==> p.group == pod.group) && s.permitted == map[]
    ensures Step(k, s, DoUnreserve(pod), s.(placed := s.placed - {pod}, waiting := {}, failing := s.failing + s.waiting - {pod},
                                            denied := s.denied[pod.group := At(s.now + k.deniedTimeout)]))
  {
    assert Members(s.waiting, pod.group) == s.waiting;
  }

  lemma TimePasses(k: Config, s: State, seconds: nat)
    ensures Step(k, s, Tick(seconds), s.(now := s.now + seconds))
  {
  }

  lemma OneGroup(pods: set<Pod>, g: string)
    requires forall p :: p in pods ==> p.group == g
    ensures Members(pods, g) == pods
  {
  }

  /**
    Outside such runs the quorum can be of rejected pods. The first member waits, and is rejected because a third
    finds no node. Before it gives up its place the denial expires, and the second, turned away no longer,
    completes the group of two, of which the first is on its way out.
   */
  lemma QuorumCountsFailing() returns (k: Config, states: seq<State>, actions: seq<Action>)
    ensures Run(k, states, actions) && |actions| == 7 && actions[6].DoPermit?
    ensures var s, t, g := states[6], states[7], actions[6].pod.group;
            && s.cycle.Busy? && NoneLeft(s) && g in k.minMember
            && Permit(k, s.cycle.snapshot, actions[6].pod) == Success && |Live(t, g)| < k.minMember[g]
  {
    hide Step, Members;
    k := Config(map["g" := 2], 10, 10);
    var first, second, third := Pod("1", "g"), Pod("2", "g"), Pod("3", "g");
    OneGroup({}, "g");
    OneGroup({first}, "g");
    OneGroup({second}, "g");
    var s0 := Init(0);
    PassesPlainly(k, s0, first);
    var s1 := s0.(cycle := Busy(first, true, {}, {}));
    StartsWaiting(k, s1, first);
    var s2 := s1.(placed := {} + {first}, waiting := {} + {first}, cycle := Idle);
    PassesPlainly(k, s2, third);
    var s3 := s2.(cycle := Busy(third, true, {first}, {}));
    FindsNoNode(k, s3, third);
    var s4 := s3.(waiting := {}, failing := {} + {first}, denied := map["g" := At(10)], cycle := Idle);
    TimePasses(k, s4, 11);
    var s5 := s4.(now := 11);
    PassesPlainly(k, s5, second);
    var s6 := s5.(cycle := Busy(second, true, {first}, {}));
    CompletesGroup(k, s6, second);
    var s7 := s6.(placed := {first} + {second}, cycle := Idle);
    assert s7.placed - s7.failing == {second};
    states := [s0, s1, s2, s3, s4, s5, s6, s7];
    actions := [DoPreFilter(first, 2, false, false), DoPermit(first), DoPreFilter(third, 2, false, false), DoPostFilter(third),
                Tick(11), DoPreFilter(second, 2, false, false), DoPermit(second)];
  }

  /**
    And in a prompt run a member that leaves during the last one's cycle takes the others with it: two wait, the
    third passes PreFilter, the first times out and the second is rejected, and Permit still counts both.
   */
  lemma QuorumLostDuringCycle() returns (k: Config, states: seq<State>, actions: seq<Action>)
    ensures Run(k, states, actions) && |actions| == 7 && actions[6].DoPermit? && forall i :: 0 <= i < |states| ==> Prompt(states[i])
    ensures var s, t, g := states[6], states[7], actions[6].pod.group;
            && s.cycle.Busy? && !NoneLeft(s) && g in k.minMember
            && Permit(k, s.cycle.snapshot, actions[6].pod) == Success && |Live(t, g)| < k.minMember[g]
  {
    hide Step, Members;
    k := Config(map["g" := 3], 10, 10);
    var first, second, third := Pod("1", "g"), Pod("2", "g"), Pod("3", "g");
    var both := {first} + {second};
    OneGroup({}, "g");
    OneGroup({first}, "g");
    OneGroup({second}, "g");
    OneGroup({third}, "g");
    OneGroup(both, "g");
    assert |both| == 2;
    var s0 := Init(0);
    PassesPlainly(k, s0, first);
    var s1 := s0.(cycle := Busy(first, true, {}, {}));
    StartsWaiting(k, s1, first);
    var s2 := s1.(placed := {} + {first}, waiting := {} + {first}, cycle := Idle);
    PassesPlainly(k, s2, second);
    var s3 := s2.(cycle := Busy(second, true, {first}, {}));
    StartsWaiting(k, s3, second);
    var s4 := s3.(placed := both, waiting := both, cycle := Idle);
    PassesPlainly(k, s4, third);
    var s5 := s4.(cycle := Busy(third, true, both, {}));
    TimesOut(k, s5, first);
    assert both - {first} == {second} && {} + both - {first} == {second};
    var s6 := s5.(placed := {second}, waiting := {}, failing := {second}, denied := map["g" := At(10)]);
    CompletesGroup(k, s6, third);
    var s7 := s6.(placed := {second} + {third}, cycle := Idle);
    assert s7.placed - s7.failing == {third};
    states := [s0, s1, s2, s3, s4, s5, s6, s7];
    actions := [DoPreFilter(first, 3, false, false), DoPermit(first), DoPreFilter(second, 3, false, false), DoPermit(second),
                DoPreFilter(third, 3, false, false), DoUnreserve(first), DoPermit(third)];
  }
}
