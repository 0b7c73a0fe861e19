/** The cache of recently bound pods that the load-aware plugins consult. */
module Trimaran {

  const REPORTING_INTERVAL := 60 // seconds

  datatype Entry = Entry(timestamp: int, uid: string)

  ghost predicate Sorted(entries: seq<Entry>) {
    forall i, j :: 0 <= i < j < |entries| ==> entries[i].timestamp <= entries[j].timestamp
  }

  predicate Fresh(e: Entry, now: int) { e.timestamp + REPORTING_INTERVAL > now }

  /** The fresh entries, in order. */
  function FreshOnly(entries: seq<Entry>, now: int): seq<Entry> {
    if entries == [] then []
    else
      var rest, last := FreshOnly(entries[..|entries| - 1], now), entries[|entries| - 1];
      if Fresh(last, now) then rest + [last] else rest
  }

  lemma {:induction false} FreshSuffix(entries: seq<Entry>, now: int, k: nat)
    requires k <= |entries|
    requires forall i :: 0 <= i < k ==> !Fresh(entries[i], now)
    requires forall i :: k <= i < |entries| ==> Fresh(entries[i], now)
    ensures FreshOnly(entries, now) == entries[k..]
  {
    if entries != [] {
      var last := |entries| - 1;
      if k <= last {
        FreshSuffix(entries[..last], now, k);
        assert entries[k..] == entries[..last][k..] + [entries[last]];
      } else {
        FreshSuffix(entries[..last], now, last);
        assert entries[..last][last..] == [] && entries[k..] == [];
      }
    }
  }

  /** What a cleanup makes of one node's list: nothing at all when every entry is stale. */
  function Cleaned(entries: seq<Entry>, now: int): seq<Entry> {
    if FreshOnly(entries, now) == [] then entries else FreshOnly(entries, now)
  }

  /**
    The stated purpose, that entries older than the interval are dropped, is met exactly when
    the list is empty or its newest entry is fresh.
   */
  lemma CleanupDropsStaleIff(entries: seq<Entry>, now: int)
    requires Sorted(entries)
    ensures Cleaned(entries, now) == FreshOnly(entries, now) <==> (entries == [] || now < entries[|entries| - 1].timestamp + 60)
  {
    if entries != [] {
      var last := entries[|entries| - 1];
      if !Fresh(last, now) {
        FreshSuffix(entries, now, |entries|);
      }
    }
  }

  function RemoveFirst(entries: seq<Entry>, uid: string): seq<Entry> {
    if entries == [] then [] else if entries[0].uid == uid then entries[1..] else [entries[0]] + RemoveFirst(entries[1..], uid)
  }

  ghost predicate Timely(entries: seq<Entry>, latest: int) {
    Sorted(entries) && forall i :: 0 <= i < |entries| ==> entries[i].timestamp <= latest
  }

  lemma TimelyAppend(entries: seq<Entry>, latest: int, now: int, uid: string)
    requires Timely(entries, latest) && latest <= now
    ensures Timely(entries, now) && Timely(entries + [Entry(now, uid)], now)
  {
  }

  lemma {:induction false} RemoveFirstKeeps(entries: seq<Entry>, uid: string, latest: int)
    requires Timely(entries, latest)
    ensures Timely(RemoveFirst(entries, uid), latest)
    ensures forall e :: e in RemoveFirst(entries, uid) ==> e in entries
  {
    if entries != [] && entries[0].uid != uid {
      RemoveFirstKeeps(entries[1..], uid, latest);
      var rest := RemoveFirst(entries[1..], uid);
      forall i | 0 <= i < |rest|
        ensures entries[0].timestamp <= rest[i].timestamp
      {
        assert rest[i] in entries[1..];
      }
    }
  }

  /** The first entry with this uid goes, and the rest keep their order. */
  lemma {:induction false} RemoveFirstAt(entries: seq<Entry>, uid: string, i: nat)
    requires i <= |entries| && forall j :: 0 <= j < i ==> entries[j].uid != uid
    ensures i == |entries| ==> RemoveFirst(entries, uid) == entries
    ensures i < |entries| && entries[i].uid == uid ==> RemoveFirst(entries, uid) == entries[..i] + entries[i + 1..]
  {
    if i > 0 {
      RemoveFirstAt(entries[1..], uid, i - 1);
      assert entries[..i] == [entries[0]] + entries[1..][..i - 1];
    }
  }

  type Cache = map<string, seq<Entry>>

  function Entries(cache: Cache, node: string): seq<Entry> { if node in cache then cache[node] else [] }

  datatype Event =
    | Bound(node: string, uid: string, now: int) // a pod was added, or moved to another node
    | Unbound(node: string, uid: string)
    | Cleanup(times: map<string, int>)           // with the clock's reading when each node is visited

  ghost function Apply(cache: Cache, e: Event): Cache {
    match e
    case Bound(node, uid, now) => if node == "" then cache else cache[node := Entries(cache, node) + [Entry(now, uid)]]
    case Unbound(node, uid) => if node in cache then cache[node := RemoveFirst(cache[node], uid)] else cache
    case Cleanup(times) => if cache.Keys <= times.Keys then CleanedAll(cache, times) else cache
  }

  ghost function ApplyAll(events: seq<Event>): Cache {
    if events == [] then map[] else Apply(ApplyAll(events[..|events| - 1]), events[|events| - 1])
  }

  /** The clock readings under which pods are added do not decrease, and do not pass `latest`. */
  ghost predicate Clocked(events: seq<Event>, latest: int) {
    && (forall i :: 0 <= i < |events| && events[i].Bound? ==> events[i].now <= latest)
    && (forall i, j :: 0 <= i < j < |events| && events[i].Bound? && events[j].Bound? ==> events[i].now <= events[j].now)
  }

  /** In every run each node's list is sorted by timestamp: what the binary search of the cleanup relies on. */
  lemma {:induction false} EveryRunTimely(events: seq<Event>, latest: int)
    requires Clocked(events, latest)
    ensures forall node :: node in ApplyAll(events) ==> Timely(ApplyAll(events)[node], latest)
  {
    if events != [] {
      var before, e := events[..|events| - 1], events[|events| - 1];
      var cache := ApplyAll(before);
      match e
      case Bound(name, uid, now) =>
        EveryRunTimely(before, now);
        TimelyAppend(Entries(cache, name), now, now, uid);
        forall node | node in Apply(cache, e)
          ensures Timely(Apply(cache, e)[node], latest)
        {
        }
      case Unbound(name, uid) =>
        EveryRunTimely(before, latest);
        if name in cache {
          RemoveFirstKeeps(cache[name], uid, latest);
        }
      case Cleanup(times) =>
        EveryRunTimely(before, latest);
        forall node | node in cache && cache.Keys <= times.Keys
          ensures Timely(Cleaned(cache[node], times[node]), latest)
        {
          CleanedKeeps(cache[node], times[node], latest);
        }
    }
  }

  // ---------------------------------------------------------------------------
  // Which entries there are, in terms of the events

  function CountOf(entries: seq<Entry>, uid: string): nat {
    if entries == [] then 0 else CountOf(entries[1..], uid) + if entries[0].uid == uid then 1 else 0
  }

  lemma {:induction false} CountConcat(p: seq<Entry>, q: seq<Entry>, uid: string)
    ensures CountOf(p + q, uid) == CountOf(p, uid) + CountOf(q, uid)
  {
    if p == [] {
      assert p + q == q;
    } else {
      assert (p + q)[1..] == p[1..] + q;
      CountConcat(p[1..], q, uid);
    }
  }

  lemma {:induction false} CountAfterRemoval(entries: seq<Entry>, gone: string, uid: string)
    ensures CountOf(RemoveFirst(entries, gone), uid) == CountOf(entries, uid) - if gone == uid && CountOf(entries, uid) > 0 then 1 else 0
  {
    if entries != [] {
      var rest := RemoveFirst(entries[1..], gone);
      CountAfterRemoval(entries[1..], gone, uid);
      assert ([entries[0]] + rest)[1..] == rest;
    }
  }

  lemma {:induction false} CountAfterCleanup(entries: seq<Entry>, now: int, uid: string)
    ensures CountOf(FreshOnly(entries, now), uid) <= CountOf(entries, uid)
  {
    if entries != [] {
      var init, last := entries[..|entries| - 1], entries[|entries| - 1];
      CountAfterCleanup(init, now, uid);
      assert entries == init + [last];
      CountConcat(init, [last], uid);
      CountConcat(FreshOnly(init, now), [last], uid);
    }
  }

  lemma {:induction false} NoneCounted(entries: seq<Entry>, uid: string)
    ensures CountOf(entries, uid) == 0 <==> forall i :: 0 <= i < |entries| ==> entries[i].uid != uid
  {
    if entries != [] {
      NoneCounted(entries[1..], uid);
    }
  }

  ghost predicate Binds(e: Event, node: string, uid: string) { e.Bound? && e.node == node && e.uid == uid }

  /** How often the pod was bound to the node. */
  ghost function TimesBound(events: seq<Event>, node: string, uid: string): nat {
    if events == [] then 0
    else TimesBound(events[..|events| - 1], node, uid) + if Binds(events[|events| - 1], node, uid) then 1 else 0
  }

  /** One event adds at most the entry it binds, and an unbinding takes one entry of its pod. */
  lemma CountNext(cache: Cache, e: Event, node: string, uid: string)
    ensures CountOf(Entries(Apply(cache, e), node), uid) <= CountOf(Entries(cache, node), uid) + if Binds(e, node, uid) then 1 else 0
    ensures e == Unbound(node, uid) ==> CountOf(Entries(Apply(cache, e), node), uid) <= if CountOf(Entries(cache, node), uid) > 0 then CountOf(Entries(cache, node), uid) - 1 else 0
  {
    match e
    case Bound(name, u, now) =>
      CountConcat(Entries(cache, node), [Entry(now, u)], uid);
    case Unbound(name, u) =>
      CountAfterRemoval(Entries(cache, node), u, uid);
    case Cleanup(times) =>
      if node in cache && cache.Keys <= times.Keys {
        CountAfterCleanup(cache[node], times[node], uid);
      }
  }

  lemma {:induction false} CountsWithinBindings(events: seq<Event>, node: string, uid: string)
    ensures CountOf(Entries(ApplyAll(events), node), uid) <= TimesBound(events, node, uid)
  {
    if events != [] {
      CountsWithinBindings(events[..|events| - 1], node, uid);
      CountNext(ApplyAll(events[..|events| - 1]), events[|events| - 1], node, uid);
    }
  }

  /** In every run, a pod that was bound to a node once, and unbound since, has no entry there any more. */
  lemma {:induction false} UnboundIsGone(events: seq<Event>, node: string, uid: string, i: nat)
    requires i < |events| && events[i] == Unbound(node, uid) && TimesBound(events[..i], node, uid) <= 1
    requires forall j :: i < j < |events| ==> !Binds(events[j], node, uid)
    ensures CountOf(Entries(ApplyAll(events), node), uid) == 0
    ensures forall j :: 0 <= j < |Entries(ApplyAll(events), node)| ==> Entries(ApplyAll(events), node)[j].uid != uid
  {
    hide Apply, CountOf, TimesBound;
    var n := |events| - 1;
    var before := events[..n];
    CountNext(ApplyAll(before), events[n], node, uid);
    if i < n {
      assert before[..i] == events[..i];
      UnboundIsGone(before, node, uid, i);
    } else {
      CountsWithinBindings(before, node, uid);
    }
    NoneCounted(Entries(ApplyAll(events), node), uid);
  }

  /** A cleanup that drops anything keeps exactly the entries of the last sixty seconds. */
  lemma {:induction false} FreshOnlyIff(entries: seq<Entry>, now: int, e: Entry)
    ensures e in FreshOnly(entries, now) <==> e in entries && now < e.timestamp + 60
    ensures e in entries && now < e.timestamp + 60 ==> e in Cleaned(entries, now)
  {
    if entries != [] {
      var init, last := entries[..|entries| - 1], entries[|entries| - 1];
      FreshOnlyIff(init, now, e);
      assert e in entries <==> e in init || e == last;
    }
  }

  /** A pod without a node leaves no entry. */
  lemma {:induction false} NoNamelessNode(events: seq<Event>)
    ensures "" !in ApplyAll(events)
  {
    if events != [] {
      NoNamelessNode(events[..|events| - 1]);
    }
  }

  lemma {:induction false} OthersKept(entries: seq<Entry>, uid: string, e: Entry)
    requires e in entries && e.uid != uid
    ensures e in RemoveFirst(entries, uid)
  {
    if entries[0].uid != uid && e != entries[0] {
      OthersKept(entries[1..], uid, e);
    }
  }

  /** In every run, the entry of a pod that was bound is there for sixty seconds at least, unless the pod is unbound. */
  lemma {:induction false} BoundIsKept(events: seq<Event>, node: string, uid: string, now: int, i: nat)
    requires i < |events| && events[i] == Bound(node, uid, now) && node != ""
    requires forall j :: i < j < |events| ==> events[j] != Unbound(node, uid)
    requires forall j :: i < j < |events| && events[j].Cleanup? && node in events[j].times ==> events[j].times[node] < now + 60
    ensures Entry(now, uid) in Entries(ApplyAll(events), node)
  {
    var n := |events| - 1;
    if i < n {
      var cache, last := ApplyAll(events[..n]), events[n];
      BoundIsKept(events[..n], node, uid, now, i);
      match last
      case Bound(_, _, _) =>
      case Unbound(name, u) =>
        if name == node {
          OthersKept(cache[node], u, Entry(now, uid));
        }
      case Cleanup(times) =>
        if cache.Keys <= times.Keys {
          FreshOnlyIff(cache[node], times[node], Entry(now, uid));
        }
    }
  }

  // ---------------------------------------------------------------------------
  // Slices, compacted in place

  const EMPTY := Entry(0, "")

  /** A Go slice: the header is a value, the array behind it is shared by whoever holds one. */
  datatype Slice = Slice(buffer: array<Entry>, length: nat) {
    predicate Fits()
      reads {}
    { length <= buffer.Length }

    function Entries(): seq<Entry>
      requires Fits()
      reads buffer
    { buffer[..length] }
  }

  /** `copy` towards the front of the same array. */
  method CopyDown(a: array<Entry>, to: nat, from: nat, count: nat)
    requires to <= from && from + count <= a.Length
    modifies a
    ensures a[..] == MovedDown(old(a[..]), to, from, count)
  {
    ghost var before := a[..];
    for k := 0 to count
      invariant a[..] == MovedDown(before, to, from, k)
    {
      assert a[from + k] == a[..][from + k] == before[from + k];
      a[to + k] := a[from + k];
    }
  }

  ghost function MovedDown(s: seq<Entry>, to: nat, from: nat, count: nat): (t: seq<Entry>)
    requires to <= from && from + count <= |s|
    ensures |t| == |s| && forall i :: 0 <= i < |s| ==> t[i] == if to <= i < to + count then s[i + (from - to)] else s[i]
  {
    seq(|s|, i requires 0 <= i < |s| => if to <= i < to + count then s[i + (from - to)] else s[i])
  }

  method Clear(a: array<Entry>, lo: nat, hi: nat)
    requires lo <= hi <= a.Length
    modifies a
    ensures forall i :: lo <= i < hi ==> a[i] == EMPTY
    ensures forall i :: 0 <= i < lo || hi <= i < a.Length ==> a[i] == old(a[i])
  {
    for k := lo to hi
      invariant forall i :: lo <= i < k ==> a[i] == EMPTY
      invariant forall i :: 0 <= i < lo || k <= i < a.Length ==> a[i] == old(a[i])
    {
      a[k] := EMPTY;
    }
  }

  /** `append`: in place while there is capacity, in a larger array otherwise. */
  method Append(s: Slice, e: Entry) returns (r: Slice)
    requires s.Fits()
    modifies s.buffer
    ensures r.Fits() && r.Entries() == old(s.Entries()) + [e]
    ensures r.buffer == s.buffer || (fresh(r.buffer) && unchanged(s.buffer))
  {
    if s.length < s.buffer.Length {
      s.buffer[s.length] := e;
      r := Slice(s.buffer, s.length + 1);
    } else {
      var larger := new Entry[2 * s.length + 1](i reads s.buffer => if 0 <= i < s.buffer.Length then s.buffer[i] else e);
      r := Slice(larger, s.length + 1);
    }
  }

  /** What comes after a gap moves down over it, and the cells at the end are cleared. */
  method Close(s: Slice, lo: nat, hi: nat) returns (r: Slice)
    requires s.Fits() && lo <= hi <= s.length
    modifies s.buffer
    ensures r.Fits() && r.buffer == s.buffer && r.Entries() == old(s.Entries()[..lo]) + old(s.Entries()[hi..])
    ensures forall i :: r.length <= i < s.length ==> s.buffer[i] == EMPTY
  {
    ghost var before := s.buffer[..];
    var n := s.length - (hi - lo);
    CopyDown(s.buffer, lo, hi, s.length - hi);
    ghost var after := s.buffer[..];
    Clear(s.buffer, n, s.length);
    r := Slice(s.buffer, n);
    assert r.Entries() == after[..n];
    GapClosed(before, lo, hi, s.length);
    assert before[..s.length] == old(s.Entries());
  }

  lemma GapClosed(s: seq<Entry>, lo: nat, hi: nat, length: nat)
    requires lo <= hi <= length <= |s|
    ensures MovedDown(s, lo, hi, length - hi)[..length - (hi - lo)] == s[..length][..lo] + s[..length][hi..]
  {
    var moved, n := MovedDown(s, lo, hi, length - hi), length - (hi - lo);
    forall i | 0 <= i < n
      ensures moved[i] == (s[..length][..lo] + s[..length][hi..])[i]
    {
      assert lo <= i ==> (s[..length][..lo] + s[..length][hi..])[i] == s[..length][hi..][i - lo];
    }
  }

  /** The rest of the list moves down over the first entry with this uid, and the last cell is cleared. */
  method RemoveEntry(s: Slice, uid: string) returns (r: Slice)
    requires s.Fits()
    modifies s.buffer
    ensures r.Fits() && r.buffer == s.buffer && r.Entries() == RemoveFirst(old(s.Entries()), uid)
    ensures forall i :: r.length <= i < s.length ==> s.buffer[i] == EMPTY
  {
    ghost var entries := s.Entries();
    for i := 0 to s.length
      invariant forall j :: 0 <= j < i ==> entries[j].uid != uid
      invariant s.buffer[..] == old(s.buffer[..])
    {
      assert s.buffer[i] == s.buffer[..][i] == entries[i];
      if s.buffer[i].uid == uid {
        RemoveFirstAt(entries, uid, i);
        assert s.Entries() == entries;
        r := Close(s, i, i + 1);
        return;
      }
    }
    RemoveFirstAt(entries, uid, s.length);
    assert s.buffer[..][..s.length] == s.Entries();
    return s;
  }

  /** `sort.Search` with the freshness test: the first fresh index of a list that turns from stale to fresh once. */
  method SearchFresh(s: Slice, now: int) returns (k: nat)
    requires s.Fits() && Sorted(s.Entries())
    ensures k <= s.length
    ensures forall i :: 0 <= i < k ==> !Fresh(s.Entries()[i], now)
    ensures forall i :: k <= i < s.length ==> Fresh(s.Entries()[i], now)
  {
    ghost var entries := s.Entries();
    var i, j := 0, s.length;
    while i < j
      invariant 0 <= i <= j <= s.length
      invariant forall m :: 0 <= m < i ==> !Fresh(entries[m], now)
      invariant forall m :: j <= m < s.length ==> Fresh(entries[m], now)
    {
      var h := (i + j) / 2;
      assert s.buffer[h] == entries[h];
      if !Fresh(s.buffer[h], now) {
        i := h + 1;
      } else {
        j := h;
      }
    }
    k := i;
  }

  /** One list: the search, then the fresh part moves over the stale prefix; a list without a fresh entry is left as it is. */
  method CleanNode(s: Slice, now: int) returns (r: Slice)
    requires s.Fits() && Sorted(s.Entries())
    modifies s.buffer
    ensures r.Fits() && r.buffer == s.buffer && r.Entries() == Cleaned(old(s.Entries()), now)
    ensures forall i :: r.length <= i < s.length ==> s.buffer[i] == EMPTY
  {
    ghost var entries := s.Entries();
    var k := SearchFresh(s, now);
    assert entries == s.Entries();
    FreshSuffix(entries, now, k);
    if k == s.length {
      return s;
    }
    r := Close(s, 0, k);
    assert [] + entries[k..] == entries[k..];
  }

  /** Pods bound to nodes, by node, with the time they were first seen. */
  class PodAssignEventHandler {
    var slices: map<string, Slice>
    /** The lists, as values. */
    ghost var cache: Cache
    /** The arrays behind them. */
    ghost var Repr: set<array<Entry>>
    /** The latest reading of the clock. */
    ghost var latest: int

    /** Every list is sorted by timestamp, no entry is from the future, and no two nodes share an array. */
    ghost predicate Valid()
      reads this, Repr
    {
      && cache.Keys == slices.Keys
      && (forall node :: node in slices ==>
            && slices[node].buffer in Repr && slices[node].Fits() && slices[node].Entries() == cache[node]
            && Timely(cache[node], latest))
      && (forall m, n :: m in slices && n in slices && m != n ==> slices[m].buffer != slices[n].buffer)
    }

    constructor ()
      ensures Valid() && cache == map[] && Repr == {}
    {
      slices, cache, Repr, latest := map[], map[], {}, 0;
    }

    /** One node's list was replaced, in its own array or a new one; no other array was touched. */
    twostate lemma StaysValid(node: string, new s: Slice)
      requires old(Valid()) && s.Fits() && old(latest) <= latest && Timely(s.Entries(), latest)
      requires slices == old(slices)[node := s] && cache == old(cache)[node := s.Entries()] && Repr == old(Repr) + {s.buffer}
      requires s.buffer in old(Repr) ==> node in old(slices) && s.buffer == old(slices)[node].buffer
      requires forall b :: b in old(Repr) && b != s.buffer ==> unchanged(b)
      ensures Valid()
    {
      forall n | n in slices && n != node
        ensures slices[n].buffer in Repr && slices[n].Entries() == cache[n] && Timely(cache[n], latest)
      {
        assert slices[n] == old(slices)[n] && slices[n].buffer != s.buffer;
        assert unchanged(slices[n].buffer);
      }
    }

    method UpdateCache(node: string, uid: string, now: int)
      requires Valid() && latest <= now
      modifies this, Repr
      ensures Valid() && old(latest) <= latest && fresh(Repr - old(Repr))
      ensures cache == Apply(old(cache), Bound(node, uid, now))
    {
      if node == "" {
        return;
      }
      TimelyAppend(Entries(cache, node), latest, now, uid);
      var held;
      if node in slices {
        held := slices[node];
      } else {
        var none := new Entry[0];
        held := Slice(none, 0);
      }
      AppendFor(node, held, Entry(now, uid));
    }

    /** The list that is held for the node, or the empty one it starts from, with one more entry. */
    method AppendFor(node: string, held: Slice, e: Entry)
      requires Valid() && held.Fits() && held.Entries() == Entries(cache, node)
      requires held.buffer in Repr ==> node in slices && held.buffer == slices[node].buffer
      requires Timely(held.Entries() + [e], e.timestamp) && latest <= e.timestamp
      modifies this, held.buffer
      ensures Valid() && latest == e.timestamp && fresh(Repr - old(Repr) - {held.buffer})
      ensures cache == old(cache)[node := old(Entries(cache, node)) + [e]]
    {
      var s := Append(held, e);
      slices := slices[node := s];
      cache := cache[node := s.Entries()];
      Repr := Repr + {s.buffer};
      latest := e.timestamp;
      StaysValid(node, s);
    }

    method OnAdd(node: string, uid: string, now: int)
      requires Valid() && latest <= now
      modifies this, Repr
      ensures Valid() && old(latest) <= latest && fresh(Repr - old(Repr))
      ensures cache == Apply(old(cache), Bound(node, uid, now))
    {
      UpdateCache(node, uid, now);
    }

    /** Only an update that moves the pod to another node is cached, under the new node. */
    method OnUpdate(oldNode: string, newNode: string, uid: string, now: int)
      requires Valid() && latest <= now
      modifies this, Repr
      ensures Valid() && old(latest) <= latest && fresh(Repr - old(Repr))
      ensures cache == if oldNode == newNode then old(cache) else Apply(old(cache), Bound(newNode, uid, now))
    {
      if oldNode != newNode {
        UpdateCache(newNode, uid, now);
      }
    }

    method OnDelete(node: string, uid: string)
      requires Valid()
      modifies this`slices, this`cache, Repr
      ensures Valid() && cache == Apply(old(cache), Unbound(node, uid))
    {
      if node !in slices {
        return;
      }
      RemoveFirstKeeps(cache[node], uid, latest);
      var s := RemoveEntry(slices[node], uid);
      slices := slices[node := s];
      cache := cache[node := s.Entries()];
      assert Repr == Repr + {s.buffer};
      StaysValid(node, s);
    }

    method CleanOne(node: string, now: int)
      requires Valid() && node in cache
      modifies this`slices, this`cache, Repr
      ensures Valid() && cache == old(cache)[node := Cleaned(old(cache)[node], now)]
    {
      CleanedKeeps(cache[node], now, latest);
      var s := CleanNode(slices[node], now);
      slices := slices[node := s];
      cache := cache[node := s.Entries()];
      assert Repr == Repr + {s.buffer};
      StaysValid(node, s);
    }

    lemma KeysAgree()
      requires Valid()
      ensures cache.Keys == slices.Keys
    {
    }

    /** Every node's list is searched, at the clock's reading `times` when that node is visited, and its fresh part moved to the front. */
    method CleanupCache(times: map<string, int>)
      requires Valid() && cache.Keys <= times.Keys
      modifies this`slices, this`cache, Repr
      ensures Valid() && cache == Apply(old(cache), Cleanup(times))
    {
      hide Cleaned, Valid;
      KeysAgree();
      ghost var before, target := cache, CleanedAll(cache, times);
      var rest := slices.Keys;
      while rest != {}
        invariant rest <= before.Keys && cache.Keys == before.Keys && Valid()
        invariant forall node :: node in before ==> cache[node] == if node in rest then before[node] else target[node]
        decreases rest
      {
        var node :| node in rest;
        rest := rest - {node};
        CleanOne(node, times[node]);
      }
      assert cache == target;
    }
  }

  ghost function CleanedAll(cache: Cache, times: map<string, int>): Cache
    requires cache.Keys <= times.Keys
  {
    map node | node in cache :: Cleaned(cache[node], times[node])
  }

  lemma CleanedKeeps(entries: seq<Entry>, now: int, latest: int)
    requires Timely(entries, latest)
    ensures Sorted(entries) && Timely(Cleaned(entries, now), latest)
    ensures Cleaned(entries, now) == [] <==> entries == []
  {
    var k := FirstFresh(entries, now);
    FreshSuffix(entries, now, k);
  }

  lemma {:induction false} FirstFresh(entries: seq<Entry>, now: int) returns (k: nat)
    requires Sorted(entries)
    ensures k <= |entries|
    ensures forall i :: 0 <= i < k ==> !Fresh(entries[i], now)
    ensures forall i :: k <= i < |entries| ==> Fresh(entries[i], now)
  {
    if entries == [] || !Fresh(entries[|entries| - 1], now) {
      k := |entries|;
    } else {
      k := FirstFresh(entries[..|entries| - 1], now);
    }
  }
}
