/** Pods and amounts of resources, as the quota and preemption plugins see them. */
module Pods {
  import opened Options

  /** `framework.Resource`: the scalar map holds only the names that were ever set. */
  datatype Resources = Resources(cpu: int, memory: int, scalars: map<string, int>)

  const ZERO := Resources(0, 0, map[])

  datatype Dimension = Cpu | Memory | Scalar(name: string)

  /** A scalar that is not in the map counts as zero. */
  function At(r: Resources, d: Dimension): int {
    match d
    case Cpu => r.cpu
    case Memory => r.memory
    case Scalar(s) => if s in r.scalars then r.scalars[s] else 0
  }

  /** The scalar is in the map; CPU and memory always are. */
  predicate Names(r: Resources, d: Dimension) {
    d.Scalar? ==> d.name in r.scalars
  }

  function Plus(a: Resources, b: Resources): (c: Resources)
    ensures forall d :: At(c, d) == At(a, d) + At(b, d)
    ensures forall d :: Names(c, d) <==> Names(a, d) || Names(b, d)
  {
    Resources(a.cpu + b.cpu, a.memory + b.memory,
              map s | s in a.scalars.Keys + b.scalars.Keys :: At(a, Scalar(s)) + At(b, Scalar(s)))
  }

  function Minus(a: Resources, b: Resources): (c: Resources)
    ensures forall d :: At(c, d) == At(a, d) - At(b, d)
    ensures forall d :: Names(c, d) <==> Names(a, d) || Names(b, d)
  {
    Resources(a.cpu - b.cpu, a.memory - b.memory,
              map s | s in a.scalars.Keys + b.scalars.Keys :: At(a, Scalar(s)) - At(b, Scalar(s)))
  }

  ghost predicate NonNegative(r: Resources) { forall d :: At(r, d) >= 0 }

  datatype PodInfo = PodInfo(
    uid: string,
    namespace: string,
    name: string,
    labels: map<string, string>,
    priority: int,
    startTime: int,
    priorityClass: string,     // "" when none is set
    scheduledAt: Option<int>,  // when the PodScheduled condition turned true
    neverPreempts: bool,       // the pod's own preemption policy
    request: Resources)

  /** Higher priority first, earlier start first among equals. */
  predicate MoreImportant(p: PodInfo, q: PodInfo) {
    if p.priority != q.priority then p.priority > q.priority else p.startTime < q.startTime
  }

  ghost predicate DistinctUids(pods: seq<PodInfo>) {
    forall i, j :: 0 <= i < j < |pods| ==> pods[i].uid != pods[j].uid
  }

  /** A pod without a uid has no key, and cannot be removed from a node. */
  predicate HasUids(pods: seq<PodInfo>) {
    forall i :: 0 <= i < |pods| ==> pods[i].uid != ""
  }

  ghost function Elements<T>(s: seq<T>): set<T> { set x | x in s }
}

/**
  `framework.NodeInfo`: the pods of a node in a Go slice. Removing moves the last pod into
  the gap, in the array that a caller may be ranging over.
 */
module NodeInfos {
  import opened Pods
  import opened Listings

  class NodeInfo {
    var buffer: array<PodInfo>
    var length: nat
    /** The pods on the node, in no order. */
    ghost var Contents: set<PodInfo>

    ghost predicate Valid()
      reads this, buffer
    {
      && length <= buffer.Length
      && DistinctUids(buffer[..length])
      && Contents == Elements(buffer[..length])
    }

    function Pods(): seq<PodInfo>
      requires length <= buffer.Length
      reads this, buffer
    {
      buffer[..length]
    }

    constructor (pods: seq<PodInfo>)
      requires DistinctUids(pods)
      ensures Valid() && Pods() == pods && Contents == Elements(pods) && fresh(buffer)
    {
      buffer := new PodInfo[|pods|](i requires 0 <= i < |pods| => pods[i]);
      length := |pods|;
      Contents := Elements(pods);
      new;
      assert buffer[..length] == pods;
    }

    /** Fails when the pod has no uid, or no pod with this uid is on the node; `k` is where it was found. */
    method RemovePod(pod: PodInfo) returns (ok: bool, ghost k: nat)
      requires Valid()
      modifies this`length, this`Contents, buffer
      ensures Valid()
      ensures ok <==> pod.uid != "" && exists i :: 0 <= i < old(length) && old(buffer[i]).uid == pod.uid
      ensures !ok ==> length == old(length) && buffer[..] == old(buffer[..]) && Contents == old(Contents)
      ensures ok ==> k < old(length) && old(buffer[k]).uid == pod.uid && length == old(length) - 1
      ensures ok ==> buffer[..] == old(buffer[..])[k := old(buffer[length - 1])]
      ensures ok ==> Pods() == SwapOut(old(Pods()), k) && Contents == old(Contents) - {old(buffer[k])}
    {
      k := 0;
      if pod.uid == "" {
        return false, 0;
      }
      for i := 0 to length
        invariant forall j :: 0 <= j < i ==> buffer[j].uid != pod.uid
        invariant unchanged(buffer) && unchanged(this)
      {
        if buffer[i].uid == pod.uid {
          k := i;
          buffer[i] := buffer[length - 1];
          length := length - 1;
          assert Pods() == SwapOut(old(Pods()), k);
          SwapOutElements(old(Pods()), k);
          Contents := Contents - {old(buffer[k])};
          return true, i;
        }
      }
      return false, 0;
    }

    method AddPodInfo(pod: PodInfo)
      requires Valid() && forall p :: p in Contents ==> p.uid != pod.uid
      modifies this, buffer
      ensures Valid() && Pods() == old(Pods()) + [pod] && Contents == old(Contents) + {pod}
      ensures buffer == old(buffer) || fresh(buffer)
    {
      if length == buffer.Length {
        var pods := buffer[..];
        assert pods == Pods();
        var larger := new PodInfo[2 * length + 1](i => if 0 <= i < |pods| then pods[i] else pod);
        buffer := larger;
        assert buffer[..length] == pods;
      }
      buffer[length] := pod;
      length := length + 1;
      Contents := Contents + {pod};
      assert Pods() == old(Pods()) + [pod];
      assert forall i :: 0 <= i < old(length) ==> old(Pods())[i] in old(Contents);
    }
  }

  lemma SwapOutElements(s: seq<PodInfo>, k: nat)
    requires DistinctUids(s) && k < |s|
    ensures Elements(SwapOut(s, k)) == Elements(s) - {s[k]} && DistinctUids(SwapOut(s, k))
  {
    var t := SwapOut(s, k);
    forall i | 0 <= i < |s| && i != k
      ensures s[i] in t
    {
      assert i < |s| - 1 ==> t[i] == s[i];
      assert i == |s| - 1 ==> t[k] == s[i];
    }
  }

  /**
    Ranging over `nodeInfo.Pods` while removing pods from it. The loop holds the original slice
    header, so it reads all `|orig|` cells of the array, whose contents `cells` the removals change:
    the cells still to be read hold what they held, and the live list is what was not taken.
   */
  ghost predicate Ranging(orig: seq<PodInfo>, cells: seq<PodInfo>, live: nat, i: nat, taken: seq<PodInfo>) {
    && i <= |orig| == |cells| && live <= |cells|
    && cells[i..] == orig[i..]
    && (forall p :: p in taken ==> p in orig[..i])
    && DistinctUids(cells[..live])
    && Elements(cells[..live]) == Elements(orig) - Elements(taken)
  }

  lemma RangeStart(orig: seq<PodInfo>)
    requires DistinctUids(orig)
    ensures Ranging(orig, orig, |orig|, 0, [])
  {
    assert orig[..|orig|] == orig;
  }

  /** At the end the live list holds what was not taken. */
  lemma RangeEnd(orig: seq<PodInfo>, cells: seq<PodInfo>, live: nat, i: nat, taken: seq<PodInfo>)
    requires Ranging(orig, cells, live, i, taken)
    ensures live <= |cells| && Elements(cells[..live]) == Elements(orig) - Elements(taken)
  {
  }

  lemma RangeSkip(orig: seq<PodInfo>, cells: seq<PodInfo>, live: nat, i: nat, taken: seq<PodInfo>)
    requires Ranging(orig, cells, live, i, taken) && i < |orig|
    ensures Ranging(orig, cells, live, i + 1, taken) && cells[i] == orig[i]
  {
    assert cells[i..][1..] == cells[i + 1..] && orig[i..][1..] == orig[i + 1..];
    assert cells[i..][0] == cells[i] && orig[i..][0] == orig[i];
    assert orig[..i] <= orig[..i + 1];
  }

  /** The pod being visited is still on the node. */
  lemma RangeLive(orig: seq<PodInfo>, cells: seq<PodInfo>, live: nat, i: nat, taken: seq<PodInfo>) returns (k: nat)
    requires DistinctUids(orig) && Ranging(orig, cells, live, i, taken) && i < |orig|
    ensures k < live && cells[k] == orig[i]
  {
    forall p | p in taken
      ensures p != orig[i]
    {
      assert p in orig[..i];
    }
    assert orig[i] in Elements(cells[..live]);
    k :| 0 <= k < live && cells[..live][k] == orig[i];
  }

  /** Removing it overwrites a cell the loop has passed, or the one it is at. */
  lemma RangeTake(orig: seq<PodInfo>, cells: seq<PodInfo>, live: nat, i: nat, taken: seq<PodInfo>, k: nat)
    requires DistinctUids(orig) && Ranging(orig, cells, live, i, taken) && i < |orig|
    requires k < live && cells[k].uid == orig[i].uid
    ensures Ranging(orig, cells[k := cells[live - 1]], live - 1, i + 1, taken + [orig[i]])
  {
    RangeSkip(orig, cells, live, i, taken);
    forall j | i < j < live
      ensures cells[j].uid != orig[i].uid
    {
      assert cells[j] == cells[i..][j - i] == orig[i..][j - i] == orig[j];
    }
    var known := RangeLive(orig, cells, live, i, taken);
    assert cells[..live][known].uid == cells[..live][k].uid;
    var after := cells[k := cells[live - 1]];
    assert after[..live - 1] == SwapOut(cells[..live], k);
    SwapOutElements(cells[..live], k);
    assert after[i + 1..] == cells[i + 1..];
    assert Elements(taken + [orig[i]]) == Elements(taken) + {orig[i]};
    assert orig[i] in orig[..i + 1] by {
      assert orig[..i + 1][i] == orig[i];
    }
  }

  /** One removal inside the ranging loop: unless the pod has no uid it succeeds, and the loop can go on. */
  method TakeVisited(node: NodeInfo, p: PodInfo, ghost orig: seq<PodInfo>, ghost i: nat, ghost taken: seq<PodInfo>) returns (ok: bool)
    requires node.Valid() && DistinctUids(orig) && i < |orig| <= node.buffer.Length && p == orig[i]
    requires Ranging(orig, node.buffer[..|orig|], node.length, i, taken)
    modifies node`length, node`Contents, node.buffer
    ensures node.Valid() && node.length <= old(node.length)
    ensures ok <==> p.uid != ""
    ensures ok ==> Ranging(orig, node.buffer[..|orig|], node.length, i + 1, taken + [p])
  {
    ghost var n := |orig|;
    ghost var cells, live := node.buffer[..n], node.length;
    ghost var known := RangeLive(orig, cells, live, i, taken);
    assert node.buffer[known] == cells[known];
    ghost var k;
    ok, k := node.RemovePod(p);
    if ok {
      RangeTake(orig, cells, live, i, taken, k);
      assert node.buffer[..n] == cells[k := cells[live - 1]];
    }
  }
}
