/**
  Greedy reprieve: with all candidates off the node, take them back one at a time, in order,
  as long as the preemptor still fits. What the filters say depends on the pods left on the node.
 */
module Reprieve {
  import opened Pods

  type Fits = set<PodInfo> -> bool

  /** More pods on the node never help the preemptor. */
  ghost predicate Monotone(fits: Fits) {
    forall s: set<PodInfo>, t: set<PodInfo> :: s <= t && fits(t) ==> fits(s)
  }

  datatype Outcome = Outcome(kept: set<PodInfo>, victims: seq<PodInfo>)

  /** The first `n` candidates of the order, with the pods of `base` on the node throughout. */
  function Greedy(fits: Fits, base: set<PodInfo>, order: seq<PodInfo>, n: nat): Outcome
    requires n <= |order|
  {
    if n == 0 then Outcome({}, [])
    else
      var o := Greedy(fits, base, order, n - 1);
      if fits(base + o.kept + {order[n - 1]})
      then Outcome(o.kept + {order[n - 1]}, o.victims)
      else Outcome(o.kept, o.victims + [order[n - 1]])
  }

  lemma GreedyNone(fits: Fits, base: set<PodInfo>, order: seq<PodInfo>)
    ensures Greedy(fits, base, order, 0) == Outcome({}, [])
  {
  }

  lemma GreedyNext(fits: Fits, base: set<PodInfo>, order: seq<PodInfo>, n: nat, o: Outcome) returns (next: Outcome)
    requires n < |order| && o == Greedy(fits, base, order, n)
    ensures next == Greedy(fits, base, order, n + 1)
    ensures next == if fits(base + o.kept + {order[n]})
                    then Outcome(o.kept + {order[n]}, o.victims) else Outcome(o.kept, o.victims + [order[n]])
  {
    next := Greedy(fits, base, order, n + 1);
  }

  /** Everyone is kept or a victim, and no one is both. */
  lemma {:induction false} GreedyPartitions(fits: Fits, base: set<PodInfo>, order: seq<PodInfo>, n: nat)
    requires n <= |order| && DistinctUids(order)
    ensures var o := Greedy(fits, base, order, n);
            && o.kept + Elements(o.victims) == Elements(order[..n])
            && o.kept !! Elements(o.victims)
  {
    if n > 0 {
      GreedyPartitions(fits, base, order, n - 1);
      var o, p := Greedy(fits, base, order, n - 1), order[n - 1];
      NextIsNew(order, n - 1);
      assert order[..n] == order[..n - 1] + [p];
      ElementsWith(order[..n - 1], p);
      ElementsWith(o.victims, p);
      assert p !in Elements(order[..n - 1]);
    }
  }

  lemma ElementsWith(s: seq<PodInfo>, p: PodInfo)
    ensures Elements(s + [p]) == Elements(s) + {p}
  {
  }

  lemma NextIsNew(order: seq<PodInfo>, n: nat)
    requires n < |order| && DistinctUids(order)
    ensures forall q :: q in Elements(order[..n]) ==> q.uid != order[n].uid
  {
  }

  /** Victims are listed once each. */
  lemma {:induction false} VictimsDistinct(fits: Fits, base: set<PodInfo>, order: seq<PodInfo>, n: nat)
    requires n <= |order| && DistinctUids(order)
    ensures DistinctUids(Greedy(fits, base, order, n).victims)
  {
    hide Greedy;
    if n == 0 {
      GreedyNone(fits, base, order);
    } else {
      VictimsDistinct(fits, base, order, n - 1);
      GreedyPartitions(fits, base, order, n - 1);
      NextIsNew(order, n - 1);
      var victims := Greedy(fits, base, order, n - 1).victims;
      var _ := GreedyNext(fits, base, order, n - 1, Greedy(fits, base, order, n - 1));
      forall i | 0 <= i < |victims|
        ensures victims[i].uid != order[n - 1].uid
      {
        assert victims[i] in Elements(victims);
      }
    }
  }

  lemma {:induction false} GreedyFits(fits: Fits, base: set<PodInfo>, order: seq<PodInfo>, n: nat)
    requires n <= |order| && fits(base)
    ensures fits(base + Greedy(fits, base, order, n).kept)
  {
    if n > 0 {
      GreedyFits(fits, base, order, n - 1);
      var kept := Greedy(fits, base, order, n - 1).kept;
      assert base + (kept + {order[n - 1]}) == base + kept + {order[n - 1]};
    } else {
      assert base + {} == base;
    }
  }

  lemma {:induction false} KeptGrows(fits: Fits, base: set<PodInfo>, order: seq<PodInfo>, m: nat, n: nat)
    requires m <= n <= |order|
    ensures Greedy(fits, base, order, m).kept <= Greedy(fits, base, order, n).kept
    decreases n
  {
    if m < n {
      KeptGrows(fits, base, order, m, n - 1);
    }
  }

  lemma {:induction false} VictimsGrow(fits: Fits, base: set<PodInfo>, order: seq<PodInfo>, m: nat, n: nat)
    requires m <= n <= |order|
    ensures Greedy(fits, base, order, m).victims <= Greedy(fits, base, order, n).victims
    decreases n
  {
    if m < n {
      VictimsGrow(fits, base, order, m, n - 1);
    }
  }

  /** Where a victim was turned down. */
  lemma {:induction false} VictimTurnedDown(fits: Fits, base: set<PodInfo>, order: seq<PodInfo>, n: nat, v: PodInfo) returns (i: nat)
    requires n <= |order| && v in Greedy(fits, base, order, n).victims
    ensures i < n && order[i] == v && !fits(base + Greedy(fits, base, order, i).kept + {v})
  {
    var o := Greedy(fits, base, order, n - 1);
    if v in o.victims {
      i := VictimTurnedDown(fits, base, order, n - 1, v);
    } else {
      i := n - 1;
    }
  }

  /** No victim is needless: putting any single one back breaks the fit. */
  lemma VictimsNeeded(fits: Fits, base: set<PodInfo>, order: seq<PodInfo>, v: PodInfo)
    requires Monotone(fits) && v in Greedy(fits, base, order, |order|).victims
    ensures !fits(base + Greedy(fits, base, order, |order|).kept + {v})
  {
    var i := VictimTurnedDown(fits, base, order, |order|, v);
    KeptGrows(fits, base, order, i, |order|);
    var some, all := Greedy(fits, base, order, i).kept, Greedy(fits, base, order, |order|).kept;
    assert base + some + {v} <= base + all + {v};
  }

  lemma {:induction false} KeptMember(fits: Fits, base: set<PodInfo>, order: seq<PodInfo>, n: nat, i: nat)
    requires i < n <= |order| && DistinctUids(order)
    ensures order[i] in Greedy(fits, base, order, n).kept <==> fits(base + Greedy(fits, base, order, i).kept + {order[i]})
    decreases n
  {
    if i < n - 1 {
      KeptMember(fits, base, order, n - 1, i);
    } else {
      GreedyPartitions(fits, base, order, i);
      forall p | p in Greedy(fits, base, order, i).kept
        ensures p != order[i]
      {
        assert p in order[..i];
      }
    }
  }

  /**
    Against any other feasible choice, the first candidate on which the two differ is one that
    the greedy choice keeps: it is the lexicographically greatest feasible set.
   */
  ghost predicate LexGreatest(fits: Fits, base: set<PodInfo>, order: seq<PodInfo>, kept: set<PodInfo>) {
    forall other: set<PodInfo>, i :: 0 <= i < |order| && fits(base + other) && other <= Elements(order)
      && (forall j :: 0 <= j < i ==> (order[j] in other <==> order[j] in kept))
      && order[i] in other
      ==> order[i] in kept
  }

  lemma GreedyLexGreatest(fits: Fits, base: set<PodInfo>, order: seq<PodInfo>)
    requires Monotone(fits) && DistinctUids(order)
    ensures LexGreatest(fits, base, order, Greedy(fits, base, order, |order|).kept)
  {
    var kept := Greedy(fits, base, order, |order|).kept;
    forall other: set<PodInfo>, i | 0 <= i < |order| && fits(base + other) && other <= Elements(order)
      && (forall j :: 0 <= j < i ==> (order[j] in other <==> order[j] in kept))
      && order[i] in other
      ensures order[i] in kept
    {
      var before := Greedy(fits, base, order, i).kept;
      GreedyPartitions(fits, base, order, i);
      KeptGrows(fits, base, order, i, |order|);
      assert before <= other by {
        forall p | p in before
          ensures p in other
        {
          assert p in order[..i];
          var j :| 0 <= j < i && order[j] == p;
        }
      }
      assert base + before + {order[i]} <= base + other;
      KeptMember(fits, base, order, |order|, i);
    }
  }
}
