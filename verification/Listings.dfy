/** Facts about listings of elements whose order does not matter. */
module Listings {

  function Without<T>(s: seq<T>, k: nat): seq<T>
    requires k < |s|
  {
    s[..k] + s[k + 1..]
  }

  /** The list a Go slice holds after the last element was moved into the gap at `k`. */
  function SwapOut<T>(s: seq<T>, k: nat): seq<T>
    requires k < |s|
  {
    s[k := s[|s| - 1]][..|s| - 1]
  }

  lemma WithoutTakesOne<T>(s: seq<T>, k: nat)
    requires k < |s|
    ensures multiset(s) == multiset(Without(s, k)) + multiset{s[k]}
  {
    assert s == s[..k] + ([s[k]] + s[k + 1..]);
  }

  lemma WithoutInit<T>(s: seq<T>, k: nat)
    requires k < |s| - 1
    ensures Without(s, k) == Without(s[..|s| - 1], k) + [s[|s| - 1]]
  {
  }

  lemma SwapOutTakesOne<T>(s: seq<T>, k: nat)
    requires k < |s|
    ensures multiset(s) == multiset(SwapOut(s, k)) + multiset{s[k]}
  {
    var last := |s| - 1;
    if k < last {
      var filled := s[k := s[last]];
      assert multiset(filled) == multiset(s) - multiset{s[k]} + multiset{s[last]};
      assert filled == SwapOut(s, k) + [s[last]];
    } else {
      assert s == SwapOut(s, k) + [s[k]];
    }
  }

  lemma SwapOutIsWithout<T>(s: seq<T>, k: nat)
    requires k < |s|
    ensures multiset(SwapOut(s, k)) == multiset(Without(s, k))
  {
    WithoutTakesOne(s, k);
    SwapOutTakesOne(s, k);
    assert multiset(SwapOut(s, k)) == multiset(s) - multiset{s[k]};
    assert multiset(Without(s, k)) == multiset(s) - multiset{s[k]};
  }

  /** Two listings of the same elements stay so when one occurrence leaves both. */
  lemma MatchRemoved<T>(p: seq<T>, q: seq<T>, k: nat)
    requires multiset(p) == multiset(q) && p != [] && k < |q| && q[k] == p[|p| - 1]
    ensures multiset(p[..|p| - 1]) == multiset(Without(q, k))
  {
    WithoutTakesOne(q, k);
    WithoutTakesOne(p, |p| - 1);
    assert p[..|p| - 1] == Without(p, |p| - 1);
    assert multiset(p[..|p| - 1]) == multiset(p) - multiset{q[k]};
    assert multiset(Without(q, k)) == multiset(q) - multiset{q[k]};
  }
}
