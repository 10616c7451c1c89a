/** Counting arguments of a call one by one against counting the distinct ones among them. */
module Counting {
  import opened Bytes

  /** How many positions hold a value with property `p`. */
  function Count(xs: seq<bytes>, p: bytes -> bool): (n: nat) {
    if xs == [] then 0 else Count(xs[..|xs| - 1], p) + if p(xs[|xs| - 1]) then 1 else 0
  }

  /** Which values with property `p` occur. */
  ghost function Distinct(xs: seq<bytes>, p: bytes -> bool): set<bytes> {
    set x | x in xs && p(x)
  }

  predicate NoRepeat(xs: seq<bytes>, p: bytes -> bool) {
    forall i, j :: 0 <= i < j < |xs| && xs[i] == xs[j] ==> !p(xs[i])
  }

  /** The two counts agree exactly if no such value is repeated. */
  lemma {:induction false} CountIsDistinct(xs: seq<bytes>, p: bytes -> bool)
    ensures Count(xs, p) >= |Distinct(xs, p)|
    ensures Count(xs, p) == |Distinct(xs, p)| <==> NoRepeat(xs, p)
  {
    if xs != [] {
      var n := |xs| - 1;
      var x, front := xs[n], xs[..n];
      CountIsDistinct(front, p);
      var small := Distinct(front, p);
      if !p(x) || x in front {
        assert Distinct(xs, p) == small;
      } else {
        assert Distinct(xs, p) == small + {x};
      }
      RepeatStep(xs, p);
    }
  }

  lemma RepeatStep(xs: seq<bytes>, p: bytes -> bool)
    requires xs != []
    ensures var n := |xs| - 1;
            NoRepeat(xs, p) <==> NoRepeat(xs[..n], p) && !(p(xs[n]) && xs[n] in xs[..n])
  {
    var n := |xs| - 1;
    var front := xs[..n];
    assert forall i :: 0 <= i < n ==> front[i] == xs[i];
  }

  lemma {:induction false} CountEvery(xs: seq<bytes>, p: bytes -> bool)
    requires forall x :: x in xs ==> p(x)
    ensures Count(xs, p) == |xs|
  {
    if xs != [] { CountEvery(xs[..|xs| - 1], p); }
  }

  lemma SubsetSize(a: set<bytes>, b: set<bytes>)
    requires a <= b
    ensures |a| <= |b| && |b - a| == |b| - |a| && (|a| == |b| <==> b <= a)
  {
    assert b == a + (b - a);
    assert |b| == |a| + |b - a|;
    assert |b - a| == 0 <==> b - a == {};
  }
}
