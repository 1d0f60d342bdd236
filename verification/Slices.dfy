/** Copies of one element, and one sequence standing inside another. */
module Slices {
  /** `n` times `x`. */
  function Repeat<T>(x: T, n: nat): (r: seq<T>)
    ensures |r| == n
  {
    seq(n, _ => x)
  }

  /** `r` stands in `out` at place `p`. */
  ghost predicate Stands<T>(out: seq<T>, p: nat, r: seq<T>) {
    p + |r| <= |out| && out[p..p + |r|] == r
  }

  lemma StandsAt<T>(out: seq<T>, p: nat, r: seq<T>, k: nat)
    requires k < |r| && Stands(out, p, r)
    ensures p + k < |out| && out[p + k] == r[k]
  {
    assert out[p..p + |r|][k] == out[p + k];
  }

  lemma StandsEverywhere<T>(out: seq<T>, p: nat, r: seq<T>)
    requires Stands(out, p, r)
    ensures forall k {:trigger out[k]} :: p <= k < p + |r| ==> out[k] == r[k - p]
  {
    forall k {:trigger out[k]} | p <= k < p + |r| ensures out[k] == r[k - p] {
      StandsAt(out, p, r, k - p);
    }
  }

  lemma StandsSlice<T>(out: seq<T>, p: nat, r: seq<T>, i: nat, j: nat)
    requires i <= j <= |r| && Stands(out, p, r)
    ensures p + j <= |out| && out[p + i..p + j] == r[i..j]
  {
    forall k | i <= k < j ensures out[p + k] == r[k] {
      StandsAt(out, p, r, k);
    }
  }

  lemma StandsBehind<T>(a: seq<T>, b: seq<T>, p: nat, r: seq<T>)
    requires Stands(b, p, r)
    ensures Stands(a + b, |a| + p, r)
  {
  }

  lemma StandsFront<T>(a: seq<T>, b: seq<T>)
    ensures Stands(a + b, 0, a)
  {
  }

  lemma StandsSplit<T>(out: seq<T>, p: nat, a: seq<T>, b: seq<T>)
    requires Stands(out, p, a + b)
    ensures Stands(out, p, a) && Stands(out, p + |a|, b)
  {
    StandsEverywhere(out, p, a + b);
    assert out[p..p + |a|] == a;
    assert out[p + |a|..p + |a| + |b|] == b;
  }

  lemma StandsThree<T>(out: seq<T>, p: nat, a: seq<T>, b: seq<T>, c: seq<T>)
    requires Stands(out, p, a + b + c)
    ensures Stands(out, p, a) && Stands(out, p + |a|, b) && Stands(out, p + |a| + |b|, c)
  {
    StandsSplit(out, p, a + b, c);
    StandsSplit(out, p, a, b);
  }
}
