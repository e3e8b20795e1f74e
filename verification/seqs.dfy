/**
 * The array operations the components share: `slice(0, n)`, `filter`, a
 * stable partition, flattening, and the "first k, then +N more" badge rule
 * used for technology pills and skill badges.
 */
module Seqs {
  import opened Wrappers

  function Min(a: nat, b: nat): nat {
    if a <= b then a else b
  }

  /** `xs.slice(0, n)`: the first `n` elements, or all of them when there are fewer. */
  function Take<T>(xs: seq<T>, n: nat): (r: seq<T>)
    ensures |r| == Min(|xs|, n)
    ensures r <= xs
  {
    if |xs| <= n then xs else xs[..n]
  }

  /** `xs.filter(f)`: the elements satisfying `f`, in order. */
  function Filter<T>(xs: seq<T>, f: T -> bool): (r: seq<T>)
    ensures |r| <= |xs|
    ensures forall i :: 0 <= i < |r| ==> f(r[i]) && r[i] in xs
    ensures forall i :: 0 <= i < |xs| && f(xs[i]) ==> xs[i] in r
    decreases |xs|
  {
    if |xs| == 0 then []
    else if f(xs[0]) then [xs[0]] + Filter(xs[1..], f)
    else Filter(xs[1..], f)
  }

  lemma {:induction false} FilterAppend<T>(a: seq<T>, b: seq<T>, f: T -> bool)
    ensures Filter(a + b, f) == Filter(a, f) + Filter(b, f)
    decreases |a|
  {
    if |a| == 0 {
      assert a + b == b;
    } else {
      assert (a + b)[1..] == a[1..] + b;
      FilterAppend(a[1..], b, f);
    }
  }

  /**
   * An element that satisfies `f` sits in the filtered sequence right after
   * the kept elements that precede it: it is the `|Filter(xs[..j], f)|`-th
   * survivor.
   */
  lemma FilterPosition<T>(xs: seq<T>, f: T -> bool, j: nat)
    requires j < |xs| && f(xs[j])
    ensures |Filter(xs[..j], f)| < |Filter(xs, f)|
    ensures Filter(xs, f)[|Filter(xs[..j], f)|] == xs[j]
  {
    assert xs == xs[..j] + ([xs[j]] + xs[j + 1..]);
    FilterAppend(xs[..j], [xs[j]] + xs[j + 1..], f);
    FilterAppend([xs[j]], xs[j + 1..], f);
    assert Filter([xs[j]], f) == [xs[j]] + Filter([], f);
  }

  /** A test every element passes keeps the whole sequence. */
  lemma {:induction false} FilterAll<T>(xs: seq<T>, f: T -> bool)
    requires forall i :: 0 <= i < |xs| ==> f(xs[i])
    ensures Filter(xs, f) == xs
    decreases |xs|
  {
    if |xs| > 0 {
      FilterAll(xs[1..], f);
    }
  }

  /** Every element of `xs` lands either in `Filter(xs, f)` or in the filter by its negation `g`, so the two sizes add up. */
  lemma {:induction false} FilterSplitsCount<T>(xs: seq<T>, f: T -> bool, g: T -> bool)
    requires forall x :: g(x) == !f(x)
    ensures |Filter(xs, f)| + |Filter(xs, g)| == |xs|
    decreases |xs|
  {
    if |xs| > 0 {
      FilterSplitsCount(xs[1..], f, g);
    }
  }

  /** The elements of every inner sequence, in order (`flatMap` of the identity). */
  function Flatten<T>(xss: seq<seq<T>>): (r: seq<T>)
    decreases |xss|
  {
    if |xss| == 0 then [] else xss[0] + Flatten(xss[1..])
  }

  /** The sum of the lengths of the inner sequences. */
  function TotalLength<T>(xss: seq<seq<T>>): nat
    decreases |xss|
  {
    if |xss| == 0 then 0 else |xss[0]| + TotalLength(xss[1..])
  }

  lemma {:induction false} FlattenLength<T>(xss: seq<seq<T>>)
    ensures |Flatten(xss)| == TotalLength(xss)
    decreases |xss|
  {
    if |xss| > 0 {
      FlattenLength(xss[1..]);
    }
  }

  /** The shown prefix and the hidden count of a "first k, then +N" badge list. */
  datatype Overflow<T> = Overflow(shown: seq<T>, more: Option<nat>)

  /** Shows the first `k` items, and a `+N` badge with the number left over exactly when more than `k` exist. */
  function ShowFirst<T>(xs: seq<T>, k: nat): (o: Overflow<T>)
    ensures o.shown <= xs && |o.shown| <= k
    ensures o.more.Some? <==> |xs| > k
    ensures o.more.Some? ==> o.more.value > 0
    ensures |o.shown| + o.more.GetOr(0) == |xs|
  {
    Overflow(Take(xs, k), if |xs| > k then Some(|xs| - k) else None)
  }

  // ---------------------------------------------------------------------------
  // Rows of dots
  // ---------------------------------------------------------------------------

  /** The number of `true` entries. */
  function CountTrue(bs: seq<bool>): nat
    decreases |bs|
  {
    if |bs| == 0 then 0 else CountTrue(bs[..|bs| - 1]) + if bs[|bs| - 1] then 1 else 0
  }

  /** `filled` cut to the range `0..n`. */
  function Clamp(filled: int, n: nat): nat {
    if filled <= 0 then 0 else if filled >= n then n else filled
  }

  /** `[...Array(n)].map((_, i) => i < filled)`: a row of `n` dots, the filled ones first. */
  function Dots(n: nat, filled: int): (dots: seq<bool>)
    ensures |dots| == n
    ensures forall i, j :: 0 <= i < j < n && dots[j] ==> dots[i]
  {
    seq(n, i => i < filled)
  }

  /** A row of dots shows exactly `filled` filled dots, cut to the row's length. */
  lemma {:induction false} DotsFilled(n: nat, filled: int)
    ensures CountTrue(Dots(n, filled)) == Clamp(filled, n)
    decreases n
  {
    if n > 0 {
      assert Dots(n, filled)[..n - 1] == Dots(n - 1, filled);
      DotsFilled(n - 1, filled);
    }
  }
}
