/**
 * Arithmetic over exact reals shared by the statistics, averaging and
 * summary code: left-to-right sums (what `reduce((a, b) => a + b, 0)`
 * computes), `Math.min(...xs)` / `Math.max(...xs)`, `Math.round` and
 * `Number(x.toFixed(1))`.
 */
module Numbers {

  function Abs(x: real): (r: real)
    ensures r >= 0.0
    ensures r == x || r == -x
  {
    if x < 0.0 then -x else x
  }

  /** The sum of `xs`, folded from the left starting at 0. */
  function Sum(xs: seq<real>): real
  {
    if |xs| == 0 then 0.0 else Sum(xs[..|xs| - 1]) + xs[|xs| - 1]
  }

  /** The least element of a non-empty sequence. */
  function MinOf(xs: seq<real>): (r: real)
    requires |xs| > 0
    ensures r in xs
    ensures forall i :: 0 <= i < |xs| ==> r <= xs[i]
  {
    if |xs| == 1 then xs[0]
    else
      var m := MinOf(xs[..|xs| - 1]);
      assert forall i :: 0 <= i < |xs| - 1 ==> xs[..|xs| - 1][i] == xs[i];
      if xs[|xs| - 1] < m then xs[|xs| - 1] else m
  }

  /** The greatest element of a non-empty sequence. */
  function MaxOf(xs: seq<real>): (r: real)
    requires |xs| > 0
    ensures r in xs
    ensures forall i :: 0 <= i < |xs| ==> xs[i] <= r
  {
    if |xs| == 1 then xs[0]
    else
      var m := MaxOf(xs[..|xs| - 1]);
      assert forall i :: 0 <= i < |xs| - 1 ==> xs[..|xs| - 1][i] == xs[i];
      if xs[|xs| - 1] > m then xs[|xs| - 1] else m
  }

  /** The arithmetic mean of a non-empty sequence, at full precision. */
  function Mean(xs: seq<real>): real
    requires |xs| > 0
  {
    Sum(xs) / (|xs| as real)
  }

  /** A sum of terms that all lie in [lo, hi] lies in [n * lo, n * hi]. */
  lemma {:induction false} SumBounds(xs: seq<real>, lo: real, hi: real)
    requires forall i :: 0 <= i < |xs| ==> lo <= xs[i] <= hi
    ensures lo * (|xs| as real) <= Sum(xs) <= hi * (|xs| as real)
  {
    if |xs| > 0 {
      var p := xs[..|xs| - 1];
      assert forall i :: 0 <= i < |p| ==> p[i] == xs[i];
      SumBounds(p, lo, hi);
      assert lo * (|xs| as real) == lo * (|p| as real) + lo;
      assert hi * (|xs| as real) == hi * (|p| as real) + hi;
    }
  }

  /** Dividing both sides of `a * n <= s` by a positive `n`. */
  lemma DivideLowerBound(a: real, s: real, n: real)
    requires n > 0.0 && a * n <= s
    ensures a <= s / n
  {
    var q := s / n;
    assert q * n == s;
    assert (q - a) * n >= 0.0;
  }

  /** Dividing both sides of `s <= b * n` by a positive `n`. */
  lemma DivideUpperBound(b: real, s: real, n: real)
    requires n > 0.0 && s <= b * n
    ensures s / n <= b
  {
    var q := s / n;
    assert q * n == s;
    assert (b - q) * n >= 0.0;
  }

  /** The mean of terms that all lie in [lo, hi] lies in [lo, hi]. */
  lemma MeanWithin(xs: seq<real>, lo: real, hi: real)
    requires |xs| > 0
    requires forall i :: 0 <= i < |xs| ==> lo <= xs[i] <= hi
    ensures lo <= Mean(xs) <= hi
  {
    SumBounds(xs, lo, hi);
    DivideLowerBound(lo, Sum(xs), |xs| as real);
    DivideUpperBound(hi, Sum(xs), |xs| as real);
  }

  /** The mean of a non-empty sequence lies between its minimum and maximum. */
  lemma MeanBetweenMinAndMax(xs: seq<real>)
    requires |xs| > 0
    ensures MinOf(xs) <= Mean(xs) <= MaxOf(xs)
  {
    MeanWithin(xs, MinOf(xs), MaxOf(xs));
  }

  /** The sum of a one-element sequence is that element. */
  lemma SumSingleton(x: real)
    ensures Sum([x]) == x
  {
    assert [x][..0] == [];
  }

  /** Sums distribute over concatenation. */
  lemma {:induction false} SumAppend(xs: seq<real>, ys: seq<real>)
    ensures Sum(xs + ys) == Sum(xs) + Sum(ys)
  {
    if |ys| == 0 {
      assert xs + ys == xs;
    } else {
      var zs := xs + ys;
      assert zs[..|zs| - 1] == xs + ys[..|ys| - 1];
      SumAppend(xs, ys[..|ys| - 1]);
    }
  }

  /** `Math.round`: the nearest integer, ties rounded towards +infinity. */
  function Round(x: real): (r: int)
    ensures x - 0.5 < r as real <= x + 0.5
  {
    (x + 0.5).Floor
  }

  /** `Math.round` is monotone. */
  lemma RoundMonotone(x: real, y: real)
    requires x <= y
    ensures Round(x) <= Round(y)
  {
  }

  /** Rounding a non-negative real to the nearest tenth, ties going up. */
  function RoundTenthUp(x: real): (r: real)
    requires x >= 0.0
    ensures x - 0.05 < r <= x + 0.05
    ensures r >= 0.0
    ensures (r * 10.0).Floor as real == r * 10.0
  {
    var f := (x * 10.0 + 0.5).Floor;
    assert f as real <= x * 10.0 + 0.5 < f as real + 1.0;
    var r := f as real / 10.0;
    assert r * 10.0 == f as real;
    r
  }

  /**
   * `Number(x.toFixed(1))` on an exact real: the magnitude is rounded to the
   * nearest tenth with ties going up, and the sign is put back afterwards,
   * so ties move away from zero.
   */
  function RoundToTenth(x: real): (r: real)
    ensures Abs(r - x) <= 0.05
    ensures (r * 10.0).Floor as real == r * 10.0
    ensures x >= 0.0 ==> r >= 0.0
    ensures x <= 0.0 ==> r <= 0.0
  {
    if x < 0.0 then
      var m := RoundTenthUp(-x);
      NegatedTenth(m);
      assert Abs(-m - x) <= 0.05;
      -m
    else
      var r := RoundTenthUp(x);
      assert Abs(r - x) <= 0.05;
      r
  }

  /** Negating a multiple of a tenth gives a multiple of a tenth. */
  lemma {:induction false} NegatedTenth(m: real)
    requires (m * 10.0).Floor as real == m * 10.0
    ensures ((-m) * 10.0).Floor as real == (-m) * 10.0
  {
    var k := (m * 10.0).Floor;
    var j := -k;
    assert (-m) * 10.0 == j as real;
    assert (j as real).Floor == j;
  }
}
