/** Exact-arithmetic stand-ins for the two numpy reductions the reward uses:
    `np.mean` and the square of `np.std` (population standard deviation, ddof = 0).
    The square root itself has no closed form here, so the reward keeps the variance
    and the guard `std > 0` is stated as `Variance(s) > 0`. */
module Stats {

  /** Sum of a sequence of reals. */
  function Sum(s: seq<real>): real
  {
    if s == [] then 0.0 else s[0] + Sum(s[1..])
  }

  /** Arithmetic mean, as `np.mean`. */
  function Mean(s: seq<real>): real
    requires |s| > 0
  {
    Sum(s) / |s| as real
  }

  /** Sum of squared distances of the elements of `s` from `c`. */
  function SquaredDeviation(s: seq<real>, c: real): (d: real)
    ensures d >= 0.0
  {
    if s == [] then 0.0 else Square(s[0] - c) + SquaredDeviation(s[1..], c)
  }

  function Square(x: real): (r: real)
    ensures r >= 0.0
  {
    x * x
  }

  lemma ProductPositive(a: real, b: real)
    requires a > 0.0 && b > 0.0
    ensures a * b > 0.0
  {
  }

  lemma SquareZero(x: real)
    ensures Square(x) == 0.0 <==> x == 0.0
  {
    if x > 0.0 {
      calc { Square(x); x * x; > { ProductPositive(x, x); } 0.0; }
    } else if x < 0.0 {
      calc { Square(x); x * x; (-x) * (-x); > { ProductPositive(-x, -x); } 0.0; }
    }
  }

  /** Population variance: the square of `np.std(s)`. */
  function Variance(s: seq<real>): (v: real)
    requires |s| > 0
    ensures v >= 0.0
  {
    SquaredDeviation(s, Mean(s)) / |s| as real
  }

  /** All elements of `s` are equal. */
  predicate Constant(s: seq<real>)
  {
    forall i, j :: 0 <= i < |s| && 0 <= j < |s| ==> s[i] == s[j]
  }

  lemma {:induction false} SquaredDeviationZero(s: seq<real>, c: real)
    ensures SquaredDeviation(s, c) == 0.0 <==> forall i :: 0 <= i < |s| ==> s[i] == c
  {
    if s != [] {
      SquaredDeviationZero(s[1..], c);
      SquareZero(s[0] - c);
      if SquaredDeviation(s, c) == 0.0 {
        forall i | 0 <= i < |s| ensures s[i] == c {
          if i > 0 { assert s[i] == s[1..][i - 1]; }
        }
      } else {
        assert !(s[0] == c && forall i :: 0 <= i < |s[1..]| ==> s[1..][i] == c);
      }
    }
  }

  lemma {:induction false} SumOfConstant(s: seq<real>, c: real)
    requires forall i :: 0 <= i < |s| ==> s[i] == c
    ensures Sum(s) == |s| as real * c
  {
    if s != [] {
      SumOfConstant(s[1..], c);
    }
  }

  /** The guard `np.std(returns) > 0` holds exactly when the returns are not all equal. */
  lemma VarianceZeroIffConstant(s: seq<real>)
    requires |s| > 0
    ensures Variance(s) == 0.0 <==> Constant(s)
  {
    var m := Mean(s);
    SquaredDeviationZero(s, m);
    if Constant(s) {
      SumOfConstant(s, s[0]);
      assert m == s[0];
      assert forall i :: 0 <= i < |s| ==> s[i] == m;
    }
  }
}
