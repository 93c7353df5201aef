/**
 * The Newton divided-difference interpolator: a coefficient array rewritten
 * in place, column by column, into the divided-difference table's top
 * diagonal, and Horner evaluation of the resulting Newton form.
 */
module CurveFitting {
  import opened Types
  import opened NewtonForm

  /** The left end of the divided difference held at index l before pass j: max(0, l - j + 1). */
  function Lo(l: nat, j: nat): nat {
    if l + 1 >= j then l + 1 - j else 0
  }

  lemma DividedDifferenceStep(x: seq<real>, y: seq<real>, i: nat, j: nat, hi: real, lo: real)
    requires |x| == |y| && Distinct(x) && i < j < |x|
    requires hi == DividedDifference(x, y, i + 1, j) && lo == DividedDifference(x, y, i, j - 1)
    ensures DividedDifference(x, y, i, j) == (hi - lo) / (x[j] - x[i])
  {
  }

  /**
   * One pass j of the outer loop: for i = n-1 down to j, c[i] becomes
   * (c[i] - c[i-1]) / (x[i] - x[i-j]), which moves every entry from index
   * j on one column further along the divided-difference table.
   */
  method DividedDifferencePass(x: seq<real>, ghost y: seq<real>, c: array<real>, j: nat)
    requires c.Length == |x| == |y| && Distinct(x) && 1 <= j < |x|
    requires forall l :: 0 <= l < |x| ==> c[l] == DividedDifference(x, y, Lo(l, j), l)
    modifies c
    ensures forall l :: 0 <= l < |x| ==> c[l] == DividedDifference(x, y, Lo(l, j + 1), l)
  {
    var i := c.Length - 1;
    while i >= j
      invariant j - 1 <= i <= c.Length - 1
      invariant forall l :: i < l < |x| ==> c[l] == DividedDifference(x, y, l - j, l)
      invariant forall l :: 0 <= l <= i ==> c[l] == DividedDifference(x, y, Lo(l, j), l)
    {
      assert Lo(i, j) == i - j + 1 && Lo(i - 1, j) == i - j;
      DividedDifferenceStep(x, y, i - j, i, c[i], c[i - 1]);
      c[i] := (c[i] - c[i - 1]) / (x[i] - x[i - j]);
      i := i - 1;
    }
    forall l | 0 <= l < |x| ensures c[l] == DividedDifference(x, y, Lo(l, j + 1), l) {
      if l > i {
        assert Lo(l, j + 1) == l - j;
      }
    }
  }

  /**
   * The nested loop of `_compute_divided_differences`, run over the array it
   * is given: starting from values y, it leaves the Newton coefficients of
   * the points (x, y) in the array.
   */
  method DividedDifferencesInPlace(x: seq<real>, c: array<real>)
    requires c.Length == |x| && Distinct(x)
    modifies c
    ensures c[..] == Coefficients(x, old(c[..]))
  {
    ghost var y := c[..];
    var n := c.Length;
    var j := 1;
    while j < n
      invariant 1 <= j && (n >= 1 ==> j <= n)
      invariant forall l :: 0 <= l < n ==> c[l] == DividedDifference(x, y, Lo(l, j), l)
    {
      DividedDifferencePass(x, y, c, j);
      j := j + 1;
    }
  }

  /** The loop of `interpolate`: from the last coefficient down, multiply by (t - x_i) and add c_i. */
  method HornerLoop(x: seq<real>, c: array<real>, t: real) returns (result: real)
    requires 1 <= c.Length == |x|
    ensures result == Horner(x, c[..], 0, t)
  {
    var n := c.Length;
    result := c[n - 1];
    var i := n - 2;
    while i >= 0
      invariant -1 <= i <= n - 2
      invariant result == Horner(x, c[..], i + 1, t)
    {
      result := result * (t - x[i]) + c[i];
      i := i - 1;
    }
  }

  /** `NewtonGaussInterpolator`: the data points and the Newton coefficients through them. */
  class NewtonGaussInterpolator {
    var xData: seq<real>
    var yData: seq<real>
    var coeffs: array<real>

    /** The coefficients are the divided differences f[x_0..x_k] of the stored points. */
    ghost predicate Valid()
      reads this, coeffs
    {
      && 1 <= |xData| == |yData| == coeffs.Length
      && Distinct(xData)
      && coeffs[..] == Coefficients(xData, yData)
    }

    /** Stores the points and computes the coefficients (with the table started from the y values). */
    constructor(x: seq<real>, y: seq<real>)
      requires 1 <= |x| == |y| && Distinct(x)
      ensures Valid()
      ensures xData == x && yData == y
    {
      xData := x;
      yData := y;
      new;
      coeffs := ComputeDividedDifferences();
    }

    /** The coefficient table with every column started from the y values: the Newton coefficients of the data. */
    method ComputeDividedDifferences() returns (coeffs: array<real>)
      requires 1 <= |xData| == |yData| && Distinct(xData)
      ensures coeffs.Length == |xData|
      ensures coeffs[0] == yData[0]
      ensures coeffs[..] == Coefficients(xData, yData)
    {
      var n := |xData|;
      var ys := yData;
      coeffs := new real[n](k requires 0 <= k < |ys| => ys[k]);
      assert coeffs[..] == yData;
      DividedDifferencesInPlace(xData, coeffs);
    }

    /**
     * `_compute_divided_differences` as written: the table starts from y_0
     * and zeros, so it holds the Newton coefficients of (x_0, y_0), (x_1, 0),
     * ..., (x_{n-1}, 0), and only y_0 is ever read.
     */
    method ComputeDividedDifferencesAsWritten() returns (coeffs: array<real>)
      requires 1 <= |xData| && 1 <= |yData| && Distinct(xData)
      ensures coeffs.Length == |xData|
      ensures coeffs[0] == yData[0]
      ensures coeffs[..] == Coefficients(xData, ZeroTail(yData[0], |xData|))
    {
      var n := |xData|;
      coeffs := new real[n](_ => 0.0);
      coeffs[0] := yData[0];
      assert coeffs[..] == ZeroTail(yData[0], n);
      DividedDifferencesInPlace(xData, coeffs);
    }

    /** `interpolate`: Horner evaluation of the Newton form, which passes through every data point. */
    method Interpolate(t: real) returns (result: real)
      requires Valid()
      ensures result == Horner(xData, coeffs[..], 0, t)
      ensures result == NewtonSum(xData, coeffs[..], 0, coeffs.Length, t)
      ensures forall k :: 0 <= k < |xData| && t == xData[k] ==> result == yData[k]
      ensures |xData| == 1 ==> result == yData[0]
    {
      result := HornerLoop(xData, coeffs, t);
      HornerIsNewtonSum(xData, coeffs[..], 0, t);
      forall k | 0 <= k < |xData| && t == xData[k] ensures result == yData[k] {
        Interpolates(xData, yData, k);
      }
    }

    /** `__call__`: no value (NaN) outside [x_0, x_{n-1}], the interpolant inside, endpoints included. */
    method Call(t: real) returns (r: Option<real>)
      requires Valid()
      ensures r.None? <==> t < xData[0] || t > xData[|xData| - 1]
      ensures r.Some? ==> r.value == Horner(xData, coeffs[..], 0, t)
      ensures r.Some? ==> forall k :: 0 <= k < |xData| && t == xData[k] ==> r.value == yData[k]
    {
      if t < xData[0] || t > xData[|xData| - 1] {
        return None;
      }
      var v := Interpolate(t);
      return Some(v);
    }
  }
}
