/**
 * Newton's divided-difference form of the interpolating polynomial over
 * exact reals: the divided differences, the Newton basis products, Horner
 * evaluation of the Newton form, and the interpolation property.
 */
module NewtonForm {

  /** The nodes are pairwise distinct, so no divided difference divides by zero. */
  predicate Distinct(x: seq<real>) {
    forall i, j :: 0 <= i < j < |x| ==> x[i] != x[j]
  }

  /** The divided difference f[x_i, ..., x_j] of the points (x_l, y_l). */
  function DividedDifference(x: seq<real>, y: seq<real>, i: nat, j: nat): real
    requires |x| == |y| && Distinct(x) && i <= j < |x|
    decreases j - i
  {
    if i == j then y[i]
    else (DividedDifference(x, y, i + 1, j) - DividedDifference(x, y, i, j - 1)) / (x[j] - x[i])
  }

  /** The coefficients of the Newton form through every point: f[x_0], f[x_0, x_1], ..., f[x_0, ..., x_{n-1}]. */
  function Coefficients(x: seq<real>, y: seq<real>): (c: seq<real>)
    requires |x| == |y| && Distinct(x)
    ensures |c| == |x|
    ensures forall k :: 0 <= k < |c| ==> c[k] == DividedDifference(x, y, 0, k)
  {
    seq(|x|, k requires 0 <= k < |x| => DividedDifference(x, y, 0, k))
  }

  /** The Newton basis product (t - x_i)(t - x_{i+1})...(t - x_{m-1}); 1 when empty. */
  function Product(x: seq<real>, i: nat, m: nat, t: real): real
    requires i <= m <= |x|
    decreases m - i
  {
    if m == i then 1.0 else Product(x, i, m - 1, t) * (t - x[m - 1])
  }

  /** The product can also be peeled from its lowest factor. */
  lemma {:induction false} ProductPeel(x: seq<real>, i: nat, m: nat, t: real)
    requires i < m <= |x|
    ensures Product(x, i, m, t) == (t - x[i]) * Product(x, i + 1, m, t)
    decreases m - i
  {
    if m > i + 1 {
      ProductPeel(x, i, m - 1, t);
      var a, p, q := t - x[i], Product(x, i + 1, m - 1, t), t - x[m - 1];
      assert Product(x, i, m, t) == (a * p) * q;
      assert Product(x, i + 1, m, t) == p * q;
      MulAssociates(a, p, q);
    }
  }

  lemma MulAssociates(a: real, b: real, c: real)
    ensures (a * b) * c == a * (b * c)
  {
  }

  lemma FactorOut(a: real, s: real, b: real, p: real)
    ensures a * s + b * (a * p) == a * (s + b * p)
  {
  }

  /** A product that contains the factor (t - x_k) vanishes at t = x_k. */
  lemma {:induction false} ProductVanishes(x: seq<real>, i: nat, m: nat, k: nat)
    requires i <= k < m <= |x|
    ensures Product(x, i, m, x[k]) == 0.0
    decreases m - i
  {
    if k < m - 1 {
      ProductVanishes(x, i, m - 1, k);
    }
  }

  /** The Newton sum c_i + c_{i+1}(t - x_i) + ... + c_{m-1}(t - x_i)...(t - x_{m-2}). */
  function NewtonSum(x: seq<real>, c: seq<real>, i: nat, m: nat, t: real): real
    requires |c| == |x| && i <= m <= |x|
    decreases m - i
  {
    if m == i then 0.0 else NewtonSum(x, c, i, m - 1, t) + c[m - 1] * Product(x, i, m - 1, t)
  }

  /** Horner's nesting of the Newton form from coefficient i upwards. */
  function Horner(x: seq<real>, c: seq<real>, i: nat, t: real): real
    requires |c| == |x| && i < |c|
    decreases |c| - i
  {
    if i == |c| - 1 then c[i] else Horner(x, c, i + 1, t) * (t - x[i]) + c[i]
  }

  /** The Newton sum over coefficients i..m-1 is c_i plus (t - x_i) times the sum over i+1..m-1. */
  predicate PeelsLowest(x: seq<real>, c: seq<real>, i: nat, m: nat, t: real)
    requires |c| == |x| && i < m <= |x|
  {
    NewtonSum(x, c, i, m, t) == c[i] + (t - x[i]) * NewtonSum(x, c, i + 1, m, t)
  }

  /** The Newton sum factors its lowest term out, as Horner's rule does. */
  lemma {:induction false} NewtonSumPeel(x: seq<real>, c: seq<real>, i: nat, m: nat, t: real)
    requires |c| == |x| && i < m <= |x|
    ensures PeelsLowest(x, c, i, m, t)
    decreases m - i
  {
    if m == i + 1 {
      NewtonSumPeelBase(x, c, i, m, t);
    } else {
      var k := m - 1;
      NewtonSumPeel(x, c, i, k, t);
      NewtonSumPeelStep(x, c, i, k, m, t);
    }
  }

  lemma NewtonSumPeelBase(x: seq<real>, c: seq<real>, i: nat, m: nat, t: real)
    requires |c| == |x| && m == i + 1 <= |x|
    ensures PeelsLowest(x, c, i, m, t)
  {
    assert m - 1 == i;
    assert NewtonSum(x, c, i + 1, m, t) == 0.0;
  }

  lemma NewtonSumPeelStep(x: seq<real>, c: seq<real>, i: nat, k: nat, m: nat, t: real)
    requires |c| == |x| && i < k && m == k + 1 <= |x|
    requires PeelsLowest(x, c, i, k, t)
    ensures PeelsLowest(x, c, i, m, t)
  {
    assert m - 1 == k;
    ProductPeel(x, i, k, t);
    var a, s, p, b := t - x[i], NewtonSum(x, c, i + 1, k, t), Product(x, i + 1, k, t), c[k];
    assert NewtonSum(x, c, i, m, t) == c[i] + a * s + b * (a * p);
    assert NewtonSum(x, c, i + 1, m, t) == s + b * p;
    FactorOut(a, s, b, p);
  }

  /** Horner's rule evaluates the Newton sum of the remaining coefficients. */
  lemma {:induction false} HornerIsNewtonSum(x: seq<real>, c: seq<real>, i: nat, t: real)
    requires |c| == |x| && i < |c|
    ensures Horner(x, c, i, t) == NewtonSum(x, c, i, |c|, t)
    decreases |c| - i
  {
    NewtonSumPeel(x, c, i, |c|, t);
    if i < |c| - 1 {
      HornerIsNewtonSum(x, c, i + 1, t);
    }
  }

  // ---------------------------------------------------------------------------
  // Interpolation, over any table that follows the divided-difference recurrence
  // ---------------------------------------------------------------------------

  /** table(i, j) (x_j - x_i) == table(i+1, j) - table(i, j-1): the divided-difference recurrence with the division cleared. */
  predicate ClearedRecurrence(x: seq<real>, table: (nat, nat) -> real, i: nat, j: nat)
    requires i < j < |x|
  {
    table(i, j) * (x[j] - x[i]) == table(i + 1, j) - table(i, j - 1)
  }

  /** The table follows the recurrence at every i < j. */
  ghost predicate FollowsRecurrence(x: seq<real>, table: (nat, nat) -> real) {
    forall i: nat, j: nat :: i < j < |x| ==> ClearedRecurrence(x, table, i, j)
  }

  /** The divided differences f[x_i..x_j] as a table (0 where i > j). */
  function Table(x: seq<real>, y: seq<real>): (nat, nat) -> real
    requires |x| == |y| && Distinct(x)
  {
    (i: nat, j: nat) => if i <= j < |x| then DividedDifference(x, y, i, j) else 0.0
  }

  /** The divided differences hold the data on the diagonal and follow the recurrence above it. */
  lemma TableFollowsRecurrence(x: seq<real>, y: seq<real>)
    requires |x| == |y| && Distinct(x)
    ensures forall k: nat :: k < |x| ==> Table(x, y)(k, k) == y[k]
    ensures FollowsRecurrence(x, Table(x, y))
  {
    forall i: nat, j: nat | i < j < |x| ensures ClearedRecurrence(x, Table(x, y), i, j) {
      DividedDifferenceTimesGap(x, y, i, j);
    }
  }

  /** f[x_i..x_j] (x_j - x_i) == f[x_{i+1}..x_j] - f[x_i..x_{j-1}]. */
  lemma DividedDifferenceTimesGap(x: seq<real>, y: seq<real>, i: nat, j: nat)
    requires |x| == |y| && Distinct(x) && i < j < |x|
    ensures DividedDifference(x, y, i, j) * (x[j] - x[i])
         == DividedDifference(x, y, i + 1, j) - DividedDifference(x, y, i, j - 1)
  {
    var d2, d1 := DividedDifference(x, y, i + 1, j), DividedDifference(x, y, i, j - 1);
    DivisionCleared(d2 - d1, x[j] - x[i]);
  }

  lemma DivisionCleared(a: real, w: real)
    requires w != 0.0
    ensures (a / w) * w == a
  {
  }

  /** The Newton polynomial through the points i..j with the coefficients of row i of the table, one node at a time. */
  function Partial(x: seq<real>, table: (nat, nat) -> real, i: nat, j: nat, t: real): real
    requires i <= j < |x|
    decreases j - i
  {
    if j == i then table(i, i)
    else Partial(x, table, i, j - 1, t) + table(i, j) * Product(x, i, j, t)
  }

  /**
   * Neville's recurrence in Newton form: the polynomials through i..m and
   * through i+1..m differ by table(i, m) times the product over the nodes
   * i+1..m.
   */
  predicate NevilleRecurrence(x: seq<real>, table: (nat, nat) -> real, i: nat, m: nat, t: real)
    requires i < m < |x|
  {
    Partial(x, table, i, m, t) - Partial(x, table, i + 1, m, t)
      == table(i, m) * Product(x, i + 1, m, t) * (t - x[m])
  }

  /** Neville's recurrence holds for every table that follows the divided-difference recurrence. */
  lemma {:induction false} PartialDifference(x: seq<real>, table: (nat, nat) -> real, i: nat, m: nat, t: real)
    requires i < m < |x| && FollowsRecurrence(x, table)
    ensures NevilleRecurrence(x, table, i, m, t)
    decreases m - i
  {
    if m == i + 1 {
      PartialDifferenceBase(x, table, i, m, t);
    } else {
      var k := m - 1;
      PartialDifference(x, table, i, k, t);
      PartialDifferenceStep(x, table, i, k, m, t);
    }
  }

  /** Two neighbouring nodes: the line through them minus the constant at x_{i+1}. */
  lemma PartialDifferenceBase(x: seq<real>, table: (nat, nat) -> real, i: nat, m: nat, t: real)
    requires m == i + 1 < |x| && ClearedRecurrence(x, table, i, m)
    ensures NevilleRecurrence(x, table, i, m, t)
  {
    assert m - 1 == i;
    assert Partial(x, table, i, m - 1, t) == table(i, i);
    assert Product(x, i, m - 1, t) == 1.0 && Product(x, i + 1, m, t) == 1.0;
    NevilleBase(Partial(x, table, i, m, t), table(i, i), table(m, m), table(i, m),
      Product(x, i, m, t), Product(x, i + 1, m, t), t - x[i], x[m] - x[i], t - x[m]);
  }

  /** The recurrence for nodes i..m from the one for nodes i..k, k = m - 1. */
  lemma PartialDifferenceStep(x: seq<real>, table: (nat, nat) -> real, i: nat, k: nat, m: nat, t: real)
    requires i < k && m == k + 1 < |x| && ClearedRecurrence(x, table, i, m)
    requires NevilleRecurrence(x, table, i, k, t)
    ensures NevilleRecurrence(x, table, i, m, t)
  {
    assert m - 1 == k;
    ProductPeel(x, i, m, t);
    NevilleStep(Partial(x, table, i, m, t), Partial(x, table, i + 1, m, t),
      Partial(x, table, i, k, t), Partial(x, table, i + 1, k, t),
      table(i, m), table(i, k), table(i + 1, m),
      Product(x, i + 1, m, t), Product(x, i, m, t), Product(x, i + 1, k, t),
      t - x[i], x[m] - x[i], t - x[m], t - x[k],
      table(i, m) * Product(x, i + 1, m, t) * (t - x[m]));
  }

  /**
   * The base case of the recurrence, as algebra: lhs = y_i + d q with
   * q = 1 u and p = 1, where u = t - x_i, w = x_m - x_i, v = t - x_m.
   */
  lemma NevilleBase(lhs: real, yi: real, ym: real, d: real, q: real, p: real, u: real, w: real, v: real)
    requires lhs == yi + d * q && q == 1.0 * u && p == 1.0
    requires d * w == ym - yi && u - w == v
    ensures lhs - ym == d * p * v
  {
    calc {
      lhs - ym;
      d * u - (ym - yi);
      d * u - d * w;
      { MulSubDistributes(d, u, w); }
      d * (u - w);
    }
  }

  /**
   * The inductive step of the recurrence, as algebra over named quantities:
   * p = p' v' is the product over i+1..m, q = u p the one over i..m.
   */
  lemma NevilleStep(lhs: real, rhs: real, a1: real, a2: real, d: real, d1: real, d2: real,
                    p: real, q: real, p': real, u: real, w: real, v: real, v': real, r: real)
    requires lhs == a1 + d * q && rhs == a2 + d2 * p && q == u * p && p == p' * v'
    requires a1 - a2 == d1 * p' * v' && d * w == d2 - d1 && u - w == v && r == d * p * v
    ensures lhs - rhs == r
  {
    MulAssociates(d1, p', v');
    calc {
      lhs - rhs;
      (a1 - a2) + d * (u * p) - d2 * p;
      d1 * p + d * (u * p) - d2 * p;
      { MulAssociates(d, u, p); }
      d1 * p + (d * u) * p - d2 * p;
      (d1 + d * u - d2) * p;
      (d * u - (d2 - d1)) * p;
      (d * u - d * w) * p;
      { MulSubDistributes(d, u, w); }
      (d * (u - w)) * p;
      (d * v) * p;
      { MulCommutesRight(d, v, p); }
      d * p * v;
    }
  }

  lemma MulCommutesRight(a: real, b: real, c: real)
    ensures (a * b) * c == (a * c) * b
  {
  }

  lemma MulSubDistributes(a: real, b: real, c: real)
    ensures a * b - a * c == a * (b - c)
  {
  }

  /** The polynomial through i..m takes the value table(i, i) at x_i. */
  lemma {:induction false} PartialAtFirstNode(x: seq<real>, table: (nat, nat) -> real, i: nat, m: nat)
    requires i <= m < |x|
    ensures Partial(x, table, i, m, x[i]) == table(i, i)
    decreases m - i
  {
    if m > i {
      PartialAtFirstNode(x, table, i, m - 1);
      ProductVanishes(x, i, m, i);
    }
  }

  /** The polynomial through i..m takes the value table(k, k) at every node x_k among them. */
  lemma {:induction false} PartialInterpolates(x: seq<real>, table: (nat, nat) -> real, i: nat, m: nat, k: nat)
    requires i <= k <= m < |x| && FollowsRecurrence(x, table)
    ensures Partial(x, table, i, m, x[k]) == table(k, k)
    decreases k - i
  {
    if k == i {
      PartialAtFirstNode(x, table, i, m);
    } else {
      PartialInterpolates(x, table, i + 1, m, k);
      PartialDifference(x, table, i, m, x[k]);
      if k < m {
        ProductVanishes(x, i + 1, m, k);
      }
    }
  }

  /** The Newton sum over the coefficients f[x_0..x_l] for l < m is the polynomial through the first m points. */
  lemma {:induction false} NewtonSumIsPartial(x: seq<real>, y: seq<real>, m: nat, t: real)
    requires |x| == |y| && Distinct(x) && 1 <= m <= |x|
    ensures NewtonSum(x, Coefficients(x, y), 0, m, t) == Partial(x, Table(x, y), 0, m - 1, t)
    decreases m
  {
    if m > 1 {
      NewtonSumIsPartial(x, y, m - 1, t);
    }
  }

  /** Horner evaluation of the Newton coefficients passes through every data point. */
  lemma Interpolates(x: seq<real>, y: seq<real>, k: nat)
    requires |x| == |y| && Distinct(x) && k < |x|
    ensures Horner(x, Coefficients(x, y), 0, x[k]) == y[k]
  {
    HornerIsNewtonSum(x, Coefficients(x, y), 0, x[k]);
    NewtonSumIsPartial(x, y, |x|, x[k]);
    TableFollowsRecurrence(x, y);
    PartialInterpolates(x, Table(x, y), 0, |x| - 1, k);
  }

  /** With a single data point the interpolant is the constant y_0. */
  lemma SinglePointIsConstant(x: seq<real>, y: seq<real>, t: real)
    requires |x| == |y| == 1
    ensures Horner(x, Coefficients(x, y), 0, t) == y[0]
  {
  }

  // ---------------------------------------------------------------------------
  // The coefficient table as the constructor initialises it
  // ---------------------------------------------------------------------------

  /** The start of the coefficient table as written: y_0 followed by zeros. */
  function ZeroTail(y0: real, n: nat): (s: seq<real>)
    ensures |s| == n
  {
    seq(n, k => if k == 0 then y0 else 0.0)
  }

  /**
   * Starting from y_0 and zeros, the coefficients are those of the polynomial
   * through (x_0, y_0) and (x_k, 0) for every later node: every data point
   * after the first is dropped to zero.
   */
  lemma ZeroTailDropsLaterPoints(x: seq<real>, y0: real, k: nat)
    requires Distinct(x) && 1 <= k < |x|
    ensures Horner(x, Coefficients(x, ZeroTail(y0, |x|)), 0, x[0]) == y0
    ensures Horner(x, Coefficients(x, ZeroTail(y0, |x|)), 0, x[k]) == 0.0
  {
    Interpolates(x, ZeroTail(y0, |x|), 0);
    Interpolates(x, ZeroTail(y0, |x|), k);
  }

  /** Two points at the same height: the zero-started table misses the second one. */
  lemma ZeroTailMissesSecondPoint()
    ensures Horner([0.0, 1.0], Coefficients([0.0, 1.0], ZeroTail(1.0, 2)), 0, 1.0) == 0.0
    ensures Horner([0.0, 1.0], Coefficients([0.0, 1.0], [1.0, 1.0]), 0, 1.0) == 1.0
  {
    var x := [0.0, 1.0];
    ZeroTailDropsLaterPoints(x, 1.0, 1);
    Interpolates(x, [1.0, 1.0], 1);
  }
}
