/**
 * Ordering helpers: Python's string comparison, and `sorted(set(...))` over
 * any strict total order.
 */
module Sorting {

  /** Python's `a < b` on strings: lexicographic by code point, a proper prefix first. */
  predicate LexLess(a: string, b: string)
    decreases |a|
  {
    if a == [] then b != []
    else b != [] && (a[0] < b[0] || (a[0] == b[0] && LexLess(a[1..], b[1..])))
  }

  lemma {:induction false} LexIrreflexive(a: string)
    ensures !LexLess(a, a)
    decreases |a|
  {
    if a != [] {
      LexIrreflexive(a[1..]);
    }
  }

  lemma {:induction false} LexTransitive(a: string, b: string, c: string)
    requires LexLess(a, b) && LexLess(b, c)
    ensures LexLess(a, c)
    decreases |a|
  {
    if a != [] && a[0] == b[0] && b[0] == c[0] {
      LexTransitive(a[1..], b[1..], c[1..]);
    }
  }

  lemma {:induction false} LexTotal(a: string, b: string)
    requires a != b
    ensures LexLess(a, b) || LexLess(b, a)
    decreases |a|
  {
    if a != [] && b != [] && a[0] == b[0] {
      assert a == [a[0]] + a[1..] && b == [b[0]] + b[1..];
      LexTotal(a[1..], b[1..]);
    }
  }

  /** Behind prefixes of equal length, the strings compare by their prefixes first and then by the rest. */
  lemma {:induction false} LexConcat(p: string, q: string, p2: string, q2: string)
    requires |p| == |p2|
    ensures LexLess(p + q, p2 + q2) <==> LexLess(p, p2) || (p == p2 && LexLess(q, q2))
    decreases |p|
  {
    if p == [] {
      assert p + q == q && p2 + q2 == q2;
    } else {
      assert (p + q)[1..] == p[1..] + q && (p2 + q2)[1..] == p2[1..] + q2;
      assert p == [p[0]] + p[1..] && p2 == [p2[0]] + p2[1..];
      LexConcat(p[1..], q, p2[1..], q2);
    }
  }

  /** `lt` is a strict total order on the elements of `s`. */
  ghost predicate StrictTotalOrderOn<T>(s: set<T>, lt: (T, T) -> bool) {
    && (forall a :: a in s ==> !lt(a, a))
    && (forall a, b, c :: a in s && b in s && c in s && lt(a, b) && lt(b, c) ==> lt(a, c))
    && (forall a, b :: a in s && b in s && a != b ==> lt(a, b) || lt(b, a))
  }

  /** Python's string order is a strict total order on any set of strings. */
  lemma LexIsStrictTotalOrder(s: set<string>)
    ensures StrictTotalOrderOn(s, LexLess)
  {
    forall a | a in s ensures !LexLess(a, a) {
      LexIrreflexive(a);
    }
    forall a, b, c | a in s && b in s && c in s && LexLess(a, b) && LexLess(b, c)
      ensures LexLess(a, c)
    {
      LexTransitive(a, b, c);
    }
    forall a, b | a in s && b in s && a != b ensures LexLess(a, b) || LexLess(b, a) {
      LexTotal(a, b);
    }
  }

  /** Every element comes strictly before every later one. */
  ghost predicate Ascending<T>(r: seq<T>, lt: (T, T) -> bool) {
    forall i, j :: 0 <= i < j < |r| ==> lt(r[i], r[j])
  }

  lemma OrderOnSubset<T>(s: set<T>, t: set<T>, lt: (T, T) -> bool)
    requires t <= s && StrictTotalOrderOn(s, lt)
    ensures StrictTotalOrderOn(t, lt)
  {
  }

  /** A finite, non-empty set has a least element under a strict total order. */
  lemma {:induction false} MinimumExists<T>(s: set<T>, lt: (T, T) -> bool)
    requires s != {} && StrictTotalOrderOn(s, lt)
    ensures exists m :: m in s && forall x :: x in s ==> !lt(x, m)
    decreases |s|
  {
    var y :| y in s;
    if s == {y} {
      assert y in s && forall x :: x in s ==> !lt(x, y);
    } else {
      var rest := s - {y};
      OrderOnSubset(s, rest, lt);
      MinimumExists(rest, lt);
      var m :| m in rest && forall x :: x in rest ==> !lt(x, m);
      if lt(y, m) {
        forall x | x in s ensures !lt(x, y) {
          if x != y {
            assert x in rest && !lt(x, m);
          }
        }
        assert y in s && forall x :: x in s ==> !lt(x, y);
      } else {
        assert m in s && forall x :: x in s ==> !lt(x, m);
      }
    }
  }

  /** `sorted(s)` for a set `s`: its elements, each once, in ascending order. */
  method SortDistinct<T(==)>(s: set<T>, lt: (T, T) -> bool) returns (r: seq<T>)
    requires StrictTotalOrderOn(s, lt)
    ensures Ascending(r, lt)
    ensures forall x :: x in r <==> x in s
  {
    r := [];
    var rest := s;
    while rest != {}
      invariant rest <= s
      invariant forall x :: x in s <==> x in r || x in rest
      invariant forall x :: x in r ==> x !in rest
      invariant Ascending(r, lt)
      invariant forall i, x :: 0 <= i < |r| && x in rest ==> lt(r[i], x)
      decreases rest
    {
      MinimumExists(rest, lt);
      var m :| m in rest && forall x :: x in rest ==> !lt(x, m);
      r := r + [m];
      rest := rest - {m};
    }
  }
}
