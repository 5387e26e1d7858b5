/**
 * Lagrange interpolation at x = 0 (interpolateAtZero).
 *
 * For each point i the original code multiplies the factors -x_j into a
 * numerator and x_i - x_j into a denominator over every j != i, and adds
 * y_i * (numerator / denominator) to the result. The division is BigInt
 * division: the quotient is truncated toward zero and a remainder is dropped
 * without notice; a zero denominator throws.
 */
module Lagrange {
  import opened Outcomes
  import S = Sequences

  /** A decoded share: its label x and its value y. */
  datatype Point = Point(x: int, y: int)

  function Abs(n: int): nat { if n < 0 then -n else n }

  /** BigInt division: the quotient truncated toward zero. */
  function TruncDiv(a: int, b: int): int
    requires b != 0
  {
    var m := Abs(a) / Abs(b);
    if (a < 0) == (b < 0) then m else -m
  }

  /** The remainder a - q * b is smaller than the divisor and has the sign of the dividend. */
  lemma TruncDivRemainder(a: int, b: int)
    requires b != 0
    ensures Abs(a - TruncDiv(a, b) * b) < Abs(b)
    ensures a >= 0 ==> a - TruncDiv(a, b) * b >= 0
    ensures a <= 0 ==> a - TruncDiv(a, b) * b <= 0
  {
    var A: int, B: int := Abs(a), Abs(b);
    var m := A / B;
    var q := TruncDiv(a, b);
    var P := m * B;
    assert A == P + A % B && 0 <= A % B < B;
    MulSigns(m, B);
    // q * b is P when the signs agree and -P otherwise; so a - q * b is A % B or its negation
    if b > 0 {
      assert b == B;
      if a >= 0 { assert q * b == P; } else { assert q * b == (-m) * B == -P; }
    } else {
      assert b == -B;
      if a >= 0 { assert q * b == (-m) * (-B) == P; } else { assert q * b == m * (-B) == -P; }
    }
  }

  lemma MulSigns(m: int, n: int)
    ensures (-m) * n == -(m * n) && m * (-n) == -(m * n) && (-m) * (-n) == m * n
  {
  }

  /** When the denominator divides the numerator, nothing is dropped: the quotient is exact. */
  lemma TruncDivExact(c: int, b: int)
    requires b != 0
    ensures TruncDiv(c * b, b) == c
  {
    var q := TruncDiv(c * b, b);
    TruncDivRemainder(c * b, b);
    var d := c - q;
    assert c * b - q * b == d * b;
    if d != 0 {
      AbsMulGe(d, b);
    }
  }

  lemma AbsMulGe(d: int, b: int)
    requires d != 0
    ensures Abs(d * b) >= Abs(b)
  {
    var D: int, B: int := Abs(d), Abs(b);
    if d > 0 {
      if b >= 0 { assert d * b == D * B; } else { assert d * b == -(D * B); }
    } else {
      if b >= 0 { assert d * b == -(D * B); } else { assert d * b == D * B; }
    }
    assert D * B - B == (D - 1) * B;
    assert (D - 1) * B >= 0;
  }

  /** The two kinds of factor the inner loop multiplies in: -x_j, and x_i - x_j. */
  datatype Factor = NegX | DiffFrom(xi: int)

  function FactorAt(f: Factor, q: Point): int
  {
    match f
    case NegX => -q.x
    case DiffFrom(xi) => xi - q.x
  }

  /** The product of the factors f gives the points of s, multiplied in order. */
  function ProdBy(f: Factor, s: seq<Point>): int
  {
    if s == [] then 1 else ProdBy(f, s[..|s| - 1]) * FactorAt(f, s[|s| - 1])
  }

  /** The product the inner loop has built once j has reached j: the factors f gives pts[j'] for j' < j, j' != i. */
  function Partial(f: Factor, pts: seq<Point>, i: nat, j: nat): int
    requires j <= |pts|
  {
    if j == 0 then 1
    else if j - 1 == i then Partial(f, pts, i, j - 1)
    else Partial(f, pts, i, j - 1) * FactorAt(f, pts[j - 1])
  }

  /** numerator for point i: the product of -x_j over j != i. */
  function Num(pts: seq<Point>, i: nat): int
    requires i < |pts|
  {
    Partial(NegX, pts, i, |pts|)
  }

  /** denominator for point i: the product of x_i - x_j over j != i. */
  function Den(pts: seq<Point>, i: nat): int
    requires i < |pts|
  {
    Partial(DiffFrom(pts[i].x), pts, i, |pts|)
  }

  predicate NoZeroDen(pts: seq<Point>, n: nat)
    requires n <= |pts|
  {
    forall i :: 0 <= i < n ==> Den(pts, i) != 0
  }

  /** The term y_i * trunc(numerator / denominator) that point i adds. */
  function Term(pts: seq<Point>, i: nat): int
    requires i < |pts| && Den(pts, i) != 0
  {
    pts[i].y * TruncDiv(Num(pts, i), Den(pts, i))
  }

  /** The result after the first n points have been processed. */
  function SumTerms(pts: seq<Point>, n: nat): int
    requires n <= |pts| && NoZeroDen(pts, n)
  {
    if n == 0 then 0 else SumTerms(pts, n - 1) + Term(pts, n - 1)
  }

  /**
   * What interpolateAtZero returns, or the error it throws, once the points
   * before i have been processed and acc holds the result so far.
   */
  function InterpolationFrom(pts: seq<Point>, i: nat, acc: int): Result<int>
    requires i <= |pts|
    decreases |pts| - i
  {
    if i == |pts| then Ok(acc)
    else if Den(pts, i) == 0 then Err(DivisionByZero)
    else InterpolationFrom(pts, i + 1, acc + Term(pts, i))
  }

  function Interpolation(pts: seq<Point>): Result<int>
  {
    InterpolationFrom(pts, 0, 0)
  }

  predicate HasDuplicateX(pts: seq<Point>) {
    exists i, j :: 0 <= i < |pts| && 0 <= j < |pts| && i != j && pts[i].x == pts[j].x
  }

  /** interpolateAtZero, with its two nested loops. */
  method InterpolateAtZero(pts: seq<Point>) returns (r: Result<int>)
    ensures r == Interpolation(pts)
  {
    var result := 0;
    for i := 0 to |pts|
      invariant InterpolationFrom(pts, i, result) == Interpolation(pts)
    {
      var xi, yi := pts[i].x, pts[i].y;
      var numerator, denominator := 1, 1;
      for j := 0 to |pts|
        invariant numerator == Partial(NegX, pts, i, j)
        invariant denominator == Partial(DiffFrom(xi), pts, i, j)
      {
        if i != j {
          numerator := numerator * -pts[j].x;
          denominator := denominator * (xi - pts[j].x);
        }
      }
      if denominator == 0 {
        return Err(DivisionByZero);
      }
      result := result + yi * TruncDiv(numerator, denominator);
    }
    return Ok(result);
  }

  /** The closed form: the sum of all terms, unless some denominator is zero. */
  lemma InterpolationClosedForm(pts: seq<Point>)
    ensures Interpolation(pts) == if NoZeroDen(pts, |pts|) then Ok(SumTerms(pts, |pts|)) else Err(DivisionByZero)
  {
    ClosedFormFrom(pts, 0);
  }

  lemma {:induction false} ClosedFormFrom(pts: seq<Point>, i: nat)
    requires i <= |pts| && NoZeroDen(pts, i)
    ensures InterpolationFrom(pts, i, SumTerms(pts, i)) ==
              if NoZeroDen(pts, |pts|) then Ok(SumTerms(pts, |pts|)) else Err(DivisionByZero)
    decreases |pts| - i
  {
    if i < |pts| {
      if Den(pts, i) != 0 {
        assert NoZeroDen(pts, i + 1);
        assert SumTerms(pts, i + 1) == SumTerms(pts, i) + Term(pts, i);
        assert InterpolationFrom(pts, i, SumTerms(pts, i)) == InterpolationFrom(pts, i + 1, SumTerms(pts, i + 1));
        ClosedFormFrom(pts, i + 1);
      } else {
        assert InterpolationFrom(pts, i, SumTerms(pts, i)) == Err(DivisionByZero);
        assert !NoZeroDen(pts, |pts|);
      }
    }
  }

  // ---------------------------------------------------------------------------
  // A zero denominator is exactly a repeated x

  lemma {:induction false} ProdByAppend(f: Factor, s: seq<Point>, p: Point)
    ensures ProdBy(f, s + [p]) == ProdBy(f, s) * FactorAt(f, p)
  {
    assert (s + [p])[..|s|] == s;
  }

  /** The denominator product over pts[..j] vanishes exactly when some j' < j, j' != i, repeats x_i. */
  lemma {:induction false} DenZeroPrefix(pts: seq<Point>, i: nat, j: nat)
    requires i < |pts| && j <= |pts|
    ensures Partial(DiffFrom(pts[i].x), pts, i, j) == 0 <==>
              exists k :: 0 <= k < j && k != i && pts[k].x == pts[i].x
  {
    if j > 0 {
      DenZeroPrefix(pts, i, j - 1);
      if j - 1 != i {
        var f := DiffFrom(pts[i].x);
        MulZero(Partial(f, pts, i, j - 1), FactorAt(f, pts[j - 1]));
      }
    }
  }

  lemma MulZero(a: int, b: int)
    ensures a * b == 0 <==> a == 0 || b == 0
  {
  }

  lemma DenZeroIff(pts: seq<Point>, i: nat)
    requires i < |pts|
    ensures Den(pts, i) == 0 <==> exists k :: 0 <= k < |pts| && k != i && pts[k].x == pts[i].x
  {
    DenZeroPrefix(pts, i, |pts|);
  }

  /** interpolateAtZero throws exactly when two points share an x. */
  lemma InterpolationFailsIffDuplicateX(pts: seq<Point>)
    ensures Interpolation(pts).Err? <==> HasDuplicateX(pts)
    ensures Interpolation(pts).Err? ==> Interpolation(pts).error == DivisionByZero
  {
    InterpolationClosedForm(pts);
    if HasDuplicateX(pts) {
      var i, j :| 0 <= i < |pts| && 0 <= j < |pts| && i != j && pts[i].x == pts[j].x;
      DenZeroIff(pts, i);
    }
    if !NoZeroDen(pts, |pts|) {
      var i :| 0 <= i < |pts| && Den(pts, i) == 0;
      DenZeroIff(pts, i);
    }
  }

  /** A single point interpolates to its own y. */
  lemma SinglePoint(p: Point)
    ensures Interpolation([p]) == Ok(p.y)
  {
    InterpolationClosedForm([p]);
    assert Partial(NegX, [p], 0, 0) == 1 && Partial(DiffFrom(p.x), [p], 0, 0) == 1;
    assert Num([p], 0) == 1 && Den([p], 0) == 1;
    assert TruncDiv(1, 1) == 1;
    assert NoZeroDen([p], 1);
    assert SumTerms([p], 1) == Term([p], 0) == p.y;
  }

  /** No points at all: the sum is empty. */
  lemma NoPoints()
    ensures Interpolation([]) == Ok(0)
  {
  }

  // ---------------------------------------------------------------------------
  // The result does not depend on the order of the points

  lemma {:induction false} ProdByRemove(f: Factor, t: seq<Point>, k: nat)
    requires k < |t|
    ensures ProdBy(f, t) == ProdBy(f, t[..k] + t[k + 1..]) * FactorAt(f, t[k])
  {
    var last := |t| - 1;
    if k < last {
      var init := t[..last];
      var rest := init[..k] + init[k + 1..];
      ProdByRemove(f, init, k);
      assert t[..k] + t[k + 1..] == rest + [t[last]];
      ProdByAppend(f, rest, t[last]);
      assert t == init + [t[last]];
      ProdByAppend(f, init, t[last]);
      MulSwap(ProdBy(f, rest), FactorAt(f, t[k]), FactorAt(f, t[last]));
    } else {
      assert t[..k] + t[k + 1..] == t[..last];
    }
  }

  lemma MulSwap(a: int, b: int, c: int)
    ensures a * b * c == a * c * b
  {
  }

  lemma MultisetRemove<T>(t: seq<T>, k: nat)
    requires k < |t|
    ensures multiset(t) == multiset(t[..k] + t[k + 1..]) + multiset{t[k]}
  {
    assert t == t[..k] + [t[k]] + t[k + 1..];
  }

  /** Two orderings of the same points: the last point of s occurs in t, and removing it from both leaves orderings of the same points. */
  lemma PermRemove(s: seq<Point>, t: seq<Point>) returns (k: nat)
    requires s != [] && multiset(s) == multiset(t)
    ensures k < |t| && t[k] == s[|s| - 1]
    ensures multiset(s[..|s| - 1]) == multiset(t[..k] + t[k + 1..])
  {
    var last := |s| - 1;
    MultisetRemove(s, last);
    assert s[..last] + s[last + 1..] == s[..last];
    assert s[last] in multiset(t);
    k := S.FirstIndex(t, s[last]);
    MultisetRemove(t, k);
    MultisetCancel(multiset(s[..last]), multiset(t[..k] + t[k + 1..]), s[last]);
  }

  lemma {:induction false} ProdByPerm(f: Factor, s: seq<Point>, t: seq<Point>)
    requires multiset(s) == multiset(t)
    ensures ProdBy(f, s) == ProdBy(f, t)
    decreases |s|
  {
    if s != [] {
      var last := |s| - 1;
      var k := PermRemove(s, t);
      var rest := t[..k] + t[k + 1..];
      ProdByPerm(f, s[..last], rest);
      ProdByRemove(f, t, k);
      assert ProdBy(f, s) == ProdBy(f, s[..last]) * FactorAt(f, s[last]);
      assert ProdBy(f, t) == ProdBy(f, rest) * FactorAt(f, t[k]);
    } else {
      assert |t| == |multiset(t)| == 0;
    }
  }

  /** The points of pts[..j] other than pts[i], in order: the points Partial multiplies in. */
  function Others(pts: seq<Point>, i: nat, j: nat): (w: seq<Point>)
    requires j <= |pts|
    ensures |w| == if i < j then j - 1 else j
  {
    if j == 0 then []
    else if j - 1 == i then Others(pts, i, j - 1)
    else Others(pts, i, j - 1) + [pts[j - 1]]
  }

  lemma {:induction false} PartialIsProdBy(f: Factor, pts: seq<Point>, i: nat, j: nat)
    requires j <= |pts|
    ensures Partial(f, pts, i, j) == ProdBy(f, Others(pts, i, j))
  {
    if j > 0 {
      PartialIsProdBy(f, pts, i, j - 1);
      if j - 1 != i {
        ProdByAppend(f, Others(pts, i, j - 1), pts[j - 1]);
      }
    }
  }

  /** Others(pts, i, j) is pts[..j] with pts[i] cut out. */
  lemma {:induction false} OthersSlices(pts: seq<Point>, i: nat, j: nat)
    requires j <= |pts|
    ensures Others(pts, i, j) == if i < j then pts[..i] + pts[i + 1..j] else pts[..j]
  {
    if j > 0 {
      OthersSlices(pts, i, j - 1);
      var p := pts[j - 1];
      if j - 1 == i {
        assert pts[i + 1..j] == [];
        assert pts[..i] + [] == pts[..i];
      } else if i < j - 1 {
        assert pts[i + 1..j] == pts[i + 1..j - 1] + [p];
        assert (pts[..i] + pts[i + 1..j - 1]) + [p] == pts[..i] + (pts[i + 1..j - 1] + [p]);
      } else {
        assert pts[..j] == pts[..j - 1] + [p];
      }
    }
  }

  /** The points Others multiplies in are all points of pts but pts[i], counted with multiplicity. */
  lemma OthersMultiset(pts: seq<Point>, i: nat)
    requires i < |pts|
    ensures multiset(Others(pts, i, |pts|)) + multiset{pts[i]} == multiset(pts)
  {
    OthersSlices(pts, i, |pts|);
    assert pts[i + 1..|pts|] == pts[i + 1..];
    MultisetRemove(pts, i);
  }

  lemma MultisetCancel<T>(a: multiset<T>, b: multiset<T>, p: T)
    requires a + multiset{p} == b + multiset{p}
    ensures a == b
  {
    assert a == (a + multiset{p}) - multiset{p};
  }

  lemma OthersOfSamePoint(pts: seq<Point>, i: nat, qs: seq<Point>, k: nat)
    requires i < |pts| && k < |qs| && pts[i] == qs[k]
    requires multiset(pts) == multiset(qs)
    ensures Num(pts, i) == Num(qs, k) && Den(pts, i) == Den(qs, k)
  {
    OthersMultiset(pts, i);
    OthersMultiset(qs, k);
    MultisetCancel(multiset(Others(pts, i, |pts|)), multiset(Others(qs, k, |qs|)), pts[i]);
    PartialIsProdBy(NegX, pts, i, |pts|);
    PartialIsProdBy(NegX, qs, k, |qs|);
    PartialIsProdBy(DiffFrom(pts[i].x), pts, i, |pts|);
    PartialIsProdBy(DiffFrom(qs[k].x), qs, k, |qs|);
    ProdByPerm(NegX, Others(pts, i, |pts|), Others(qs, k, |qs|));
    ProdByPerm(DiffFrom(pts[i].x), Others(pts, i, |pts|), Others(qs, k, |qs|));
  }

  /** The term a point contributes, as a function of the point and the whole collection. */
  function PointTerm(pts: seq<Point>, p: Point): int
    requires NoZeroDen(pts, |pts|)
  {
    if p in pts then Term(pts, S.FirstIndex(pts, p)) else 0
  }

  function SumOver(pts: seq<Point>, s: seq<Point>): int
    requires NoZeroDen(pts, |pts|)
  {
    if s == [] then 0 else SumOver(pts, s[..|s| - 1]) + PointTerm(pts, s[|s| - 1])
  }

  lemma {:induction false} SumOverRemove(pts: seq<Point>, t: seq<Point>, k: nat)
    requires NoZeroDen(pts, |pts|) && k < |t|
    ensures SumOver(pts, t) == SumOver(pts, t[..k] + t[k + 1..]) + PointTerm(pts, t[k])
  {
    var last := |t| - 1;
    if k < last {
      var init := t[..last];
      SumOverRemove(pts, init, k);
      var rest := init[..k] + init[k + 1..];
      assert t[..k] + t[k + 1..] == rest + [t[last]];
      assert (rest + [t[last]])[..|rest|] == rest;
      assert t[..last] == init;
    } else {
      assert t[..k] + t[k + 1..] == t[..last];
    }
  }

  lemma {:induction false} SumOverPerm(pts: seq<Point>, s: seq<Point>, t: seq<Point>)
    requires NoZeroDen(pts, |pts|)
    requires multiset(s) == multiset(t)
    ensures SumOver(pts, s) == SumOver(pts, t)
    decreases |s|
  {
    if s != [] {
      var last := |s| - 1;
      var k := PermRemove(s, t);
      var rest := t[..k] + t[k + 1..];
      SumOverPerm(pts, s[..last], rest);
      SumOverRemove(pts, t, k);
      assert SumOver(pts, s) == SumOver(pts, s[..last]) + PointTerm(pts, s[last]);
      assert SumOver(pts, t) == SumOver(pts, rest) + PointTerm(pts, t[k]);
    } else {
      assert |t| == |multiset(t)| == 0;
    }
  }

  lemma {:induction false} SumTermsIsSumOver(pts: seq<Point>, n: nat)
    requires n <= |pts| && NoZeroDen(pts, |pts|)
    ensures SumTerms(pts, n) == SumOver(pts, pts[..n])
  {
    if n > 0 {
      SumTermsIsSumOver(pts, n - 1);
      assert pts[..n][..n - 1] == pts[..n - 1];
      OthersOfSamePoint(pts, n - 1, pts, S.FirstIndex(pts, pts[n - 1]));
    }
  }

  /** Swapping in another ordering of the same points changes no term. */
  lemma {:induction false} SumOverSameTerms(pts: seq<Point>, qs: seq<Point>, s: seq<Point>)
    requires multiset(pts) == multiset(qs)
    requires NoZeroDen(pts, |pts|) && NoZeroDen(qs, |qs|)
    ensures SumOver(pts, s) == SumOver(qs, s)
  {
    if s != [] {
      SumOverSameTerms(pts, qs, s[..|s| - 1]);
      var p := s[|s| - 1];
      if p in pts {
        assert p in multiset(qs);
        OthersOfSamePoint(pts, S.FirstIndex(pts, p), qs, S.FirstIndex(qs, p));
      } else {
        assert p !in multiset(qs);
      }
    }
  }

  lemma NoZeroDenPerm(pts: seq<Point>, qs: seq<Point>)
    requires multiset(pts) == multiset(qs)
    requires NoZeroDen(pts, |pts|)
    ensures NoZeroDen(qs, |qs|)
  {
    forall k | 0 <= k < |qs|
      ensures Den(qs, k) != 0
    {
      assert qs[k] in multiset(pts);
      OthersOfSamePoint(pts, S.FirstIndex(pts, qs[k]), qs, k);
    }
  }

  /** interpolateAtZero gives the same result (or the same failure) for any ordering of the points. */
  lemma InterpolationPermutation(pts: seq<Point>, qs: seq<Point>)
    requires multiset(pts) == multiset(qs)
    ensures Interpolation(pts) == Interpolation(qs)
  {
    InterpolationClosedForm(pts);
    InterpolationClosedForm(qs);
    if NoZeroDen(pts, |pts|) {
      NoZeroDenPerm(pts, qs);
      SumTermsIsSumOver(pts, |pts|);
      SumTermsIsSumOver(qs, |qs|);
      assert pts[..|pts|] == pts && qs[..|qs|] == qs;
      SumOverPerm(pts, pts, qs);
      SumOverSameTerms(pts, qs, qs);
    } else if NoZeroDen(qs, |qs|) {
      NoZeroDenPerm(qs, pts);
    }
  }

  // ---------------------------------------------------------------------------
  // Worked examples on the line y = 1292 + 202 x

  /** The numerators and denominators of a pair of points. */
  lemma PairProducts(a: Point, b: Point)
    ensures Num([a, b], 0) == -b.x && Den([a, b], 0) == a.x - b.x
    ensures Num([a, b], 1) == -a.x && Den([a, b], 1) == b.x - a.x
  {
    var pts := [a, b];
    assert Partial(NegX, pts, 0, 1) == 1 && Partial(DiffFrom(a.x), pts, 0, 1) == 1;
    assert Partial(NegX, pts, 1, 1) == -a.x && Partial(DiffFrom(b.x), pts, 1, 1) == b.x - a.x;
  }

  lemma TwoPointExample()
    ensures Interpolation([Point(1, 1494), Point(2, 1696)]) == Ok(1292)
  {
    var pts := [Point(1, 1494), Point(2, 1696)];
    PairProducts(pts[0], pts[1]);
    assert Num(pts, 0) == -2 && Den(pts, 0) == -1;
    assert Num(pts, 1) == -1 && Den(pts, 1) == 1;
  }

  lemma ShiftedPairExample()
    ensures Interpolation([Point(2, 1696), Point(3, 1898)]) == Ok(1292)
  {
    var pts := [Point(2, 1696), Point(3, 1898)];
    PairProducts(pts[0], pts[1]);
    assert Num(pts, 0) == -3 && Den(pts, 0) == -1;
    assert Num(pts, 1) == -2 && Den(pts, 1) == 1;
  }

  /**
   * trunc(-3 / -2) = 1 and trunc(-1 / 2) = 0: the truncated terms add up to
   * 1494 although the line through the two points meets x = 0 at 1292.
   */
  lemma TruncatedPairExample()
    ensures Interpolation([Point(1, 1494), Point(3, 1898)]) == Ok(1494)
  {
    var pts := [Point(1, 1494), Point(3, 1898)];
    PairProducts(pts[0], pts[1]);
    assert Num(pts, 0) == -3 && Den(pts, 0) == -2;
    assert Num(pts, 1) == -1 && Den(pts, 1) == 2;
    assert TruncDiv(-3, -2) == 1 && TruncDiv(-1, 2) == 0;
  }
}
