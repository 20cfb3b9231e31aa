/** The curve y^2 = x^3 + b over the field of p elements and its affine chord-and-tangent law. */
module AffineCurve {
  import opened IntegerLaws
  import opened Congruence
  import opened PrimeField
  import opened FieldOps

  datatype Affine = Inf | Pt(x: int, y: int)

  /** Coordinates are residues. */
  ghost predicate Reduced(A: Affine, p: Modulus) {
    A.Pt? ==> 0 <= A.x < p && 0 <= A.y < p
  }

  ghost predicate OnCurve(A: Affine, b: int, p: Modulus) {
    Reduced(A, p) && (A.Pt? ==> Cong(A.y * A.y, A.x * A.x * A.x + b, p))
  }

  /** The slope of the tangent at P = Q, else of the chord through P and Q. */
  function Slope(x1: int, y1: int, x2: int, y2: int, p: Modulus): (l: int)
    ensures 0 <= l < p
  {
    if x1 == x2 && y1 == y2
    then FMul(FMul(3, FMul(x1, x1, p), p), Inv(FAdd(y1, y1, p), p), p)
    else FMul(FSub(y2, y1, p), Inv(FSub(x2, x1, p), p), p)
  }

  /** The third point of the line with slope l, reflected. */
  function ThirdPoint(x1: int, y1: int, x2: int, l: int, p: Modulus): (A: Affine)
    ensures A.Pt?
  {
    var x3 := FSub(FSub(FMul(l, l, p), x1, p), x2, p);
    Pt(x3, FSub(FMul(l, FSub(x1, x3, p), p), y1, p))
  }

  function AffAdd(P: Affine, Q: Affine, p: Modulus): Affine {
    if P.Inf? then Q
    else if Q.Inf? then P
    else if P.x == Q.x && P.y == FNeg(Q.y, p) then Inf
    else ThirdPoint(P.x, P.y, Q.x, Slope(P.x, P.y, Q.x, Q.y, p), p)
  }

  lemma SquareCong(a: int, b: int, p: int)
    requires IsPrime(p) && Cong(a * a, b * b, p)
    ensures Cong(a, b, p) || Cong(a, -b, p)
  {
    hide Cong;
    CongRefl(b * b, p);
    CongSub(a * a, b * b, b * b, b * b, p);
    assert (a - b) * (a + b) == a * a - b * b;
    NoZeroDivisors(a - b, a + b, p);
    CongZeroSub(a, b, p);
    CongZeroSub(a, -b, p);
  }

  /** On the curve, points with equal x are equal or opposite. */
  lemma SameAbscissa(P: Affine, Q: Affine, b: int, p: int)
    requires IsPrime(p) && OnCurve(P, b, p) && OnCurve(Q, b, p) && P.Pt? && Q.Pt? && P.x == Q.x
    ensures P.y == Q.y || P.y == FNeg(Q.y, p)
  {
    hide Cong;
    CongSym(Q.y * Q.y, Q.x * Q.x * Q.x + b, p);
    CongTrans(P.y * P.y, P.x * P.x * P.x + b, Q.y * Q.y, p);
    SquareCong(P.y, Q.y, p);
    if Cong(P.y, Q.y, p) {
      CongUnique(P.y, Q.y, p);
    } else {
      CongRefl(Q.y, p);
      NegC(Q.y, Q.y, p);
      SameC(P.y, FNeg(Q.y, p), -Q.y, p);
    }
  }

  /** The tangent is not vertical where y is not its own negative. */
  lemma TangentFinite(y: int, p: int)
    requires IsPrime(p) && p > 2 && 0 <= y < p && y != FNeg(y, p)
    ensures !Cong(y + y, 0, p)
  {
    hide Cong;
    if Cong(y + y, 0, p) {
      CongRefl(-y, p);
      CongAdd(y + y, 0, -y, -y, p);
      CongRefl(y, p);
      NegC(y, y, p);
      SameC(y, FNeg(y, p), -y, p);
    }
  }

  /** What makes l the slope: l * (x2 - x1) = y2 - y1, or 2 * y1 * l = 3 * x1^2 at a double point. */
  ghost predicate IsSlope(l: int, x1: int, y1: int, x2: int, y2: int, p: Modulus) {
    if x1 == x2 then y1 == y2 && Cong(l * (y1 + y1), 3 * (x1 * x1), p) && !Cong(y1 + y1, 0, p)
    else Cong(l * (x2 - x1), y2 - y1, p) && !Cong(x2 - x1, 0, p)
  }

  lemma DivisionC(n: int, n': int, d: int, d': int, p: int)
    requires IsPrime(p) && Cong(n, n', p) && Cong(d, d', p) && !Cong(d', 0, p)
    ensures Cong(FMul(n, Inv(d, p), p) * d', n', p)
  {
    hide Cong, Inv, FMul;
    if Cong(d, 0, p) {
      CongSym(d, d', p);
      CongTrans(d', d, 0, p);
    }
    InvCorrect(d, p);
    var i := Inv(d, p);
    CongRefl(i, p);
    MulC(n, n', i, i, p);
    CongSym(d, d', p);
    CongMul(FMul(n, i, p), n' * i, d', d, p);
    CongRefl(n', p);
    CongMul(n', n', d * i, 1, p);
    Associate(n', i, d);
    Commute(i, d);
    CongTrans(FMul(n, i, p) * d', n' * (d * i), n', p);
  }

  lemma SlopeIsSlope(P: Affine, Q: Affine, b: int, p: int)
    requires IsPrime(p) && p > 2 && OnCurve(P, b, p) && OnCurve(Q, b, p) && P.Pt? && Q.Pt?
    requires !(P.x == Q.x && P.y == FNeg(Q.y, p))
    ensures IsSlope(Slope(P.x, P.y, Q.x, Q.y, p), P.x, P.y, Q.x, Q.y, p)
  {
    hide Cong;
    CongRefl(P.x, p);
    CongRefl(Q.x, p);
    CongRefl(P.y, p);
    CongRefl(Q.y, p);
    if P.x == Q.x {
      SameAbscissa(P, Q, b, p);
      TangentFinite(P.y, p);
      MulC(P.x, P.x, P.x, P.x, p);
      CongRefl(3, p);
      MulC(3, 3, FMul(P.x, P.x, p), P.x * P.x, p);
      AddC(P.y, P.y, P.y, P.y, p);
      DivisionC(FMul(3, FMul(P.x, P.x, p), p), 3 * (P.x * P.x), FAdd(P.y, P.y, p), P.y + P.y, p);
    } else {
      EqualC(P.x, Q.x, p);
      CongZeroSub(Q.x, P.x, p);
      if Cong(Q.x, P.x, p) { CongSym(Q.x, P.x, p); }
      SubC(Q.y, Q.y, P.y, P.y, p);
      SubC(Q.x, Q.x, P.x, P.x, p);
      DivisionC(FSub(Q.y, P.y, p), Q.y - P.y, FSub(Q.x, P.x, p), Q.x - P.x, p);
    }
  }

  /** The coordinates of the third point as integer polynomials in the slope. */
  lemma ThirdPointC(x1: int, y1: int, x2: int, l: int, p: Modulus)
    ensures var A := ThirdPoint(x1, y1, x2, l, p);
            var s := l * l - x1 - x2;
            Reduced(A, p) && Cong(A.x, s, p) && Cong(A.y, l * (x1 - s) - y1, p)
  {
    hide Cong;
    var A, s := ThirdPoint(x1, y1, x2, l, p), l * l - x1 - x2;
    CongRefl(l, p);
    CongRefl(x1, p);
    CongRefl(x2, p);
    CongRefl(y1, p);
    MulC(l, l, l, l, p);
    SubC(FMul(l, l, p), l * l, x1, x1, p);
    SubC(FSub(FMul(l, l, p), x1, p), l * l - x1, x2, x2, p);
    SubC(x1, x1, A.x, s, p);
    MulC(l, l, FSub(x1, A.x, p), x1 - s, p);
    SubC(FMul(l, FSub(x1, A.x, p), p), l * (x1 - s), y1, y1, p);
  }

  lemma SquareOfLine(l: int, d: int, y: int)
    ensures (l * d + y) * (l * d + y) == (l * l) * (d * d) + 2 * (l * y) * d + y * y
  {
    var u := l * d;
    assert (u + y) * (u + y) == u * u + 2 * (u * y) + y * y;
    assert u * u == (l * l) * (d * d);
    assert u * y == (l * y) * d;
  }

  /** x^3 + b minus the square of the line, expanded around the two known roots. */
  lemma LineIdentity(x1: int, y1: int, x2: int, l: int, b: int, s: int, g: int, t: int)
    requires s == l * l - x1 - x2
    requires g == x2 * x2 + x2 * x1 + x1 * x1 - l * l * (x2 - x1) - 2 * (l * y1)
    requires t == l * (x1 - s) - y1
    ensures s * s * s + b - t * t == (x1 * x1 * x1 + b - y1 * y1) + (s - x1) * g
  {
    var d, q, m := s - x1, l * l, 2 * (l * y1);
    var k := x2 * x2 + x2 * x1 + x1 * x1 - q * (x2 - x1);
    DistributeSub(l, x1, s);
    DistributeSub(l, s, x1);
    NegatedSquare(l * d + y1);
    SquareOfLine(l, d, y1);
    DistributeSub(d, k, m);
    CubicIdentity(x1, x2, s, d, q, k);
  }

  lemma NegatedSquare(a: int)
    ensures -a * -a == a * a
  {
  }

  lemma CubicIdentity(x1: int, x2: int, s: int, d: int, q: int, k: int)
    requires d == s - x1 && q == s + x1 + x2
    requires k == x2 * x2 + x2 * x1 + x1 * x1 - q * (x2 - x1)
    ensures s * s * s - x1 * x1 * x1 == q * (d * d) + d * k
  {
    assert q * (x2 - x1) == s * (x2 - x1) + x2 * x2 - x1 * x1;
    assert q * d == s * s - x1 * x1 + x2 * d;
    assert q * d + k == s * s + s * x1 + x1 * x1;
    assert q * (d * d) + d * k == d * (q * d + k);
    assert d * (s * s + s * x1 + x1 * x1) == s * s * s - x1 * x1 * x1;
  }

  lemma SumAndDifference(y1: int, e: int, y2: int)
    requires e == y2 - y1
    ensures e * e + 2 * y1 * e == y2 * y2 - y1 * y1
  {
    SquareSum(e, y1);
    Associate(2, y1, e);
    Commute(y1, e);
  }

  lemma TangentRoot(x: int, y: int, l: int, p: Modulus)
    requires Cong(l * (y + y), 3 * (x * x), p)
    ensures Cong(x * x + x * x + x * x - l * l * (x - x) - 2 * (l * y), 0, p)
  {
    hide Cong;
    CongSym(l * (y + y), 3 * (x * x), p);
    CongZeroSub(3 * (x * x), l * (y + y), p);
    Distribute(l, y, y);
    assert l * l * (x - x) == 0;
  }

  lemma ChordRoot(x1: int, y1: int, x2: int, y2: int, l: int, b: int, d: int, u: int, g: int, p: int)
    requires IsPrime(p) && d == x2 - x1 && u == l * d && Cong(u, y2 - y1, p) && !Cong(d, 0, p)
    requires g == x2 * x2 + x2 * x1 + x1 * x1 - l * l * d - 2 * (l * y1)
    requires Cong(y1 * y1, x1 * x1 * x1 + b, p) && Cong(y2 * y2, x2 * x2 * x2 + b, p)
    ensures Cong(g, 0, p)
  {
    hide Cong;
    var e := y2 - y1;
    ChordFactor(x1, x2, l, y1, d, u, g);
    SumAndDifference(y1, e, y2);
    CurveDifference(x1 * x1 * x1, y1 * y1, x2 * x2 * x2, y2 * y2, b, p);
    CongMul(u, e, u, e, p);
    CongRefl(2 * y1, p);
    CongMul(2 * y1, 2 * y1, u, e, p);
    CongAdd(u * u, e * e, 2 * y1 * u, 2 * y1 * e, p);
    CongSub(x2 * x2 * x2 - x1 * x1 * x1, y2 * y2 - y1 * y1, u * u + 2 * y1 * u, e * e + 2 * y1 * e, p);
    NoZeroDivisors(d, g, p);
  }

  lemma CurveDifference(c1: int, q1: int, c2: int, q2: int, b: int, p: Modulus)
    requires Cong(q1, c1 + b, p) && Cong(q2, c2 + b, p)
    ensures Cong(c2 - c1, q2 - q1, p)
  {
    hide Cong;
    CongSym(q1, c1 + b, p);
    CongSym(q2, c2 + b, p);
    CongSub(c2 + b, q2, c1 + b, q1, p);
  }

  /** The second factor vanishes: for a chord because x2 is a root, for a tangent because x1 is double. */
  lemma SecondRoot(x1: int, y1: int, x2: int, y2: int, l: int, b: int, p: int)
    requires IsPrime(p) && IsSlope(l, x1, y1, x2, y2, p)
    requires Cong(y1 * y1, x1 * x1 * x1 + b, p) && Cong(y2 * y2, x2 * x2 * x2 + b, p)
    ensures Cong(x2 * x2 + x2 * x1 + x1 * x1 - l * l * (x2 - x1) - 2 * (l * y1), 0, p)
  {
    hide Cong;
    if x1 == x2 {
      TangentRoot(x1, y1, l, p);
    } else {
      var d := x2 - x1;
      ChordRoot(x1, y1, x2, y2, l, b, d, l * d, x2 * x2 + x2 * x1 + x1 * x1 - l * l * d - 2 * (l * y1), p);
    }
  }

  lemma ChordFactor(x1: int, x2: int, l: int, y1: int, d: int, u: int, g: int)
    requires d == x2 - x1 && u == l * d
    requires g == x2 * x2 + x2 * x1 + x1 * x1 - l * l * d - 2 * (l * y1)
    ensures d * g == x2 * x2 * x2 - x1 * x1 * x1 - (u * u + 2 * y1 * u)
  {
    var c, q, m := x2 * x2 + x2 * x1 + x1 * x1, l * l * d, 2 * (l * y1);
    DistributeSub(d, c - q, m);
    DistributeSub(d, c, q);
    CubeDifference(x1, x2);
    Exchange(l, d, l, d);
    Associate(l * l, d, d);
    SwapFirst(d, l, y1);
    SwapFirst(y1, l, d);
    Associate(2, y1, u);
  }

  lemma CubeDifference(x1: int, x2: int)
    ensures (x2 - x1) * (x2 * x2 + x2 * x1 + x1 * x1) == x2 * x2 * x2 - x1 * x1 * x1
  {
    DistributeSub(x2 * x2 + x2 * x1 + x1 * x1, x2, x1);
    Distribute(x2, x2 * x2 + x2 * x1, x1 * x1);
    Distribute(x2, x2 * x2, x2 * x1);
    Distribute(x1, x2 * x2 + x2 * x1, x1 * x1);
    Distribute(x1, x2 * x2, x2 * x1);
    SwapFirst(x1, x2, x2);
    SwapFirst(x1, x2, x1);
  }

  /** The law stays on the curve. */
  lemma AddOnCurve(P: Affine, Q: Affine, b: int, p: int)
    requires IsPrime(p) && p > 2 && OnCurve(P, b, p) && OnCurve(Q, b, p)
    ensures OnCurve(AffAdd(P, Q, p), b, p)
  {
    hide Cong;
    if P.Pt? && Q.Pt? && !(P.x == Q.x && P.y == FNeg(Q.y, p)) {
      var l := Slope(P.x, P.y, Q.x, Q.y, p);
      SlopeIsSlope(P, Q, b, p);
      ThirdOnCurve(P.x, P.y, Q.x, Q.y, l, b, p);
    }
  }

  lemma ThirdOnCurve(x1: int, y1: int, x2: int, y2: int, l: int, b: int, p: int)
    requires IsPrime(p) && IsSlope(l, x1, y1, x2, y2, p)
    requires Cong(y1 * y1, x1 * x1 * x1 + b, p) && Cong(y2 * y2, x2 * x2 * x2 + b, p)
    ensures OnCurve(ThirdPoint(x1, y1, x2, l, p), b, p)
  {
    hide Cong;
    var A := ThirdPoint(x1, y1, x2, l, p);
    ThirdPointC(x1, y1, x2, l, p);
    SecondRoot(x1, y1, x2, y2, l, b, p);
    var s := l * l - x1 - x2;
    var t := l * (x1 - s) - y1;
    var g := x2 * x2 + x2 * x1 + x1 * x1 - l * l * (x2 - x1) - 2 * (l * y1);
    LineIdentity(x1, y1, x2, l, b, s, g, t);
    CongSym(y1 * y1, x1 * x1 * x1 + b, p);
    CongZeroSub(x1 * x1 * x1 + b, y1 * y1, p);
    CongRefl(s - x1, p);
    CongMul(s - x1, s - x1, g, 0, p);
    CongAdd(x1 * x1 * x1 + b - y1 * y1, 0, (s - x1) * g, (s - x1) * 0, p);
    CongZeroSub(s * s * s + b, t * t, p);
    CongMul(A.x, s, A.x, s, p);
    CongMul(A.x * A.x, s * s, A.x, s, p);
    CongRefl(b, p);
    CongAdd(A.x * A.x * A.x, s * s * s, b, b, p);
    CongMul(A.y, t, A.y, t, p);
    CongSym(s * s * s + b, t * t, p);
    CongSym(A.x * A.x * A.x + b, s * s * s + b, p);
    CongTrans(A.y * A.y, t * t, s * s * s + b, p);
    CongTrans(A.y * A.y, s * s * s + b, A.x * A.x * A.x + b, p);
  }

  /** Commutativity on the curve. */
  lemma AddCommutes(P: Affine, Q: Affine, b: int, p: int)
    requires IsPrime(p) && p > 2 && OnCurve(P, b, p) && OnCurve(Q, b, p)
    ensures AffAdd(P, Q, p) == AffAdd(Q, P, p)
  {
    hide Cong;
    if P.Pt? && Q.Pt? && P != Q {
      CongRefl(P.y, p);
      CongRefl(Q.y, p);
      NegC(Q.y, Q.y, p);
      NegC(P.y, P.y, p);
      if P.x == Q.x {
        SameAbscissa(P, Q, b, p);
        SameAbscissa(Q, P, b, p);
      } else {
        SlopeIsSlope(P, Q, b, p);
        SlopeIsSlope(Q, P, b, p);
        var l, l' := Slope(P.x, P.y, Q.x, Q.y, p), Slope(Q.x, Q.y, P.x, P.y, p);
        ChordSymmetric(P, Q, l, l', p);
      }
    }
  }

  lemma ChordSymmetric(P: Affine, Q: Affine, l: int, l': int, p: int)
    requires IsPrime(p) && P.Pt? && Q.Pt? && 0 <= l < p && 0 <= l' < p && P.x != Q.x
    requires IsSlope(l, P.x, P.y, Q.x, Q.y, p) && IsSlope(l', Q.x, Q.y, P.x, P.y, p)
    ensures ThirdPoint(P.x, P.y, Q.x, l, p) == ThirdPoint(Q.x, Q.y, P.x, l', p)
  {
    hide Cong;
    var d := Q.x - P.x;
    CongRefl(0, p);
    CongSub(0, 0, l' * (P.x - Q.x), P.y - Q.y, p);
    assert 0 - l' * (P.x - Q.x) == d * l';
    CongSym(d * l', Q.y - P.y, p);
    assert l * d == d * l;
    CongTrans(d * l, Q.y - P.y, d * l', p);
    Cancel(d, l, l', p);
    CongUnique(l, l', p);
    ThirdPointC(P.x, P.y, Q.x, l, p);
    ThirdPointC(Q.x, Q.y, P.x, l, p);
    var A, B := ThirdPoint(P.x, P.y, Q.x, l, p), ThirdPoint(Q.x, Q.y, P.x, l, p);
    var s := l * l - P.x - Q.x;
    SameC(A.x, B.x, s, p);
    CongSym(l * d, Q.y - P.y, p);
    CongSub(Q.y - P.y, l * d, 0, 0, p);
    var u, v := l * (P.x - s) - P.y, l * (Q.x - s) - Q.y;
    assert v - u == l * d - (Q.y - P.y);
    CongSym(Q.y - P.y, l * d, p);
    CongZeroSub(l * d, Q.y - P.y, p);
    CongZeroSub(v, u, p);
    CongTrans(B.y, v, u, p);
    SameC(A.y, B.y, u, p);
  }
}
