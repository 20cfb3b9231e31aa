/** Which point the affine law returns, in terms of the line through its operands and not of a slope:
    the third point of the chord or tangent, reflected, and no other point. */
module ChordLaw {
  import opened IntegerLaws
  import opened Congruence
  import opened PrimeField
  import opened FieldOps
  import opened AffineCurve

  /** The line l*d = e through (x1, y1) and x2, at the third point. */
  lemma ThirdMeets(x1: int, y1: int, x2: int, l: int, d: int, e: int, p: Modulus)
    requires Cong(l * d, e, p)
    ensures var R := ThirdPoint(x1, y1, x2, l, p);
            && Cong((R.x + x1 + x2) * (d * d), e * e, p)
            && Cong((-R.y - y1) * d, e * (R.x - x1), p)
  {
    hide Cong, ThirdPoint;
    var R, s := ThirdPoint(x1, y1, x2, l, p), l * l - x1 - x2;
    ThirdPointC(x1, y1, x2, l, p);
    CongRefl(x1 + x2, p);
    CongAdd(R.x, s, x1 + x2, x1 + x2, p);
    CongRefl(d * d, p);
    CongMul(R.x + (x1 + x2), l * l, d * d, d * d, p);
    Exchange(l, l, d, d);
    CongMul(l * d, e, l * d, e, p);
    CongTrans((R.x + x1 + x2) * (d * d), (l * d) * (l * d), e * e, p);
    ReflectedLine(R, x1, y1, l, s, d, e, p);
  }

  lemma ReflectedLine(R: Affine, x1: int, y1: int, l: int, s: int, d: int, e: int, p: Modulus)
    requires R.Pt? && Cong(R.x, s, p) && Cong(R.y, l * (x1 - s) - y1, p) && Cong(l * d, e, p)
    ensures Cong((-R.y - y1) * d, e * (R.x - x1), p)
  {
    hide Cong;
    var t := l * (x1 - s) - y1;
    CongRefl(-y1, p);
    CongSub(-y1, -y1, R.y, t, p);
    CongRefl(d, p);
    CongMul(-y1 - R.y, -y1 - t, d, d, p);
    assert -y1 - t == l * (s - x1) by { DistributeSub(l, x1, s); DistributeSub(l, s, x1); }
    SwapLast(l, s - x1, d);
    CongRefl(x1, p);
    CongSub(R.x, s, x1, x1, p);
    CongSym(R.x - x1, s - x1, p);
    CongMul(l * d, e, s - x1, R.x - x1, p);
    CongTrans((-y1 - R.y) * d, (l * d) * (s - x1), e * (R.x - x1), p);
  }

  /** Two reduced points that satisfy the equations of one line are equal. */
  lemma MeetsOnce(x1: int, y1: int, x2: int, R: Affine, T: Affine, d: int, e: int, p: int)
    requires IsPrime(p) && !Cong(d, 0, p) && R.Pt? && T.Pt? && Reduced(R, p) && Reduced(T, p)
    requires Cong((R.x + x1 + x2) * (d * d), e * e, p) && Cong((T.x + x1 + x2) * (d * d), e * e, p)
    requires Cong((-R.y - y1) * d, e * (R.x - x1), p) && Cong((-T.y - y1) * d, e * (T.x - x1), p)
    ensures R == T
  {
    hide Cong;
    ProductNonzero(d, d, p);
    SameFactor(R.x + x1 + x2, T.x + x1 + x2, d * d, e * e, p);
    CongRefl(x1 + x2, p);
    CongSub(R.x + x1 + x2, T.x + x1 + x2, x1 + x2, x1 + x2, p);
    CongUnique(R.x, T.x, p);
    SameFactor(-R.y - y1, -T.y - y1, d, e * (R.x - x1), p);
    CongRefl(-y1, p);
    CongSub(-y1, -y1, -R.y - y1, -T.y - y1, p);
    CongUnique(R.y, T.y, p);
  }

  lemma SameFactor(a: int, b: int, k: int, v: int, p: int)
    requires IsPrime(p) && !Cong(k, 0, p) && Cong(a * k, v, p) && Cong(b * k, v, p)
    ensures Cong(a, b, p)
  {
    hide Cong;
    CongSym(b * k, v, p);
    CongTrans(a * k, v, b * k, p);
    Commute(a, k);
    Commute(b, k);
    Cancel(k, a, b, p);
  }

  /** With x coordinates that differ: R is the sum exactly when the abscissae of P, Q and R add up to the
      square of the chord's slope and -R lies on the chord. */
  lemma AddChord(P: Affine, Q: Affine, R: Affine, b: int, p: int)
    requires IsPrime(p) && p > 2 && OnCurve(P, b, p) && OnCurve(Q, b, p) && P.Pt? && Q.Pt? && P.x != Q.x
    requires R.Pt? && Reduced(R, p)
    ensures R == AffAdd(P, Q, p) <==>
            && Cong((R.x + P.x + Q.x) * ((Q.x - P.x) * (Q.x - P.x)), (Q.y - P.y) * (Q.y - P.y), p)
            && Cong((-R.y - P.y) * (Q.x - P.x), (Q.y - P.y) * (R.x - P.x), p)
  {
    hide Cong, Slope, ThirdPoint;
    var d, e, l := Q.x - P.x, Q.y - P.y, Slope(P.x, P.y, Q.x, Q.y, p);
    SlopeIsSlope(P, Q, b, p);
    ThirdMeets(P.x, P.y, Q.x, l, d, e, p);
    ThirdPointC(P.x, P.y, Q.x, l, p);
    if Cong((R.x + P.x + Q.x) * (d * d), e * e, p) && Cong((-R.y - P.y) * d, e * (R.x - P.x), p) {
      MeetsOnce(P.x, P.y, Q.x, R, AffAdd(P, Q, p), d, e, p);
    }
  }

  /** Doubling a point that is not its own negative: the same with the tangent, 2y for the run and 3x^2
      for the rise. */
  lemma AddTangent(P: Affine, R: Affine, b: int, p: int)
    requires IsPrime(p) && p > 2 && OnCurve(P, b, p) && P.Pt? && P.y != FNeg(P.y, p)
    requires R.Pt? && Reduced(R, p)
    ensures R == AffAdd(P, P, p) <==>
            && Cong((R.x + P.x + P.x) * ((2 * P.y) * (2 * P.y)), (3 * (P.x * P.x)) * (3 * (P.x * P.x)), p)
            && Cong((-R.y - P.y) * (2 * P.y), 3 * (P.x * P.x) * (R.x - P.x), p)
  {
    hide Cong, Slope, ThirdPoint;
    var d, e, l := 2 * P.y, 3 * (P.x * P.x), Slope(P.x, P.y, P.x, P.y, p);
    SlopeIsSlope(P, P, b, p);
    assert P.y + P.y == d;
    ThirdMeets(P.x, P.y, P.x, l, d, e, p);
    ThirdPointC(P.x, P.y, P.x, l, p);
    if Cong((R.x + P.x + P.x) * (d * d), e * e, p) && Cong((-R.y - P.y) * d, e * (R.x - P.x), p) {
      MeetsOnce(P.x, P.y, P.x, R, AffAdd(P, P, p), d, e, p);
    }
  }

  /** The sum is infinity exactly for a point and its negative, and infinity is the unit. */
  lemma AddOpposite(P: Affine, Q: Affine, p: Modulus)
    ensures AffAdd(Inf, Q, p) == Q && AffAdd(P, Inf, p) == P
    ensures P.Pt? ==> (AffAdd(P, Q, p) == Inf <==> Q.Pt? && P.x == Q.x && P.y == (-Q.y) % p)
  {
    hide Slope;
  }
}
