/** Which point e_add returns, in terms of the line through its operands and not of a slope: the third
    point of the chord or tangent, reflected, and no other point. */
module TwistChords {
  import opened Congruence
  import opened FieldOps
  import opened QuadraticExtension
  import opened TwistBridge

  // ------------------------------------------------------- additive identities

  lemma SwapDifference(x: int, a: int, q: Modulus)
    ensures FSub(x, a, q) == FSub(0, FSub(a, x, q), q)
  {
    hide Cong;
    CongRefl(0, q);
    CongRefl(x, q);
    CongRefl(a, q);
    SubC(x, x, a, a, q);
    SubC(a, a, x, x, q);
    SubC(0, 0, FSub(a, x, q), a - x, q);
    SameC(FSub(x, a, q), FSub(0, FSub(a, x, q), q), x - a, q);
  }

  /** Equal sums with a common summand, and equal values of -a - c. */
  lemma CommonSummand(a: int, b: int, c: int, q: Modulus)
    requires 0 <= a < q && 0 <= b < q
    ensures FAdd(a, c, q) == FAdd(b, c, q) ==> a == b
    ensures FSub(FSub(0, a, q), c, q) == FSub(FSub(0, b, q), c, q) ==> a == b
  {
    hide Cong;
    CongRefl(0, q);
    CongRefl(a, q);
    CongRefl(b, q);
    CongRefl(c, q);
    if FAdd(a, c, q) == FAdd(b, c, q) {
      AddC(a, a, c, c, q);
      AddC(b, b, c, c, q);
      Shared(FAdd(a, c, q), a + c, b + c, q);
      CongSub(a + c, b + c, c, c, q);
      CongUnique(a, b, q);
    }
    if FSub(FSub(0, a, q), c, q) == FSub(FSub(0, b, q), c, q) {
      SubC(0, 0, a, a, q);
      SubC(0, 0, b, b, q);
      SubC(FSub(0, a, q), -a, c, c, q);
      SubC(FSub(0, b, q), -b, c, c, q);
      Shared(FSub(FSub(0, b, q), c, q), -b - c, -a - c, q);
      CongAdd(-b - c, -a - c, a + b + c, a + b + c, q) by { CongRefl(a + b + c, q); }
      CongUnique(a, b, q);
    }
  }

  lemma Shared(v: int, a: int, b: int, q: Modulus)
    requires Cong(v, a, q) && Cong(v, b, q)
    ensures Cong(a, b, q)
  {
    hide Cong;
    CongSym(v, a, q);
    CongTrans(a, v, b, q);
  }

  lemma SumBack2(s: Fq2, a: Fq2, b: Fq2, q: Modulus)
    requires Reduced2(s, q)
    ensures SAdd(SAdd(SSub(SSub(s, a, q), b, q), a, q), b, q) == s
  {
    hide SAdd, SSub, Cong2;
    var s1 := SSub(s, a, q);
    var s2 := SSub(s1, b, q);
    var s3 := SAdd(s2, a, q);
    Refl2(s, q);
    Refl2(a, q);
    Refl2(b, q);
    SubC2(s, s, a, a, q);
    SubC2(s1, RSub(s, a), b, b, q);
    AddC2(s2, RSub(RSub(s, a), b), a, a, q);
    AddC2(s3, RAdd(RSub(RSub(s, a), b), a), b, b, q);
    Same2(SAdd(s3, b, q), s, s, q);
  }

  /** -(u - y) - y = -u. */
  lemma NegSubBack2(u: Fq2, y: Fq2, q: Modulus)
    ensures SSub(SSub(ZERO, SSub(u, y, q), q), y, q) == SSub(ZERO, u, q)
  {
    hide SSub, Cong2;
    var v, w := SSub(u, y, q), SSub(ZERO, u, q);
    Refl2(ZERO, q);
    Refl2(u, q);
    Refl2(y, q);
    SubC2(u, u, y, y, q);
    SubC2(ZERO, ZERO, v, RSub(u, y), q);
    SubC2(SSub(ZERO, v, q), RSub(ZERO, RSub(u, y)), y, y, q);
    SubC2(ZERO, ZERO, u, u, q);
    Same2(SSub(SSub(ZERO, v, q), y, q), w, RSub(ZERO, u), q);
  }

  lemma SwapDifference2(x: Fq2, a: Fq2, q: Modulus)
    ensures SSub(x, a, q) == SSub(ZERO, SSub(a, x, q), q)
  {
    SwapDifference(x.c0, a.c0, q);
    SwapDifference(x.c1, a.c1, q);
  }

  lemma CommonSummand2(a: Fq2, b: Fq2, c: Fq2, q: Modulus)
    requires Reduced2(a, q) && Reduced2(b, q)
    ensures SAdd(a, c, q) == SAdd(b, c, q) ==> a == b
    ensures SSub(SSub(ZERO, a, q), c, q) == SSub(SSub(ZERO, b, q), c, q) ==> a == b
  {
    CommonSummand(a.c0, b.c0, c.c0, q);
    CommonSummand(a.c1, b.c1, c.c1, q);
  }

  // ------------------------------------------------------------ the third point

  /** The line of slope e/d through P and Q, at the point that ThirdTwist returns. */
  lemma ThirdMeets(P: TwistPoint, Q: TwistPoint, l: Fq2, d: Fq2, e: Fq2, beta: int, q: Modulus)
    requires P.Point? && Q.Point? && SMul(l, d, beta, q) == e
    ensures var R := ThirdTwist(P, Q, l, beta, q);
            && SMul(SAdd(SAdd(R.x, P.x, q), Q.x, q), SMul(d, d, beta, q), beta, q) == SMul(e, e, beta, q)
            && SMul(SSub(SSub(ZERO, R.y, q), P.y, q), d, beta, q) == SMul(e, SSub(R.x, P.x, q), beta, q)
  {
    hide SMul, SSub, SAdd;
    var R := ThirdTwist(P, Q, l, beta, q);
    SumBack2(SMul(l, l, beta, q), P.x, Q.x, q);
    SMulSwap(l, l, d, d, beta, q);
    var m, n := SSub(R.x, P.x, q), SSub(P.x, R.x, q);
    NegSubBack2(SMul(l, n, beta, q), P.y, q);
    SwapDifference2(R.x, P.x, q);
    SMulSub(ZERO, n, l, beta, q);
    ZeroTimes(l, beta, q);
    SMulCommutes(n, l, beta, q);
    SMulCommutes(m, l, beta, q);
    SMulAssociates(l, m, d, beta, q);
    SMulCommutes(m, d, beta, q);
    SMulAssociates(l, d, m, beta, q);
  }

  /** Two points that satisfy the equations of one line are equal. */
  lemma MeetsOnce(P: TwistPoint, Q: TwistPoint, R: TwistPoint, T: TwistPoint, d: Fq2, e: Fq2, beta: int, q: int)
    requires IsTower(beta, q) && P.Point? && Q.Point? && R.Point? && T.Point? && Reduced2(d, q) && d != ZERO
    requires Reduced2(R.x, q) && Reduced2(R.y, q) && Reduced2(T.x, q) && Reduced2(T.y, q)
    requires SMul(SAdd(SAdd(R.x, P.x, q), Q.x, q), SMul(d, d, beta, q), beta, q) == SMul(e, e, beta, q)
    requires SMul(SAdd(SAdd(T.x, P.x, q), Q.x, q), SMul(d, d, beta, q), beta, q) == SMul(e, e, beta, q)
    requires SMul(SSub(SSub(ZERO, R.y, q), P.y, q), d, beta, q) == SMul(e, SSub(R.x, P.x, q), beta, q)
    requires SMul(SSub(SSub(ZERO, T.y, q), P.y, q), d, beta, q) == SMul(e, SSub(T.x, P.x, q), beta, q)
    ensures R == T
  {
    hide SMul, SSub, SAdd, IsTower;
    SMulNonzero(d, d, beta, q);
    Cancel2(SAdd(SAdd(R.x, P.x, q), Q.x, q), SAdd(SAdd(T.x, P.x, q), Q.x, q), SMul(d, d, beta, q), beta, q);
    CommonSummand2(SAdd(R.x, P.x, q), SAdd(T.x, P.x, q), Q.x, q);
    CommonSummand2(R.x, T.x, P.x, q);
    Cancel2(SSub(SSub(ZERO, R.y, q), P.y, q), SSub(SSub(ZERO, T.y, q), P.y, q), d, beta, q);
    CommonSummand2(R.y, T.y, P.y, q);
  }

  /** With x coordinates that differ: R is the sum exactly when the abscissae of P, Q and R add up to the
      square of the chord's slope and -R lies on the chord. */
  lemma EAddChord(P: TwistPoint, Q: TwistPoint, R: TwistPoint, b: Fq2, beta: int, q: int)
    requires IsTower(beta, q) && OnTwist(P, b, beta, q) && OnTwist(Q, b, beta, q) && P.Point? && Q.Point? && P.x != Q.x
    requires R.Point? && Reduced2(R.x, q) && Reduced2(R.y, q)
    ensures R == EAdd(P, Q, beta, q) <==>
            var d, e := SSub(Q.x, P.x, q), SSub(Q.y, P.y, q);
            && SMul(SAdd(SAdd(R.x, P.x, q), Q.x, q), SMul(d, d, beta, q), beta, q) == SMul(e, e, beta, q)
            && SMul(SSub(SSub(ZERO, R.y, q), P.y, q), d, beta, q) == SMul(e, SSub(R.x, P.x, q), beta, q)
  {
    hide SMul, SSub, SAdd, IsTower, TwistSlope, ThirdTwist;
    var d, e, l := SSub(Q.x, P.x, q), SSub(Q.y, P.y, q), TwistSlope(P, Q, beta, q);
    SubZero(Q.x, P.x, q);
    TwistSlopeIs(P, Q, beta, q);
    var T := EAdd(P, Q, beta, q);
    ThirdMeets(P, Q, l, d, e, beta, q);
    if && SMul(SAdd(SAdd(R.x, P.x, q), Q.x, q), SMul(d, d, beta, q), beta, q) == SMul(e, e, beta, q)
       && SMul(SSub(SSub(ZERO, R.y, q), P.y, q), d, beta, q) == SMul(e, SSub(R.x, P.x, q), beta, q) {
      MeetsOnce(P, Q, R, T, d, e, beta, q);
    }
  }

  /** Doubling a point that is not its own negative: the same with the tangent, 2y for the run and 3x^2
      for the rise. */
  lemma EAddTangent(P: TwistPoint, R: TwistPoint, b: Fq2, beta: int, q: int)
    requires IsTower(beta, q) && OnTwist(P, b, beta, q) && P.Point? && P.y != SSub(ZERO, P.y, q)
    requires R.Point? && Reduced2(R.x, q) && Reduced2(R.y, q)
    ensures R == EAdd(P, P, beta, q) <==>
            var d, e := SAdd(P.y, P.y, q), SMul(Fq2(3, 0), SMul(P.x, P.x, beta, q), beta, q);
            && SMul(SAdd(SAdd(R.x, P.x, q), P.x, q), SMul(d, d, beta, q), beta, q) == SMul(e, e, beta, q)
            && SMul(SSub(SSub(ZERO, R.y, q), P.y, q), d, beta, q) == SMul(e, SSub(R.x, P.x, q), beta, q)
  {
    hide SMul, SSub, SAdd, IsTower, TwistSlope, ThirdTwist;
    var d, e, l := SAdd(P.y, P.y, q), SMul(Fq2(3, 0), SMul(P.x, P.x, beta, q), beta, q), TwistSlope(P, P, beta, q);
    SubZero(P.y, P.y, q);
    TwistSlopeIs(P, P, beta, q);
    var T := EAdd(P, P, beta, q);
    ThirdMeets(P, P, l, d, e, beta, q);
    if && SMul(SAdd(SAdd(R.x, P.x, q), P.x, q), SMul(d, d, beta, q), beta, q) == SMul(e, e, beta, q)
       && SMul(SSub(SSub(ZERO, R.y, q), P.y, q), d, beta, q) == SMul(e, SSub(R.x, P.x, q), beta, q) {
      MeetsOnce(P, P, R, T, d, e, beta, q);
    }
  }

  /** The sum is infinity exactly for a point and its negative, and infinity is the unit. */
  lemma EAddOpposite(P: TwistPoint, Q: TwistPoint, beta: int, q: Modulus)
    ensures EAdd(Infinity, Q, beta, q) == Q && EAdd(P, Infinity, beta, q) == P
    ensures P.Point? ==>
              (EAdd(P, Q, beta, q) == Infinity <==> Q.Point? && P.x == Q.x && P.y == SSub(ZERO, Q.y, q))
    ensures P.Point? && Reduced2(P.y, q) ==> EAdd(P, Point(P.x, SSub(ZERO, P.y, q)), beta, q) == Infinity
  {
    hide SMul, SSub, TwistSlope;
    if P.Point? && Reduced2(P.y, q) { DoubleNegative(P.y, q); }
  }

  lemma DoubleNegative(y: Fq2, q: Modulus)
    requires Reduced2(y, q)
    ensures y == SSub(ZERO, SSub(ZERO, y, q), q)
  {
    hide Cong;
    NegNeg(y.c0, q);
    NegNeg(y.c1, q);
  }

  lemma NegNeg(y: int, q: Modulus)
    requires 0 <= y < q
    ensures y == FSub(0, FSub(0, y, q), q)
  {
    SwapDifference(y, 0, q);
    SmallMod(y, q);
  }
}
