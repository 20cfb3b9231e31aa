/** The chord-and-tangent law over the tower stays on the curve. */
module TwistClosure {
  import opened Congruence
  import opened QuadraticExtension
  import opened TwistBridge

  // ------------------------------------------- identities before reduction

  lemma RMulCommutes(a: Fq2, b: Fq2, beta: int)
    ensures RMul(a, b, beta) == RMul(b, a, beta)
  {
    assert beta * a.c1 * b.c1 == beta * b.c1 * a.c1;
  }

  /** Distribution in the second factor. */
  lemma RMulRight(a: Fq2, b: Fq2, c: Fq2, beta: int)
    ensures RMul(a, RSub(b, c), beta) == RSub(RMul(a, b, beta), RMul(a, c, beta))
    ensures RMul(a, RAdd(b, c), beta) == RAdd(RMul(a, b, beta), RMul(a, c, beta))
  {
    hide RMul, RSub, RAdd;
    RMulSub(b, c, a, beta);
    RMulCommutes(a, RSub(b, c), beta);
    RMulCommutes(a, RAdd(b, c), beta);
    RMulCommutes(a, b, beta);
    RMulCommutes(a, c, beta);
  }

  /** (y + l*m)^2 = y^2 + (2*y*l + l^2*m) * m. */
  lemma SquareOfLine2(y: Fq2, l: Fq2, m: Fq2, beta: int)
    ensures var n := RAdd(y, RMul(l, m, beta));
            var yl := RMul(y, l, beta);
            RMul(n, n, beta) ==
            RAdd(RMul(y, y, beta), RMul(RAdd(RAdd(yl, yl), RMul(RMul(l, l, beta), m, beta)), m, beta))
  {
    hide RMul;
    var u := RMul(l, m, beta);
    var n, yl, ll := RAdd(y, u), RMul(y, l, beta), RMul(l, l, beta);
    RMulSub(y, u, n, beta);
    RMulRight(y, y, u, beta);
    RMulRight(u, y, u, beta);
    RMulCommutes(u, y, beta);
    RMulAssociates(y, l, m, beta);
    RMulAssociates(l, m, u, beta);
    RMulAssociates(m, l, m, beta);
    RMulCommutes(m, l, beta);
    RMulAssociates(l, m, m, beta);
    RMulAssociates(l, l, RMul(m, m, beta), beta);
    RMulAssociates(ll, m, m, beta);
    RMulSub(yl, yl, m, beta);
    RMulSub(RAdd(yl, yl), RMul(ll, m, beta), m, beta);
  }

  function Cube2(x: Fq2, beta: int): Fq2 {
    RMul(RMul(x, x, beta), x, beta)
  }

  /** x^3 - a^3 = (x^2 + x*a + a^2) * (x - a). */
  lemma CubeDifference(x: Fq2, a: Fq2, beta: int)
    ensures RSub(Cube2(x, beta), Cube2(a, beta)) ==
            RMul(RAdd(RAdd(RMul(x, x, beta), RMul(x, a, beta)), RMul(a, a, beta)), RSub(x, a), beta)
  {
    hide RMul;
    var m, xx, xa, aa := RSub(x, a), RMul(x, x, beta), RMul(x, a, beta), RMul(a, a, beta);
    RMulSub(RAdd(xx, xa), aa, m, beta);
    RMulSub(xx, xa, m, beta);
    RMulRight(xx, x, a, beta);
    RMulRight(xa, x, a, beta);
    RMulRight(aa, x, a, beta);
    RMulCommutes(x, a, beta);
    RMulAssociates(x, a, x, beta);
    RMulAssociates(x, x, a, beta);
    RMulAssociates(x, a, a, beta);
    RMulCommutes(x, aa, beta);
  }

  /** The second factor shared by both other intersections of the line with the curve. */
  function LineFactor(x1: Fq2, y1: Fq2, l: Fq2, x: Fq2, x': Fq2, beta: int): Fq2 {
    var yl, aa := RMul(y1, l, beta), RMul(x1, x1, beta);
    RSub(RAdd(RAdd(yl, yl), RMul(x', x, beta)),
         RAdd(RAdd(RMul(x, x1, beta), RMul(x', x1, beta)), RAdd(aa, aa)))
  }

  lemma LineFactorSymmetric(x1: Fq2, y1: Fq2, l: Fq2, x: Fq2, x': Fq2, beta: int)
    ensures LineFactor(x1, y1, l, x, x', beta) == LineFactor(x1, y1, l, x', x, beta)
  {
    hide RMul;
    RMulCommutes(x, x', beta);
  }

  /** l^2 * (x - x1) when x1 + x + x' = l^2. */
  lemma SumTimesDifference(x1: Fq2, s: Fq2, x: Fq2, x': Fq2, beta: int)
    requires x' == RSub(RSub(s, x1), x)
    ensures RMul(s, RSub(x, x1), beta) ==
            RAdd(RSub(RMul(x, x, beta), RMul(x1, x1, beta)), RSub(RMul(x', x, beta), RMul(x', x1, beta)))
  {
    hide RMul;
    var m := RSub(x, x1);
    assert s == RAdd(RAdd(x1, x), x');
    RMulSub(RAdd(x1, x), x', m, beta);
    RMulSub(x1, x, m, beta);
    RMulRight(x1, x, x1, beta);
    RMulRight(x, x, x1, beta);
    RMulRight(x', x, x1, beta);
    RMulCommutes(x1, x, beta);
  }

  /** The line through (x1, y1) with slope l against the cubic, at an abscissa x with x1 + x + x' = l^2. */
  lemma LineAndCubic(x1: Fq2, y1: Fq2, l: Fq2, x: Fq2, x': Fq2, beta: int)
    requires x' == RSub(RSub(RMul(l, l, beta), x1), x)
    ensures var n := RAdd(y1, RMul(l, RSub(x, x1), beta));
            RSub(RMul(n, n, beta), Cube2(x, beta)) ==
            RAdd(RSub(RMul(y1, y1, beta), Cube2(x1, beta)),
                 RMul(LineFactor(x1, y1, l, x, x', beta), RSub(x, x1), beta))
  {
    hide RMul, Cube2;
    var m, ll, yl := RSub(x, x1), RMul(l, l, beta), RMul(y1, l, beta);
    SquareOfLine2(y1, l, m, beta);
    CubeDifference(x, x1, beta);
    SumTimesDifference(x1, ll, x, x', beta);
    var up := RAdd(RAdd(yl, yl), RMul(ll, m, beta));
    var down := RAdd(RAdd(RMul(x, x, beta), RMul(x, x1, beta)), RMul(x1, x1, beta));
    RMulSub(up, down, m, beta);
    assert RSub(up, down) == LineFactor(x1, y1, l, x, x', beta);
  }

  // ---------------------------------------------------------- congruences

  lemma RMulC(a: Fq2, a': Fq2, b: Fq2, b': Fq2, beta: int, q: Modulus)
    requires Cong2(a, a', q) && Cong2(b, b', q)
    ensures Cong2(RMul(a, b, beta), RMul(a', b', beta), q)
  {
    hide RMul, SMul, Cong;
    MulC2(a, a', b, b', beta, q);
    Refl2(a, q);
    Refl2(b, q);
    MulC2(a, a, b, b, beta, q);
    Common2(SMul(a, b, beta, q), RMul(a, b, beta), RMul(a', b', beta), q);
  }

  /** Two pairs congruent to the same one are congruent. */
  lemma Common2(v: Fq2, a: Fq2, b: Fq2, q: Modulus)
    requires Cong2(v, a, q) && Cong2(v, b, q)
    ensures Cong2(a, b, q)
  {
    hide Cong;
    CongSym(v.c0, a.c0, q);
    CongSym(v.c1, a.c1, q);
    CongTrans(a.c0, v.c0, b.c0, q);
    CongTrans(a.c1, v.c1, b.c1, q);
  }

  lemma Sym2(a: Fq2, b: Fq2, q: Modulus)
    requires Cong2(a, b, q)
    ensures Cong2(b, a, q)
  {
    hide Cong;
    Refl2(a, q);
    Common2(a, b, a, q);
  }

  lemma AddSubC(a: Fq2, a': Fq2, b: Fq2, b': Fq2, q: Modulus)
    requires Cong2(a, a', q) && Cong2(b, b', q)
    ensures Cong2(RAdd(a, b), RAdd(a', b'), q) && Cong2(RSub(a, b), RSub(a', b'), q)
  {
    hide Cong;
    CongAdd(a.c0, a'.c0, b.c0, b'.c0, q);
    CongAdd(a.c1, a'.c1, b.c1, b'.c1, q);
    CongSub(a.c0, a'.c0, b.c0, b'.c0, q);
    CongSub(a.c1, a'.c1, b.c1, b'.c1, q);
  }

  /** The curve equation y^2 - x^3 = b on unreduced coordinates. */
  ghost predicate Satisfies(x: Fq2, y: Fq2, b: Fq2, beta: int, q: Modulus) {
    Cong2(RSub(RMul(y, y, beta), Cube2(x, beta)), b, q)
  }

  lemma OnTwistSatisfies(x: Fq2, y: Fq2, b: Fq2, beta: int, q: Modulus)
    requires Reduced2(x, q) && Reduced2(y, q)
    ensures OnTwist(Point(x, y), b, beta, q) <==> Satisfies(x, y, b, beta, q)
  {
    hide RMul, SMul, SAdd, Cong;
    var xx, yy := SMul(x, x, beta, q), SMul(y, y, beta, q);
    var xxx := SMul(xx, x, beta, q);
    Refl2(x, q);
    Refl2(y, q);
    Refl2(b, q);
    MulC2(x, x, x, x, beta, q);
    MulC2(xx, RMul(x, x, beta), x, x, beta, q);
    MulC2(y, y, y, y, beta, q);
    AddC2(xxx, Cube2(x, beta), b, b, q);
    var r, c := RMul(y, y, beta), Cube2(x, beta);
    MoveAcross(r, c, b, q);
    if yy == SAdd(xxx, b, q) { Common2(yy, r, RAdd(c, b), q); }
    if Cong2(r, RAdd(c, b), q) {
      Sym2(r, RAdd(c, b), q);
      Sym2(yy, r, q);
      Common2(r, yy, RAdd(c, b), q);
      Same2(yy, SAdd(xxx, b, q), RAdd(c, b), q);
    }
  }

  lemma MoveAcross(r: Fq2, c: Fq2, b: Fq2, q: Modulus)
    ensures Cong2(RSub(r, c), b, q) <==> Cong2(r, RAdd(c, b), q)
  {
    assert r.c0 - c.c0 - b.c0 == r.c0 - (c.c0 + b.c0);
    assert r.c1 - c.c1 - b.c1 == r.c1 - (c.c1 + b.c1);
  }

  lemma SatisfiesC(x: Fq2, x': Fq2, y: Fq2, y': Fq2, b: Fq2, beta: int, q: Modulus)
    requires Cong2(x, x', q) && Cong2(y, y', q) && Satisfies(x, y, b, beta, q)
    ensures Satisfies(x', y', b, beta, q)
  {
    hide RMul, Cong;
    RMulC(x, x', x, x', beta, q);
    RMulC(RMul(x, x, beta), RMul(x', x', beta), x, x', beta, q);
    RMulC(y, y', y, y', beta, q);
    AddSubC(RMul(y, y, beta), RMul(y', y', beta), Cube2(x, beta), Cube2(x', beta), q);
    Common2(RSub(RMul(y, y, beta), Cube2(x, beta)), RSub(RMul(y', y', beta), Cube2(x', beta)), b, q);
  }

  lemma NegatedSatisfies(x: Fq2, y: Fq2, b: Fq2, beta: int, q: Modulus)
    requires Satisfies(x, y, b, beta, q)
    ensures Satisfies(x, RSub(ZERO, y), b, beta, q)
  {
    hide Cong;
    var n := RSub(ZERO, y);
    assert n.c0 * n.c0 + beta * n.c1 * n.c1 == y.c0 * y.c0 + beta * y.c1 * y.c1;
    assert RMul(n, n, beta) == RMul(y, y, beta);
  }

  // -------------------------------------------------------------- closure

  /** The factor vanishes: for a chord because (x2, y2) is on the curve, for a tangent because the
      slope is the derivative. */
  lemma FactorVanishes(P: TwistPoint, Q: TwistPoint, l: Fq2, b: Fq2, beta: int, q: int)
    requires IsTower(beta, q) && Generic(P, Q, q) && IsTwistSlope(l, P, Q, beta, q)
    requires OnTwist(P, b, beta, q) && OnTwist(Q, b, beta, q)
    ensures Cong2(LineFactor(P.x, P.y, l, Q.x, RSub(RSub(RMul(l, l, beta), P.x), Q.x), beta), ZERO, q)
  {
    hide RMul, SMul, SAdd, SSub, Cong, IsTower, LineFactor, OnTwist;
    if P == Q { TangentFactor(P.x, P.y, l, beta, q); } else { ChordFactor2(P, Q, l, b, beta, q); }
  }

  lemma TangentFactor(x: Fq2, y: Fq2, l: Fq2, beta: int, q: Modulus)
    requires SMul(l, SAdd(y, y, q), beta, q) == SMul(Fq2(3, 0), SMul(x, x, beta, q), beta, q)
    ensures Cong2(LineFactor(x, y, l, x, RSub(RSub(RMul(l, l, beta), x), x), beta), ZERO, q)
  {
    hide RMul, SMul, SAdd, SSub, Cong;
    var v := SMul(l, SAdd(y, y, q), beta, q);
    Refl2(x, q);
    Refl2(y, q);
    Refl2(l, q);
    Refl2(Fq2(3, 0), q);
    AddC2(y, y, y, y, q);
    MulC2(l, l, SAdd(y, y, q), RAdd(y, y), beta, q);
    MulC2(x, x, x, x, beta, q);
    var xx := RMul(x, x, beta);
    MulC2(Fq2(3, 0), Fq2(3, 0), SMul(x, x, beta, q), xx, beta, q);
    Common2(v, RMul(l, RAdd(y, y), beta), RMul(Fq2(3, 0), xx, beta), q);
    RMulRight(l, y, y, beta);
    RMulCommutes(l, y, beta);
    Triple(xx, beta);
    Refl2(RMul(Fq2(3, 0), xx, beta), q);
    AddSubC(RMul(l, RAdd(y, y), beta), RMul(Fq2(3, 0), xx, beta), RMul(Fq2(3, 0), xx, beta), RMul(Fq2(3, 0), xx, beta), q);
  }

  lemma Triple(a: Fq2, beta: int)
    ensures RMul(Fq2(3, 0), a, beta) == RAdd(RAdd(a, a), a)
  {
    assert beta * 0 * a.c1 == 0;
  }

  lemma ChordFactor2(P: TwistPoint, Q: TwistPoint, l: Fq2, b: Fq2, beta: int, q: int)
    requires IsTower(beta, q) && P != Q && Generic(P, Q, q) && IsTwistSlope(l, P, Q, beta, q)
    requires OnTwist(P, b, beta, q) && OnTwist(Q, b, beta, q)
    ensures Cong2(LineFactor(P.x, P.y, l, Q.x, RSub(RSub(RMul(l, l, beta), P.x), Q.x), beta), ZERO, q)
  {
    hide RMul, SMul, SAdd, SSub, Cong, IsTower, LineFactor, OnTwist, Cube2, RSub, RAdd, Cong2;
    var m, n := RSub(Q.x, P.x), RAdd(P.y, RMul(l, RSub(Q.x, P.x), beta));
    var f := LineFactor(P.x, P.y, l, Q.x, RSub(RSub(RMul(l, l, beta), P.x), Q.x), beta);
    LineAndCubic(P.x, P.y, l, Q.x, RSub(RSub(RMul(l, l, beta), P.x), Q.x), beta);
    LineMeets(P, Q, l, beta, q);
    OnTwistSatisfies(P.x, P.y, b, beta, q);
    OnTwistSatisfies(Q.x, Q.y, b, beta, q);
    Refl2(Q.x, q);
    SatisfiesC(Q.x, Q.x, Q.y, n, b, beta, q);
    var left, right := RSub(RMul(n, n, beta), Cube2(Q.x, beta)), RSub(RMul(P.y, P.y, beta), Cube2(P.x, beta));
    AddSubC(left, b, right, b, q);
    DifferenceOf(left, right, RMul(f, m, beta), b);
    Refl2(Q.x, q);
    Refl2(P.x, q);
    SubC2(Q.x, Q.x, P.x, P.x, q);
    VanishingFactor(f, m, SSub(Q.x, P.x, q), beta, q);
  }

  lemma DifferenceOf(left: Fq2, right: Fq2, f: Fq2, b: Fq2)
    requires left == RAdd(right, f)
    ensures RSub(left, right) == f && RSub(b, b) == ZERO
  {
  }

  /** A product congruent to zero with a nonzero second factor. */
  lemma VanishingFactor(f: Fq2, m: Fq2, d: Fq2, beta: int, q: int)
    requires IsTower(beta, q) && Cong2(RMul(f, m, beta), ZERO, q) && Cong2(d, m, q) && Reduced2(d, q) && d != ZERO
    ensures Cong2(f, ZERO, q)
  {
    hide RMul, SMul, Cong;
    var r := Fq2(f.c0 % q, f.c1 % q);
    CongMod(f.c0, q);
    CongMod(f.c1, q);
    MulC2(r, f, d, m, beta, q);
    Sym2(RMul(f, m, beta), ZERO, q);
    Sym2(SMul(r, d, beta, q), RMul(f, m, beta), q);
    Common2(RMul(f, m, beta), SMul(r, d, beta, q), ZERO, q);
    Refl2(ZERO, q);
    Same2(SMul(r, d, beta, q), ZERO, ZERO, q);
    if r != ZERO { SMulNonzero(r, d, beta, q); }
    Sym2(r, f, q);
  }

  /** The chord passes through its second point. */
  lemma LineMeets(P: TwistPoint, Q: TwistPoint, l: Fq2, beta: int, q: Modulus)
    requires P.Point? && Q.Point? && P != Q && IsTwistSlope(l, P, Q, beta, q)
    ensures Cong2(Q.y, RAdd(P.y, RMul(l, RSub(Q.x, P.x), beta)), q)
  {
    hide RMul, SMul, SAdd, SSub, Cong;
    Refl2(P.x, q);
    Refl2(Q.x, q);
    Refl2(P.y, q);
    Refl2(Q.y, q);
    Refl2(l, q);
    SubC2(Q.x, Q.x, P.x, P.x, q);
    SubC2(Q.y, Q.y, P.y, P.y, q);
    MulC2(l, l, SSub(Q.x, P.x, q), RSub(Q.x, P.x), beta, q);
    Common2(SSub(Q.y, P.y, q), RSub(Q.y, P.y), RMul(l, RSub(Q.x, P.x), beta), q);
    AddSubC(P.y, P.y, RSub(Q.y, P.y), RMul(l, RSub(Q.x, P.x), beta), q);
    assert RAdd(P.y, RSub(Q.y, P.y)) == Q.y;
  }

  /** e_add stays on the curve. */
  lemma EAddOnTwist(P: TwistPoint, Q: TwistPoint, b: Fq2, beta: int, q: int)
    requires IsTower(beta, q) && OnTwist(P, b, beta, q) && OnTwist(Q, b, beta, q)
    ensures OnTwist(EAdd(P, Q, beta, q), b, beta, q)
  {
    hide SMul, SAdd, SSub, SInv, IsTower, ThirdTwist, TwistSlope, IsTwistSlope;
    if P.Point? && Q.Point? && !(P.x == Q.x && P.y == SSub(ZERO, Q.y, q)) {
      EAddNeverRaises(P, Q, b, beta, q);
      var l := TwistSlope(P, Q, beta, q);
      TwistSlopeIs(P, Q, beta, q);
      ThirdOnTwist(P, Q, l, b, beta, q);
    }
  }

  lemma ThirdOnTwist(P: TwistPoint, Q: TwistPoint, l: Fq2, b: Fq2, beta: int, q: int)
    requires IsTower(beta, q) && Generic(P, Q, q) && IsTwistSlope(l, P, Q, beta, q)
    requires OnTwist(P, b, beta, q) && OnTwist(Q, b, beta, q)
    ensures OnTwist(ThirdTwist(P, Q, l, beta, q), b, beta, q)
  {
    hide SMul, SAdd, SSub, RMul, RSub, RAdd, Cong, Cong2, IsTower, LineFactor, Cube2, IsTwistSlope, OnTwist, ThirdTwist;
    var x3 := RSub(RSub(RMul(l, l, beta), P.x), Q.x);
    var m := RSub(x3, P.x);
    var n := RAdd(P.y, RMul(l, m, beta));
    FactorVanishes(P, Q, l, b, beta, q);
    LineFactorSymmetric(P.x, P.y, l, Q.x, x3, beta);
    SwapAbscissae(RMul(l, l, beta), P.x, Q.x);
    LineAndCubic(P.x, P.y, l, x3, Q.x, beta);
    var f := LineFactor(P.x, P.y, l, x3, Q.x, beta);
    Refl2(m, q);
    RMulC(f, ZERO, m, m, beta, q);
    OnTwistSatisfies(P.x, P.y, b, beta, q);
    var right := RSub(RMul(P.y, P.y, beta), Cube2(P.x, beta));
    AddSubC(right, b, RMul(f, m, beta), RMul(ZERO, m, beta), q);
    ZeroProduct(m, b, beta);
    assert Satisfies(x3, n, b, beta, q);
    NegatedSatisfies(x3, n, b, beta, q);
    var R := ThirdTwist(P, Q, l, beta, q);
    ThirdC(P, Q, l, x3, n, beta, q);
    SatisfiesC(x3, R.x, RSub(ZERO, n), R.y, b, beta, q);
    OnTwistSatisfies(R.x, R.y, b, beta, q);
  }

  lemma SwapAbscissae(s: Fq2, x1: Fq2, x2: Fq2)
    ensures x2 == RSub(RSub(s, x1), RSub(RSub(s, x1), x2))
  {
  }

  lemma ZeroProduct(m: Fq2, b: Fq2, beta: int)
    ensures RMul(ZERO, m, beta) == ZERO && RAdd(b, ZERO) == b
  {
    assert beta * 0 * m.c1 == 0;
  }

  /** The reduced third point against its unreduced polynomials. */
  lemma ThirdC(P: TwistPoint, Q: TwistPoint, l: Fq2, x3: Fq2, n: Fq2, beta: int, q: Modulus)
    requires P.Point? && Q.Point?
    requires x3 == RSub(RSub(RMul(l, l, beta), P.x), Q.x) && n == RAdd(P.y, RMul(l, RSub(x3, P.x), beta))
    ensures var R := ThirdTwist(P, Q, l, beta, q); Cong2(x3, R.x, q) && Cong2(RSub(ZERO, n), R.y, q)
  {
    hide SMul, SSub, RMul, Cong;
    var R := ThirdTwist(P, Q, l, beta, q);
    Refl2(P.x, q);
    Refl2(Q.x, q);
    Refl2(P.y, q);
    Refl2(l, q);
    MulC2(l, l, l, l, beta, q);
    SubC2(SMul(l, l, beta, q), RMul(l, l, beta), P.x, P.x, q);
    SubC2(SSub(SMul(l, l, beta, q), P.x, q), RSub(RMul(l, l, beta), P.x), Q.x, Q.x, q);
    SubC2(P.x, P.x, R.x, x3, q);
    MulC2(l, l, SSub(P.x, R.x, q), RSub(P.x, x3), beta, q);
    SubC2(SMul(l, SSub(P.x, R.x, q), beta, q), RMul(l, RSub(P.x, x3), beta), P.y, P.y, q);
    RMulRight(l, P.x, x3, beta);
    RMulRight(l, x3, P.x, beta);
    Sym2(R.x, x3, q);
    Sym2(R.y, RSub(ZERO, n), q);
  }
}
