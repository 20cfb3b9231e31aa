/** The bridge between the two towers, u^2 = 5 and v^2 = -5, and between the twists over them. */
module TwistBridge {
  import opened IntegerLaws
  import opened Congruence
  import opened PrimeField
  import opened FieldOps
  import opened SquareRoot
  import opened QuadraticExtension

  const U_SQUARE := 5
  const V_SQUARE := -5

  datatype TwistPoint = Infinity | Point(x: Fq2, y: Fq2)

  ghost predicate OnTwist(P: TwistPoint, b: Fq2, beta: int, q: Modulus) {
    P.Point? ==>
      && Reduced2(P.x, q) && Reduced2(P.y, q)
      && SMul(P.y, P.y, beta, q) == SAdd(SMul(SMul(P.x, P.x, beta, q), P.x, beta, q), b, q)
  }

  function TwistSlope(P: TwistPoint, Q: TwistPoint, beta: int, q: Modulus): (l: Fq2)
    requires P.Point? && Q.Point?
    ensures Reduced2(l, q)
  {
    if P == Q
    then SMul(SMul(Fq2(3, 0), SMul(P.x, P.x, beta, q), beta, q), SInv(SAdd(P.y, P.y, q), beta, q), beta, q)
    else SMul(SSub(Q.y, P.y, q), SInv(SSub(Q.x, P.x, q), beta, q), beta, q)
  }

  function ThirdTwist(P: TwistPoint, Q: TwistPoint, l: Fq2, beta: int, q: Modulus): (R: TwistPoint)
    requires P.Point? && Q.Point?
    ensures R.Point? && Reduced2(R.x, q) && Reduced2(R.y, q)
  {
    var x3 := SSub(SSub(SMul(l, l, beta, q), P.x, q), Q.x, q);
    Point(x3, SSub(SMul(l, SSub(P.x, x3, q), beta, q), P.y, q))
  }

  function EAdd(P: TwistPoint, Q: TwistPoint, beta: int, q: Modulus): TwistPoint {
    if P.Infinity? then Q
    else if Q.Infinity? then P
    else if P.x == Q.x && P.y == SSub(ZERO, Q.y, q) then Infinity
    else ThirdTwist(P, Q, TwistSlope(P, Q, beta, q), beta, q)
  }

  // ------------------------------------------------------------- the slope

  lemma SubZero(a: Fq2, b: Fq2, q: Modulus)
    requires Reduced2(a, q) && Reduced2(b, q)
    ensures SSub(a, b, q) == ZERO <==> a == b
    ensures SAdd(a, b, q) == ZERO <==> a == SSub(ZERO, b, q)
  {
    hide Cong;
    SubZeroAt(a.c0, b.c0, q);
    SubZeroAt(a.c1, b.c1, q);
  }

  lemma SubZeroAt(a: int, b: int, q: Modulus)
    requires 0 <= a < q && 0 <= b < q
    ensures (a - b) % q == 0 <==> a == b
    ensures (a + b) % q == 0 <==> a == (0 - b) % q
  {
    hide Cong;
    EqualC(a, b, q);
    CongZeroSub(a, b, q);
    CongRefl(b, q);
    NegC(b, b, q);
    assert (a - b) % q == 0 <==> Cong(a, b, q) by { ModZero(a - b, q); }
    ModZero(a + b, q);
    CongZeroSub(a, -b, q);
    if Cong(a, -b, q) { SameC(a, FNeg(b, q), -b, q); }
  }

  lemma ModZero(a: int, q: Modulus)
    ensures a % q == 0 <==> Cong(a, 0, q)
  {
  }

  lemma DifferenceOfSquares(a: Fq2, b: Fq2, beta: int, q: Modulus)
    requires SMul(a, a, beta, q) == SMul(b, b, beta, q)
    ensures SMul(SSub(a, b, q), SAdd(a, b, q), beta, q) == ZERO
  {
    hide SMul, SSub, SAdd;
    SMulSub(a, b, SAdd(a, b, q), beta, q);
    SMulCommutes(a, SAdd(a, b, q), beta, q);
    SMulCommutes(b, SAdd(a, b, q), beta, q);
    SMulAdd(a, b, a, beta, q);
    SMulAdd(a, b, b, beta, q);
    SMulCommutes(a, b, beta, q);
    SumCancels(SMul(a, a, beta, q), SMul(a, b, beta, q), q);
  }

  lemma SumCancels(c: Fq2, d: Fq2, q: Modulus)
    ensures SSub(SAdd(c, d, q), SAdd(d, c, q), q) == ZERO
  {
    SmallMod(0, q);
  }

  /** On the curve, points with equal x are equal or opposite. */
  lemma SameX(P: TwistPoint, Q: TwistPoint, b: Fq2, beta: int, q: int)
    requires IsTower(beta, q) && OnTwist(P, b, beta, q) && OnTwist(Q, b, beta, q)
    requires P.Point? && Q.Point? && P.x == Q.x
    ensures P.y == Q.y || P.y == SSub(ZERO, Q.y, q)
  {
    hide SMul, SSub, SAdd, IsTower;
    DifferenceOfSquares(P.y, Q.y, beta, q);
    SubZero(P.y, Q.y, q);
    if P.y != Q.y && SAdd(P.y, Q.y, q) != ZERO {
      SMulNonzero(SSub(P.y, Q.y, q), SAdd(P.y, Q.y, q), beta, q);
    }
  }

  /** Where the third branch is not taken, the element the source inverts is nonzero. */
  ghost predicate Generic(P: TwistPoint, Q: TwistPoint, q: Modulus) {
    && P.Point? && Q.Point?
    && Reduced2(P.x, q) && Reduced2(P.y, q) && Reduced2(Q.x, q) && Reduced2(Q.y, q)
    && (if P == Q then SAdd(P.y, P.y, q) != ZERO else SSub(Q.x, P.x, q) != ZERO)
  }

  lemma EAddNeverRaises(P: TwistPoint, Q: TwistPoint, b: Fq2, beta: int, q: int)
    requires IsTower(beta, q) && OnTwist(P, b, beta, q) && OnTwist(Q, b, beta, q) && P.Point? && Q.Point?
    ensures Generic(P, Q, q) <==> !(P.x == Q.x && P.y == SSub(ZERO, Q.y, q))
  {
    hide SMul, SSub, SAdd, IsTower;
    SubZero(P.y, P.y, q);
    SubZero(Q.x, P.x, q);
    if P.x == Q.x { SameX(P, Q, b, beta, q); }
  }

  /** l solves l * run = rise. */
  ghost predicate IsTwistSlope(l: Fq2, P: TwistPoint, Q: TwistPoint, beta: int, q: Modulus)
    requires P.Point? && Q.Point?
  {
    && Reduced2(l, q)
    && if P == Q
       then SMul(l, SAdd(P.y, P.y, q), beta, q) == SMul(Fq2(3, 0), SMul(P.x, P.x, beta, q), beta, q)
       else SMul(l, SSub(Q.x, P.x, q), beta, q) == SSub(Q.y, P.y, q)
  }

  lemma DivideThenMultiply(n: Fq2, d: Fq2, beta: int, q: int)
    requires IsTower(beta, q) && Reduced2(n, q) && Reduced2(d, q) && d != ZERO
    ensures SMul(SMul(n, SInv(d, beta, q), beta, q), d, beta, q) == n
  {
    hide SMul, SInv, IsTower;
    SMulAssociates(n, SInv(d, beta, q), d, beta, q);
    SMulCommutes(SInv(d, beta, q), d, beta, q);
    SInvCorrect(d, beta, q);
    SMulOne(n, beta, q);
  }

  lemma TwistSlopeIs(P: TwistPoint, Q: TwistPoint, beta: int, q: int)
    requires IsTower(beta, q) && Generic(P, Q, q)
    ensures IsTwistSlope(TwistSlope(P, Q, beta, q), P, Q, beta, q)
  {
    hide SMul, SInv, SSub, SAdd, IsTower;
    if P == Q {
      DivideThenMultiply(SMul(Fq2(3, 0), SMul(P.x, P.x, beta, q), beta, q), SAdd(P.y, P.y, q), beta, q);
    } else {
      DivideThenMultiply(SSub(Q.y, P.y, q), SSub(Q.x, P.x, q), beta, q);
    }
  }

  /** The slope is the only solution. */
  lemma TwistSlopeUnique(l: Fq2, P: TwistPoint, Q: TwistPoint, beta: int, q: int)
    requires IsTower(beta, q) && Generic(P, Q, q) && IsTwistSlope(l, P, Q, beta, q)
    ensures TwistSlope(P, Q, beta, q) == l
  {
    hide SMul, SInv, SSub, SAdd, IsTower, TwistSlope;
    TwistSlopeIs(P, Q, beta, q);
    Cancel2(TwistSlope(P, Q, beta, q), l, if P == Q then SAdd(P.y, P.y, q) else SSub(Q.x, P.x, q), beta, q);
  }

  // --------------------------------------------------------- the field map

  /** a + b*u goes to a + b*s*v. */
  function Phi(a: Fq2, s: int, q: Modulus): (r: Fq2)
    ensures Reduced2(a, q) ==> Reduced2(r, q)
  {
    Fq2(a.c0, a.c1 * s % q)
  }

  /** Scaling by s distributes over the field's addition. */
  lemma ScaleSum(x: int, y: int, s: int, q: Modulus)
    ensures FMul(FAdd(x, y, q), s, q) == FAdd(FMul(x, s, q), FMul(y, s, q), q)
  {
    hide Cong, FMul, FAdd;
    CongRefl(x, q);
    CongRefl(y, q);
    CongRefl(s, q);
    MulC(x, x, s, s, q);
    MulC(y, y, s, s, q);
    AddC(x, x, y, y, q);
    MulC(FAdd(x, y, q), x + y, s, s, q);
    AddC(FMul(x, s, q), x * s, FMul(y, s, q), y * s, q);
    assert (x + y) * s == x * s + y * s;
    SameC(FMul(FAdd(x, y, q), s, q), FAdd(FMul(x, s, q), FMul(y, s, q), q), (x + y) * s, q);
  }

  lemma ScaleDifference(x: int, y: int, s: int, q: Modulus)
    ensures FMul(FSub(x, y, q), s, q) == FSub(FMul(x, s, q), FMul(y, s, q), q)
  {
    hide Cong, FMul, FSub;
    CongRefl(x, q);
    CongRefl(y, q);
    CongRefl(s, q);
    MulC(x, x, s, s, q);
    MulC(y, y, s, s, q);
    SubC(x, x, y, y, q);
    MulC(FSub(x, y, q), x - y, s, s, q);
    SubC(FMul(x, s, q), x * s, FMul(y, s, q), y * s, q);
    assert (x - y) * s == x * s - y * s;
    SameC(FMul(FSub(x, y, q), s, q), FSub(FMul(x, s, q), FMul(y, s, q), q), (x - y) * s, q);
  }

  /** Addition and subtraction are preserved. */
  lemma PhiAdds(a: Fq2, b: Fq2, s: int, q: Modulus)
    ensures Phi(SAdd(a, b, q), s, q) == SAdd(Phi(a, s, q), Phi(b, s, q), q)
    ensures Phi(SSub(a, b, q), s, q) == SSub(Phi(a, s, q), Phi(b, s, q), q)
  {
    ScaleSum(a.c1, b.c1, s, q);
    ScaleDifference(a.c1, b.c1, s, q);
  }

  lemma CrossScaled(a: int, b: int, c: int, d: int, s: int)
    ensures a * (b * s) + (c * s) * d == (a * b + c * d) * s
  {
    Associate(a, b, s);
    SwapLast(c, s, d);
    Distribute(s, a * b, c * d);
  }

  /** Multiplication is preserved between the towers when s^2 = -1. */
  lemma PhiMultiplies(a: Fq2, b: Fq2, s: int, q: Modulus)
    requires Cong(s * s, -1, q)
    ensures Phi(SMul(a, b, U_SQUARE, q), s, q) == SMul(Phi(a, s, q), Phi(b, s, q), V_SQUARE, q)
  {
    hide Cong;
    Refl2(a, q);
    Refl2(b, q);
    MulC2(a, a, b, b, 5, q);
    PhiC(a, s, q);
    PhiC(b, s, q);
    MulC2(Phi(a, s, q), Fq2(a.c0, a.c1 * s), Phi(b, s, q), Fq2(b.c0, b.c1 * s), -5, q);
    var left, right := Phi(SMul(a, b, 5, q), s, q), SMul(Phi(a, s, q), Phi(b, s, q), -5, q);
    var x, y := a.c1, b.c1;
    MinusFive(a.c0 * b.c0, x, y, s, q);
    SameC(left.c0, right.c0, a.c0 * b.c0 + 5 * x * y, q) by {
      CongTrans(right.c0, a.c0 * b.c0 + -5 * (x * s) * (y * s), a.c0 * b.c0 + 5 * x * y, q);
    }
    var m := a.c0 * b.c1 + a.c1 * b.c0;
    CongRefl(s, q);
    MulC(SMul(a, b, 5, q).c1, m, s, s, q);
    CrossScaled(a.c0, b.c1, a.c1, b.c0, s);
    SameC(left.c1, right.c1, m * s, q);
  }

  lemma PhiC(a: Fq2, s: int, q: Modulus)
    ensures Cong2(Phi(a, s, q), Fq2(a.c0, a.c1 * s), q)
  {
    hide Cong;
    CongRefl(a.c0, q);
    CongMod(a.c1 * s, q);
  }

  lemma MinusFive(k: int, x: int, y: int, s: int, q: Modulus)
    requires Cong(s * s, -1, q)
    ensures Cong(k + -5 * (x * s) * (y * s), k + 5 * x * y, q)
  {
    hide Cong;
    CongRefl(-5 * (x * y), q);
    CongMul(-5 * (x * y), -5 * (x * y), s * s, -1, q);
    Exchange(x, s, y, s);
    Associate(-5, x * s, y * s);
    Associate(-5, x * y, s * s);
    Associate(5, x, y);
    CongRefl(k, q);
    CongAdd(k, k, -5 * (x * s) * (y * s), 5 * x * y, q);
  }

  /** With s^2 = -1 both towers are fields or neither is. */
  lemma BothTowers(s: int, q: int)
    requires IsTower(V_SQUARE, q) && Cong(s * s, -1, q)
    ensures IsTower(U_SQUARE, q)
  {
    hide Cong;
    if IsSquare(5, q) {
      var x :| SquareOf(x, 5, q);
      ModToCong(x * x, 5, q);
      CongMul(x * x, 5, s * s, -1, q);
      assert (x * s) * (x * s) == (x * x) * (s * s);
      CongMod(x * s, q);
      CongMul(x * s % q, x * s, x * s % q, x * s, q);
      CongTrans((x * s % q) * (x * s % q), (x * s) * (x * s), -5, q);
      RootFound(x * s % q, -5, q);
    }
  }

  lemma PhiInjective(a: Fq2, b: Fq2, s: int, q: int)
    requires IsPrime(q) && Cong(s * s, -1, q) && Reduced2(a, q) && Reduced2(b, q)
    ensures Phi(a, s, q) == Phi(b, s, q) <==> a == b
  {
    hide Cong;
    if Phi(a, s, q) == Phi(b, s, q) {
      ModToCong(a.c1 * s, b.c1 * s, q);
      NotZeroRoot(s, q);
      assert a.c1 * s == s * a.c1 && b.c1 * s == s * b.c1;
      Cancel(s, a.c1, b.c1, q);
      CongUnique(a.c1, b.c1, q);
    }
  }

  lemma NotZeroRoot(s: int, q: int)
    requires q > 1 && Cong(s * s, -1, q)
    ensures !Cong(s, 0, q)
  {
    hide Cong;
    if Cong(s, 0, q) {
      CongMul(s, 0, s, 0, q);
      CongSym(s * s, -1, q);
      CongTrans(-1, s * s, 0, q);
      CongRefl(0, q);
      CongSub(0, 0, -1, 0, q);
      CongUnique(1, 0, q);
    }
  }

  /** Phi fixes the first coordinates and sends the generator u to s*v. */
  lemma PhiFixes(a: int, s: int, q: Modulus)
    ensures Phi(Fq2(a, 0), s, q) == Fq2(a, 0)
    ensures Phi(Fq2(0, 1), s, q) == Fq2(0, s % q)
  {
    assert 0 * s == 0 && 1 * s == s;
    SmallMod(0, q);
  }

  // --------------------------------------------------------- the point map

  function W2(w: Fq2, q: Modulus): (r: Fq2)
    ensures Reduced2(r, q)
  {
    SMul(w, w, V_SQUARE, q)
  }

  function W3(w: Fq2, q: Modulus): (r: Fq2)
    ensures Reduced2(r, q)
  {
    SMul(W2(w, q), w, V_SQUARE, q)
  }

  /** psi(x, y) = (Phi(x) * w^2, Phi(y) * w^3). */
  function Psi(P: TwistPoint, s: int, w: Fq2, q: Modulus): TwistPoint {
    if P.Infinity? then Infinity
    else Point(SMul(Phi(P.x, s, q), W2(w, q), V_SQUARE, q), SMul(Phi(P.y, s, q), W3(w, q), V_SQUARE, q))
  }

  /** s^2 = -1 and w^6 * Phi(b) = b2: w^6 is the twist ratio b2 / Phi(b). */
  ghost predicate IsBridge(s: int, w: Fq2, b: Fq2, b2: Fq2, q: int) {
    && IsTower(V_SQUARE, q)
    && Cong(s * s, -1, q)
    && Reduced2(w, q) && Reduced2(b, q) && Reduced2(b2, q) && b2 != ZERO
    && SMul(SMul(W3(w, q), W3(w, q), V_SQUARE, q), Phi(b, s, q), V_SQUARE, q) == b2
  }

  /** The powers of w used below: w * w^2 = w^3, w * w^3 = w^2 * w^2, w^2 * w^2 * w^2 = w^3 * w^3. */
  lemma WPowers(w: Fq2, q: Modulus)
    ensures SMul(w, W2(w, q), V_SQUARE, q) == W3(w, q)
    ensures SMul(w, W3(w, q), V_SQUARE, q) == SMul(W2(w, q), W2(w, q), V_SQUARE, q)
    ensures SMul(SMul(W2(w, q), W2(w, q), V_SQUARE, q), W2(w, q), V_SQUARE, q) ==
            SMul(W3(w, q), W3(w, q), V_SQUARE, q)
  {
    hide SMul;
    var w2, w3 := W2(w, q), W3(w, q);
    SMulCommutes(w, w2, -5, q);
    SMulCommutes(w, w3, -5, q);
    SMulAssociates(w2, w, w, -5, q);
    SMulAssociates(w3, w, w2, -5, q);
    SMulCommutes(w3, w, -5, q);
  }

  lemma WNonzero(s: int, w: Fq2, b: Fq2, b2: Fq2, q: int)
    requires IsBridge(s, w, b, b2, q)
    ensures w != ZERO && W2(w, q) != ZERO && W3(w, q) != ZERO
  {
    hide SMul, Phi, IsTower, Cong;
    if w == ZERO {
      ZeroTimes(w, -5, q);
      ZeroTimes(W3(w, q), -5, q);
      ZeroTimes(Phi(b, s, q), -5, q);
    } else {
      SMulNonzero(w, w, -5, q);
      SMulNonzero(W2(w, q), w, -5, q);
    }
  }

  /** Scaled images are equal only for equal elements. */
  lemma ScaledInjective(a: Fq2, b: Fq2, d: Fq2, s: int, q: int)
    requires IsTower(V_SQUARE, q) && Cong(s * s, -1, q)
    requires Reduced2(a, q) && Reduced2(b, q) && Reduced2(d, q) && d != ZERO
    ensures SMul(Phi(a, s, q), d, V_SQUARE, q) == SMul(Phi(b, s, q), d, V_SQUARE, q) <==> a == b
  {
    hide SMul, Phi, Cong, IsSquare, IsPrime;
    if SMul(Phi(a, s, q), d, V_SQUARE, q) == SMul(Phi(b, s, q), d, V_SQUARE, q) {
      Cancel2(Phi(a, s, q), Phi(b, s, q), d, -5, q);
      PhiInjective(a, b, s, q);
    }
  }

  /** Sums and differences of images scaled by d. */
  lemma ScaledSub(a: Fq2, b: Fq2, d: Fq2, s: int, q: Modulus)
    ensures SSub(SMul(Phi(a, s, q), d, V_SQUARE, q), SMul(Phi(b, s, q), d, V_SQUARE, q), q) ==
            SMul(Phi(SSub(a, b, q), s, q), d, V_SQUARE, q)
    ensures SAdd(SMul(Phi(a, s, q), d, V_SQUARE, q), SMul(Phi(b, s, q), d, V_SQUARE, q), q) ==
            SMul(Phi(SAdd(a, b, q), s, q), d, V_SQUARE, q)
  {
    hide SMul, Phi, SSub, SAdd;
    PhiAdds(a, b, s, q);
    SMulSub(Phi(a, s, q), Phi(b, s, q), d, -5, q);
    SMulAdd(Phi(a, s, q), Phi(b, s, q), d, -5, q);
  }

  /** The product of two scaled images. */
  lemma ScaledMul(a: Fq2, d: Fq2, b: Fq2, e: Fq2, s: int, q: Modulus)
    requires Cong(s * s, -1, q)
    ensures SMul(SMul(Phi(a, s, q), d, V_SQUARE, q), SMul(Phi(b, s, q), e, V_SQUARE, q), V_SQUARE, q) ==
            SMul(Phi(SMul(a, b, U_SQUARE, q), s, q), SMul(d, e, V_SQUARE, q), V_SQUARE, q)
  {
    hide SMul, Phi, Cong;
    SMulSwap(Phi(a, s, q), d, Phi(b, s, q), e, -5, q);
    PhiMultiplies(a, b, s, q);
  }

  lemma PhiZero(s: int, q: Modulus)
    ensures Phi(ZERO, s, q) == ZERO
  {
    assert 0 * s == 0;
    SmallMod(0, q);
  }

  /** The map takes negatives to negatives. */
  lemma ScaledNeg(a: Fq2, d: Fq2, s: int, q: Modulus)
    ensures SMul(Phi(SSub(ZERO, a, q), s, q), d, V_SQUARE, q) == SSub(ZERO, SMul(Phi(a, s, q), d, V_SQUARE, q), q)
  {
    hide SMul, Phi, SSub, SAdd;
    ScaledSub(ZERO, a, d, s, q);
    PhiZero(s, q);
    ZeroTimes(d, -5, q);
  }

  /** psi maps the curve with b into the curve with b2, and nothing else into it. */
  lemma PsiOnTwist(P: TwistPoint, s: int, w: Fq2, b: Fq2, b2: Fq2, q: int)
    requires IsBridge(s, w, b, b2, q)
    requires P.Point? ==> Reduced2(P.x, q) && Reduced2(P.y, q)
    ensures OnTwist(P, b, U_SQUARE, q) <==> OnTwist(Psi(P, s, w, q), b2, V_SQUARE, q)
  {
    hide SMul, Phi, SSub, SAdd, Cong, IsTower, W2, W3;
    if P.Point? {
      var w2, w3 := W2(w, q), W3(w, q);
      var w6 := SMul(w3, w3, -5, q);
      var xx := SMul(P.x, P.x, 5, q);
      var xxx, yy := SMul(xx, P.x, 5, q), SMul(P.y, P.y, 5, q);
      WPowers(w, q);
      WNonzero(s, w, b, b2, q);
      ScaledMul(P.y, w3, P.y, w3, s, q);
      ScaledMul(P.x, w2, P.x, w2, s, q);
      ScaledMul(xx, SMul(w2, w2, -5, q), P.x, w2, s, q);
      SMulCommutes(w6, Phi(b, s, q), -5, q);
      ScaledSub(xxx, b, w6, s, q);
      SMulNonzero(w3, w3, -5, q);
      ScaledInjective(yy, SAdd(xxx, b, q), w6, s, q);
    }
  }

  /** The three coordinates of a sum under the map, for any slope l. */
  lemma PsiThird(P: TwistPoint, Q: TwistPoint, l: Fq2, s: int, w: Fq2, q: Modulus)
    requires Cong(s * s, -1, q) && P.Point? && Q.Point?
    ensures Psi(ThirdTwist(P, Q, l, U_SQUARE, q), s, w, q) ==
            ThirdTwist(Psi(P, s, w, q), Psi(Q, s, w, q), SMul(Phi(l, s, q), w, V_SQUARE, q), V_SQUARE, q)
  {
    hide SMul, Phi, SSub, SAdd, Cong, W2, W3;
    var w2, w3 := W2(w, q), W3(w, q);
    var ll := SMul(l, l, 5, q);
    var t := SSub(ll, P.x, q);
    var x3 := SSub(t, Q.x, q);
    ScaledMul(l, w, l, w, s, q);
    assert SMul(w, w, -5, q) == w2 by { WSquare(w, q); }
    ScaledSub(ll, P.x, w2, s, q);
    ScaledSub(t, Q.x, w2, s, q);
    ScaledSub(P.x, x3, w2, s, q);
    ScaledMul(l, w, SSub(P.x, x3, q), w2, s, q);
    WPowers(w, q);
    ScaledSub(SMul(l, SSub(P.x, x3, q), 5, q), P.y, w3, s, q);
  }

  lemma WSquare(w: Fq2, q: Modulus)
    ensures SMul(w, w, V_SQUARE, q) == W2(w, q)
  {
  }

  /** The image of the slope, times w, is the slope of the images. */
  lemma PsiSlope(P: TwistPoint, Q: TwistPoint, l: Fq2, s: int, w: Fq2, q: Modulus)
    requires Cong(s * s, -1, q) && P.Point? && Q.Point?
    requires IsTwistSlope(l, P, Q, U_SQUARE, q)
    requires P == Q <==> Psi(P, s, w, q) == Psi(Q, s, w, q)
    ensures IsTwistSlope(SMul(Phi(l, s, q), w, V_SQUARE, q), Psi(P, s, w, q), Psi(Q, s, w, q), V_SQUARE, q)
  {
    hide SMul, Phi, SSub, SAdd, Cong, W2, W3;
    var w2, w3 := W2(w, q), W3(w, q);
    WPowers(w, q);
    if P == Q {
      var xx := SMul(P.x, P.x, 5, q);
      ScaledSub(P.y, P.y, w3, s, q);
      ScaledMul(l, w, SAdd(P.y, P.y, q), w3, s, q);
      ScaledMul(P.x, w2, P.x, w2, s, q);
      SMulAssociates(Fq2(3, 0), Phi(xx, s, q), SMul(w2, w2, -5, q), -5, q);
      PhiThree(s, q);
      PhiMultiplies(Fq2(3, 0), xx, s, q);
    } else {
      ScaledSub(Q.x, P.x, w2, s, q);
      ScaledSub(Q.y, P.y, w3, s, q);
      ScaledMul(l, w, SSub(Q.x, P.x, q), w2, s, q);
    }
  }

  lemma PhiThree(s: int, q: Modulus)
    ensures Phi(Fq2(3, 0), s, q) == Fq2(3, 0)
  {
    assert 0 * s == 0;
    SmallMod(0, q);
  }

  /** Psi coordinate by coordinate, with w^2 = (w0^2 - 5*w1^2, 2*w0*w1) and w^3 = w^2 * w. */
  lemma PsiCoordinates(P: TwistPoint, s: int, w: Fq2, q: Modulus)
    requires P.Point?
    ensures var v0, v1 := w.c0 * w.c0 - 5 * (w.c1 * w.c1), 2 * (w.c0 * w.c1);
            var u0, u1 := v0 * w.c0 - 5 * (v1 * w.c1), v0 * w.c1 + v1 * w.c0;
            var x1, y1 := P.x.c1 * s, P.y.c1 * s;
            var R := Psi(P, s, w, q);
            && R.Point? && Reduced2(R.x, q) && Reduced2(R.y, q)
            && Cong(R.x.c0, P.x.c0 * v0 - 5 * (x1 * v1), q) && Cong(R.x.c1, P.x.c0 * v1 + x1 * v0, q)
            && Cong(R.y.c0, P.y.c0 * u0 - 5 * (y1 * u1), q) && Cong(R.y.c1, P.y.c0 * u1 + y1 * u0, q)
  {
    hide Cong, SMul, Phi;
    Refl2(w, q);
    TimesC(w, w, w, w, q);
    Commute(w.c0, w.c1);
    var v := Fq2(w.c0 * w.c0 - 5 * (w.c1 * w.c1), 2 * (w.c0 * w.c1));
    TimesC(W2(w, q), v, w, w, q);
    var u := Fq2(v.c0 * w.c0 - 5 * (v.c1 * w.c1), v.c0 * w.c1 + v.c1 * w.c0);
    PhiC(P.x, s, q);
    PhiC(P.y, s, q);
    TimesC(Phi(P.x, s, q), Fq2(P.x.c0, P.x.c1 * s), W2(w, q), v, q);
    TimesC(Phi(P.y, s, q), Fq2(P.y.c0, P.y.c1 * s), W3(w, q), u, q);
  }

  lemma TimesC(a: Fq2, a': Fq2, b: Fq2, b': Fq2, q: Modulus)
    requires Cong2(a, a', q) && Cong2(b, b', q)
    ensures Cong2(SMul(a, b, -5, q), Fq2(a'.c0 * b'.c0 - 5 * (a'.c1 * b'.c1), a'.c0 * b'.c1 + a'.c1 * b'.c0), q)
  {
    hide Cong, SMul;
    MulC2(a, a', b, b', -5, q);
    Associate(-5, a'.c1, b'.c1);
  }

  lemma PsiInjective(P: TwistPoint, Q: TwistPoint, s: int, w: Fq2, b: Fq2, b2: Fq2, q: int)
    requires IsBridge(s, w, b, b2, q) && OnTwist(P, b, U_SQUARE, q) && OnTwist(Q, b, U_SQUARE, q)
    ensures Psi(P, s, w, q) == Psi(Q, s, w, q) <==> P == Q
  {
    hide SMul, Phi, SSub, SAdd, Cong, IsTower, W2, W3;
    if P.Point? && Q.Point? {
      WNonzero(s, w, b, b2, q);
      ScaledInjective(P.x, Q.x, W2(w, q), s, q);
      ScaledInjective(P.y, Q.y, W3(w, q), s, q);
    }
  }

  /** psi commutes with e_add in every branch. */
  lemma PsiAdds(P: TwistPoint, Q: TwistPoint, s: int, w: Fq2, b: Fq2, b2: Fq2, q: int)
    requires IsBridge(s, w, b, b2, q) && OnTwist(P, b, U_SQUARE, q) && OnTwist(Q, b, U_SQUARE, q)
    ensures Psi(EAdd(P, Q, U_SQUARE, q), s, w, q) == EAdd(Psi(P, s, w, q), Psi(Q, s, w, q), V_SQUARE, q)
  {
    hide SMul, Phi, SSub, SAdd, Cong, W2, W3, TwistSlope, ThirdTwist, IsTwistSlope, IsSquare;
    if P.Point? && Q.Point? {
      var P', Q' := Psi(P, s, w, q), Psi(Q, s, w, q);
      OppositeImages(P, Q, s, w, b, b2, q);
      BothTowers(s, q);
      EAddNeverRaises(P, Q, b, 5, q);
      PsiOnTwist(P, s, w, b, b2, q);
      PsiOnTwist(Q, s, w, b, b2, q);
      EAddNeverRaises(P', Q', b2, -5, q);
      if Generic(P, Q, q) {
        var l := TwistSlope(P, Q, 5, q);
        TwistSlopeIs(P, Q, 5, q);
        PsiInjective(P, Q, s, w, b, b2, q);
        PsiSlope(P, Q, l, s, w, q);
        TwistSlopeUnique(SMul(Phi(l, s, q), w, -5, q), P', Q', -5, q);
        PsiThird(P, Q, l, s, w, q);
      }
    }
  }

  lemma OppositeImages(P: TwistPoint, Q: TwistPoint, s: int, w: Fq2, b: Fq2, b2: Fq2, q: int)
    requires IsBridge(s, w, b, b2, q) && OnTwist(P, b, U_SQUARE, q) && OnTwist(Q, b, U_SQUARE, q)
    requires P.Point? && Q.Point?
    ensures var P', Q' := Psi(P, s, w, q), Psi(Q, s, w, q);
            (P.x == Q.x && P.y == SSub(ZERO, Q.y, q)) <==> (P'.x == Q'.x && P'.y == SSub(ZERO, Q'.y, q))
  {
    hide SMul, Phi, SSub, SAdd, Cong, IsTower, W2, W3;
    WNonzero(s, w, b, b2, q);
    ScaledInjective(P.x, Q.x, W2(w, q), s, q);
    ScaledNeg(Q.y, W3(w, q), s, q);
    ScaledInjective(P.y, SSub(ZERO, Q.y, q), W3(w, q), s, q);
  }
}
