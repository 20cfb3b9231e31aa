/** Repeated squaring in the tower, scalar multiplication on the twist, and the sixth root of the
    twist ratio. */
module TwistLadder {
  import opened Congruence
  import opened QuadraticExtension
  import opened TwistBridge
  import opened TwistClosure
  import opened Ladder

  // --------------------------------------------------------------- powers

  ghost function Multiplier(beta: int, q: Modulus): (Fq2, Fq2) -> Fq2 {
    (a, b) => SMul(a, b, beta, q)
  }

  ghost function Elements(q: Modulus): Fq2 -> bool {
    a => Reduced2(a, q)
  }

  /** a^e in the tower. */
  ghost function Power2(a: Fq2, e: nat, beta: int, q: Modulus): Fq2 {
    Times(Multiplier(beta, q), ONE, a, e)
  }

  /** Multiplication in the tower is a law with unit one; no hypothesis is needed. */
  lemma TowerLaw(beta: int, q: Modulus)
    requires q > 1
    ensures Law(Multiplier(beta, q), ONE, Elements(q))
  {
    hide SMul;
    var mul, on := Multiplier(beta, q), Elements(q);
    forall a | on(a) ensures mul(ONE, a) == a && mul(a, ONE) == a {
      SMulOne(a, beta, q);
      SMulCommutes(a, ONE, beta, q);
    }
    forall a, b, c | on(a) && on(b) && on(c) ensures AssociatesAt(mul, a, b, c) {
      SMulAssociates(a, b, c, beta, q);
    }
  }

  /** The square-and-multiply loop, least significant bit first. */
  method SPow(a: Fq2, e: nat, beta: int, q: Modulus) returns (R: Fq2)
    requires q > 1 && Reduced2(a, q)
    ensures R == Power2(a, e, beta, q)
  {
    hide SMul, Times, Law;
    ghost var mul, on := Multiplier(beta, q), Elements(q);
    TowerLaw(beta, q);
    TimesOn(mul, ONE, on, a, e);
    UnitOf(mul, ONE, on, Times(mul, ONE, a, e));
    R := ONE;
    var A, k := a, e;
    while k != 0
      invariant Reduced2(R, q) && Reduced2(A, q)
      invariant mul(R, Times(mul, ONE, A, k)) == Times(mul, ONE, a, e)
      decreases k
    {
      HalveAndAdd(mul, ONE, on, R, A, k);
      if k % 2 == 1 { R := SMul(R, A, beta, q); }
      A := SMul(A, A, beta, q);
      k := k / 2;
    }
    TimesNone(mul, ONE, A);
    UnitOf(mul, ONE, on, R);
  }

  /** c^e is a cube root of c when c^m = 1 and 3e = 1 modulo m. */
  lemma CubeRootByInverse(c: Fq2, e: nat, m: nat, k: nat, beta: int, q: Modulus)
    requires q > 1 && Reduced2(c, q) && Power2(c, m, beta, q) == ONE && e * 3 == m * k + 1
    ensures var w := Power2(c, e, beta, q);
            Reduced2(w, q) && SMul(SMul(w, w, beta, q), w, beta, q) == c
  {
    hide SMul, Times, Law;
    var mul, on := Multiplier(beta, q), Elements(q);
    TowerLaw(beta, q);
    var w := Power2(c, e, beta, q);
    TimesOn(mul, ONE, on, c, e);
    TimesTimes(mul, ONE, on, c, e, 3);
    TimesTimes(mul, ONE, on, c, m, k);
    UnitTimes(mul, ONE, on, k);
    TimesAdd(mul, ONE, on, c, m * k, 1);
    TimesOnce(mul, ONE, on, c);
    UnitOf(mul, ONE, on, c);
    Cube(mul, ONE, on, w);
  }

  /** The scaling element as the source derives it: the cube root, by a power, of a square root of
      the twist ratio. */
  lemma BridgeFromRoots(s: int, c: Fq2, e: nat, m: nat, k: nat, rho: Fq2, b: Fq2, b2: Fq2, q: int)
    requires IsTower(V_SQUARE, q) && Cong(s * s, -1, q)
    requires Reduced2(b, q) && Reduced2(b2, q) && b2 != ZERO && SMul(rho, Phi(b, s, q), V_SQUARE, q) == b2
    requires Reduced2(c, q) && SMul(c, c, V_SQUARE, q) == rho
    requires Power2(c, m, V_SQUARE, q) == ONE && e * 3 == m * k + 1
    ensures IsBridge(s, Power2(c, e, V_SQUARE, q), b, b2, q)
  {
    hide SMul, Phi, Power2, Cong;
    CubeRootByInverse(c, e, m, k, V_SQUARE, q);
  }

  // ---------------------------------------------------- scalar multiplication

  ghost function TwistAdder(beta: int, q: Modulus): (TwistPoint, TwistPoint) -> TwistPoint {
    (P, Q) => EAdd(P, Q, beta, q)
  }

  ghost function TwistPoints(b: Fq2, beta: int, q: Modulus): TwistPoint -> bool {
    P => OnTwist(P, b, beta, q)
  }

  ghost function TwistMultiple(P: TwistPoint, k: nat, beta: int, q: Modulus): TwistPoint {
    Times(TwistAdder(beta, q), Infinity, P, k)
  }

  lemma TwistUnit(b: Fq2, beta: int, q: Modulus)
    ensures OnTwist(Infinity, b, beta, q)
  {
  }

  /** Given associativity, e_add on the curve is a law with unit infinity. */
  lemma TwistLaw(b: Fq2, beta: int, q: int)
    requires IsTower(beta, q) && Associative(TwistAdder(beta, q), TwistPoints(b, beta, q))
    ensures Law(TwistAdder(beta, q), Infinity, TwistPoints(b, beta, q))
  {
    hide SMul, EAdd, OnTwist, Associative;
    var add, on := TwistAdder(beta, q), TwistPoints(b, beta, q);
    TwistUnit(b, beta, q);
    forall P | on(P) ensures add(Infinity, P) == P && add(P, Infinity) == P {
      InfinityUnit2(P, beta, q);
    }
    forall P, Q | on(P) && on(Q) ensures on(add(P, Q)) {
      EAddOnTwist(P, Q, b, beta, q);
    }
  }

  lemma InfinityUnit2(P: TwistPoint, beta: int, q: Modulus)
    ensures EAdd(Infinity, P, beta, q) == P && EAdd(P, Infinity, beta, q) == P
  {
  }

  lemma {:induction false} MultipleOnTwist(P: TwistPoint, k: nat, b: Fq2, beta: int, q: int)
    requires IsTower(beta, q) && OnTwist(P, b, beta, q)
    ensures OnTwist(TwistMultiple(P, k, beta, q), b, beta, q)
  {
    hide EAdd, OnTwist;
    if k == 0 {
      TwistUnit(b, beta, q);
    } else {
      MultipleOnTwist(P, k - 1, b, beta, q);
      EAddOnTwist(TwistMultiple(P, k - 1, beta, q), P, b, beta, q);
    }
  }

  /** psi carries k-fold sums to k-fold sums, so the order of a point and of its image agree. */
  lemma {:induction false} PsiMultiple(P: TwistPoint, k: nat, s: int, w: Fq2, b: Fq2, b2: Fq2, q: int)
    requires IsBridge(s, w, b, b2, q) && OnTwist(P, b, U_SQUARE, q)
    ensures Psi(TwistMultiple(P, k, U_SQUARE, q), s, w, q) == TwistMultiple(Psi(P, s, w, q), k, V_SQUARE, q)
    ensures TwistMultiple(P, k, U_SQUARE, q) == Infinity <==>
            TwistMultiple(Psi(P, s, w, q), k, V_SQUARE, q) == Infinity
  {
    hide EAdd, IsTower, OnTwist, SMul, Cong;
    if k > 0 {
      PsiMultiple(P, k - 1, s, w, b, b2, q);
      BothTowers(s, q);
      MultipleOnTwist(P, k - 1, b, U_SQUARE, q);
      PsiAdds(TwistMultiple(P, k - 1, U_SQUARE, q), P, s, w, b, b2, q);
    }
  }

  /** The least-significant-bit-first ladder computes the k-fold sum. */
  method EMul(k: nat, P: TwistPoint, beta: int, q: int, ghost b: Fq2) returns (R: TwistPoint)
    requires IsTower(beta, q) && OnTwist(P, b, beta, q)
    requires Associative(TwistAdder(beta, q), TwistPoints(b, beta, q))
    ensures R == TwistMultiple(P, k, beta, q)
  {
    hide EAdd, Times, Law, OnTwist, Associative;
    ghost var add, on := TwistAdder(beta, q), TwistPoints(b, beta, q);
    TwistLaw(b, beta, q);
    TimesOn(add, Infinity, on, P, k);
    UnitOf(add, Infinity, on, Times(add, Infinity, P, k));
    R := Infinity;
    TwistUnit(b, beta, q);
    var A, n := P, k;
    while n != 0
      invariant on(R) && on(A)
      invariant add(R, Times(add, Infinity, A, n)) == Times(add, Infinity, P, k)
      decreases n
    {
      HalveAndAdd(add, Infinity, on, R, A, n);
      EAddOnTwist(R, A, b, beta, q);
      EAddOnTwist(A, A, b, beta, q);
      if n % 2 == 1 { R := EAdd(R, A, beta, q); }
      A := EAdd(A, A, beta, q);
      n := n / 2;
    }
    TimesNone(add, Infinity, A);
    UnitOf(add, Infinity, on, R);
  }
}
