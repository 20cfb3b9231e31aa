/** Square roots in the tower with v^2 = -5 by the norm, and exactly which squares are missed. */
module TowerSquareRoot {
  import opened Congruence
  import opened PrimeField
  import opened FieldOps
  import opened SquareRoot
  import opened QuadraticExtension
  import opened TwistBridge
  import opened TonelliField
  import AffineCurve

  ghost predicate IsRoot2(R: Fq2, a: Fq2, q: Modulus) {
    Reduced2(R, q) && SMul(R, R, V_SQUARE, q) == a
  }

  ghost predicate HasRoot2(a: Fq2, q: Modulus) {
    exists R :: IsRoot2(R, a, q)
  }

  ghost predicate NonzeroSquare(n: int, q: Modulus) {
    !Cong(n, 0, q) && IsSquare(n, q)
  }

  // ----------------------------------------------------------- the power test

  lemma {:induction false} OddPartExists(n: nat) returns (odd: nat, e: nat)
    requires n > 0
    ensures n == odd * TwoPow(e) && odd % 2 == 1
  {
    hide TwoPow;
    if n % 2 == 1 {
      odd, e := n, 0;
      TwoPowZero();
    } else {
      odd, e := OddPartExists(n / 2);
      TwoPowStep(e);
      assert odd * (2 * TwoPow(e)) == 2 * (odd * TwoPow(e));
      e := e + 1;
    }
  }

  /** Euler: the power test accepts exactly the nonzero squares. */
  lemma LegendreIs(n: int, q: int)
    requires IsPrime(q) && q % 2 == 1
    ensures PowMod(n, (q - 1) / 2, q) == 1 <==> NonzeroSquare(n, q)
  {
    hide Pow, Cong, PowMod, TwoPow;
    PrimeOdd(q);
    PowModIs(n, (q - 1) / 2, 1, q);
    if PowMod(n, (q - 1) / 2, q) == 1 {
      UnitPower(n, q);
      var odd, e := OddPartExists(q - 1);
      HalfPowerRoot(n, odd, e, q);
    } else {
      NoRoot(n, q);
    }
  }

  // ------------------------------------------------------- what a root gives

  /** The coordinates of a square: a0 = x^2 - 5*y^2, a1 = 2*x*y. */
  lemma RootCoordinates(R: Fq2, a: Fq2, q: Modulus)
    requires IsRoot2(R, a, q)
    ensures Cong(a.c0, R.c0 * R.c0 - 5 * (R.c1 * R.c1), q) && Cong(a.c1, 2 * (R.c0 * R.c1), q)
  {
    hide Cong, SMul;
    Refl2(R, q);
    MulC2(R, R, R, R, -5, q);
    assert -5 * R.c1 * R.c1 == -5 * (R.c1 * R.c1);
    assert R.c0 * R.c1 + R.c1 * R.c0 == 2 * (R.c0 * R.c1);
  }

  /** The norm a0^2 + 5*a1^2 of a square is the square of x^2 + 5*y^2. */
  lemma NormOfSquare(R: Fq2, a: Fq2, q: Modulus)
    requires IsRoot2(R, a, q)
    ensures var t := R.c0 * R.c0 + 5 * (R.c1 * R.c1); Cong(a.c0 * a.c0 + 5 * (a.c1 * a.c1), t * t, q)
  {
    hide Cong, IsRoot2;
    RootCoordinates(R, a, q);
    var u, v, m := R.c0 * R.c0, R.c1 * R.c1, R.c0 * R.c1;
    CongMul(a.c0, u - 5 * v, a.c0, u - 5 * v, q);
    CongMul(a.c1, 2 * m, a.c1, 2 * m, q);
    CongRefl(5, q);
    CongMul(5, 5, a.c1 * a.c1, 2 * m * (2 * m), q);
    CongAdd(a.c0 * a.c0, (u - 5 * v) * (u - 5 * v), 5 * (a.c1 * a.c1), 5 * (2 * m * (2 * m)), q);
    assert m * m == u * v;
    NormIdentity(u, v, m);
  }

  lemma NormIdentity(u: int, v: int, m: int)
    requires m * m == u * v
    ensures (u - 5 * v) * (u - 5 * v) + 5 * (2 * m * (2 * m)) == (u + 5 * v) * (u + 5 * v)
  {
    assert 2 * m * (2 * m) == 4 * (m * m);
  }

  /** With x nonzero the norm root x^2 + 5*y^2 is nonzero: here -5 must be a non-residue. */
  lemma NormRootNonzero(R: Fq2, q: int)
    requires IsTower(V_SQUARE, q) && 0 < R.c0 < q
    ensures !Cong(R.c0 * R.c0 + 5 * (R.c1 * R.c1), 0, q)
  {
    hide Cong;
    assert -5 * R.c1 * R.c1 == -5 * (R.c1 * R.c1);
    if Cong(R.c0 * R.c0 + 5 * (R.c1 * R.c1), 0, q) {
      NormNonzero(R.c0, R.c1, -5, q);
      NonzeroResidue(R.c0, q);
    }
  }

  /** c / d when c = d * v. */
  lemma QuotientC(c: int, d: int, v: int, q: int)
    requires IsPrime(q) && !Cong(d, 0, q) && Cong(c, d * v, q)
    ensures Cong(c * Inv(d, q) % q, v, q)
  {
    hide Cong, IsPrime, Inv;
    InvCorrect(d, q);
    var i := Inv(d, q);
    CongRefl(i, q);
    CongRefl(v, q);
    CongMul(c, d * v, i, i, q);
    CongMul(d * i, 1, v, v, q);
    assert d * v * i == d * i * v;
    CongMod(c * i, q);
    CongTrans(c * i % q, c * i, d * i * v, q);
    CongTrans(c * i % q, d * i * v, v, q);
  }

  /** Halving: (a0 + t) / 2 is x^2 when a0 = x^2 - 5*y^2 and t = x^2 + 5*y^2. */
  lemma HalfTrace(R: Fq2, a: Fq2, rr: int, q: int)
    requires IsPrime(q) && q % 2 == 1 && IsRoot2(R, a, q)
    requires Cong(rr, R.c0 * R.c0 + 5 * (R.c1 * R.c1), q)
    ensures Cong((a.c0 + rr) * Inv(2, q) % q, R.c0 * R.c0, q)
  {
    hide Cong, IsRoot2, IsPrime, Inv;
    PrimeOdd(q);
    RootCoordinates(R, a, q);
    var u, v := R.c0 * R.c0, R.c1 * R.c1;
    CongAdd(a.c0, u - 5 * v, rr, u + 5 * v, q);
    TwoNonzero(q);
    QuotientC(a.c0 + rr, 2, u, q);
  }

  /** a1 / (2x) recovers y. */
  lemma RecoverY(R: Fq2, a: Fq2, q: int)
    requires IsPrime(q) && q % 2 == 1 && IsRoot2(R, a, q) && R.c0 != 0
    ensures a.c1 * Inv(2 * R.c0, q) % q == R.c1
  {
    hide Cong, IsRoot2, IsPrime, Inv;
    PrimeOdd(q);
    RootReduced(R, a, q);
    RootCoordinates(R, a, q);
    TwoNonzero(q);
    NonzeroResidue(R.c0, q);
    ProductNonzero(2, R.c0, q);
    assert 2 * (R.c0 * R.c1) == 2 * R.c0 * R.c1;
    QuotientC(a.c1, 2 * R.c0, R.c1, q);
    CongUnique(a.c1 * Inv(2 * R.c0, q) % q, R.c1, q);
  }

  lemma RootReduced(R: Fq2, a: Fq2, q: Modulus)
    requires IsRoot2(R, a, q)
    ensures Reduced2(R, q) && Reduced2(a, q)
  {
  }

  /** The two reduced numbers with a given square. */
  lemma PlusMinus(r: int, t: int, n: int, q: int)
    requires IsPrime(q) && SquareOf(r, n, q) && Cong(t * t, n, q)
    ensures Cong(r, t, q) || Cong((q - r) % q, t, q)
  {
    hide Cong;
    ModToCong(r * r, n, q);
    CongSym(t * t, n, q);
    CongTrans(r * r, n, t * t, q);
    AffineCurve.SquareCong(r, t, q);
    CongIntro(q - r, -r, 1, q);
    CongMod(q - r, q);
    CongTrans((q - r) % q, q - r, -r, q);
    if Cong(r, -t, q) {
      CongRefl(0, q);
      CongSub(0, 0, r, -t, q);
      CongTrans((q - r) % q, -r, t, q);
    }
  }

  // ---------------------------------------------------------------- the loops

  /** r is a root of a with nonzero first coordinate. */
  ghost predicate Found(r: Option<Fq2>, a: Fq2, q: Modulus) {
    r.Some? ==> IsRoot2(r.value, a, q) && r.value.c0 != 0
  }

  /** Innermost loop: both signs of x, in whatever order the set yields them. */
  method TrySigns(a: Fq2, x: int, q: int) returns (r: Option<Fq2>)
    requires IsPrime(q) && q % 2 == 1 && 0 <= x < q
    ensures Found(r, a, q)
    ensures forall R :: IsRoot2(R, a, q) && R.c0 != 0 && (R.c0 == x || R.c0 == (q - x) % q) ==> r.Some?
  {
    hide Cong, IsPrime;
    var todo := {x, (q - x) % q};
    while todo != {}
      invariant todo <= {x, (q - x) % q}
      invariant forall R :: IsRoot2(R, a, q) && R.c0 != 0 && (R.c0 == x || R.c0 == (q - x) % q) ==> R.c0 in todo
      decreases |todo|
    {
      var xs :| xs in todo;
      todo := todo - {xs};
      if xs == 0 { continue; }
      var y := a.c1 * Inv(2 * xs, q) % q;
      forall R | IsRoot2(R, a, q) && R.c0 == xs ensures R == Fq2(xs, y) {
        RecoverY(R, a, q);
      }
      if SMul(Fq2(xs, y), Fq2(xs, y), V_SQUARE, q) == a { return Some(Fq2(xs, y)); }
    }
    r := None;
  }

  /** Middle loop body: the half trace for one sign of the norm root. */
  method TryTrace(a: Fq2, rr: int, q: int) returns (r: Option<Fq2>)
    requires IsPrime(q) && q % 2 == 1
    ensures Found(r, a, q)
    ensures forall R :: IsRoot2(R, a, q) && R.c0 != 0 && Cong(rr, R.c0 * R.c0 + 5 * (R.c1 * R.c1), q) ==> r.Some?
  {
    hide Cong, IsRoot2, Pow, PowMod;
    var x2 := (a.c0 + rr) * Inv(2, q) % q;
    forall R | IsRoot2(R, a, q) && R.c0 != 0 && Cong(rr, R.c0 * R.c0 + 5 * (R.c1 * R.c1), q)
      ensures Cong(R.c0 * R.c0, x2, q) && NonzeroSquare(x2, q) && x2 != 0
    {
      HalfTrace(R, a, rr, q);
      TraceIsSquare(R, a, x2, q);
    }
    LegendreIs(x2, q);
    if x2 == 0 || PowMod(x2, (q - 1) / 2, q) != 1 { return None; }
    var root := FqSqrt(x2, q);
    var x := root.value;
    forall R | IsRoot2(R, a, q) && R.c0 != 0 && Cong(rr, R.c0 * R.c0 + 5 * (R.c1 * R.c1), q)
      ensures R.c0 == x || R.c0 == (q - x) % q
    {
      RootReduced(R, a, q);
      PlusMinus(x, R.c0, x2, q);
      EqualC(x, R.c0, q);
      EqualC((q - x) % q, R.c0, q);
    }
    r := TrySigns(a, x, q);
  }

  lemma TraceIsSquare(R: Fq2, a: Fq2, x2: int, q: int)
    requires IsPrime(q) && IsRoot2(R, a, q) && R.c0 != 0 && Cong(x2, R.c0 * R.c0, q)
    ensures Cong(R.c0 * R.c0, x2, q) && NonzeroSquare(x2, q) && x2 != 0
  {
    hide Cong, IsSquare, IsPrime;
    RootReduced(R, a, q);
    NonzeroResidue(R.c0, q);
    SquareIsSquare(R.c0, x2, q);
    CongRefl(0, q);
  }

  /** Outer loop body: one norm family, both signs of its root in increasing order. */
  method TryNorm(a: Fq2, ns: int, q: int) returns (r: Option<Fq2>)
    requires IsTower(V_SQUARE, q)
    ensures Found(r, a, q)
    ensures ns == 5 ==> forall R :: IsRoot2(R, a, q) && R.c0 != 0 ==> r.Some?
  {
    hide Cong, IsRoot2, Pow, PowMod;
    var na := (a.c0 * a.c0 + ns * a.c1 * a.c1) % q;
    if ns == 5 {
      forall R | IsRoot2(R, a, q) && R.c0 != 0
        ensures var t := R.c0 * R.c0 + 5 * (R.c1 * R.c1); Cong(t * t, na, q) && NonzeroSquare(na, q)
      {
        NormResidue(a.c0, a.c1, q);
        NormIsSquare(R, a, na, q);
      }
    }
    LegendreIs(na, q);
    if PowMod(na, (q - 1) / 2, q) != 1 { return None; }
    var root := FqSqrt(na, q);
    var n := root.value;
    var signs := Sorted(n, (q - n) % q);
    if ns == 5 {
      forall R | IsRoot2(R, a, q) && R.c0 != 0
        ensures exists k :: 0 <= k < |signs| && Cong(signs[k], R.c0 * R.c0 + 5 * (R.c1 * R.c1), q)
      {
        var t := R.c0 * R.c0 + 5 * (R.c1 * R.c1);
        PlusMinus(n, t, na, q);
        assert n in signs && (q - n) % q in signs;
      }
    }
    var i := 0;
    while i < |signs|
      invariant 0 <= i <= |signs|
      invariant ns == 5 ==> forall R :: IsRoot2(R, a, q) && R.c0 != 0 ==>
        exists k :: i <= k < |signs| && Cong(signs[k], R.c0 * R.c0 + 5 * (R.c1 * R.c1), q)
    {
      r := TryTrace(a, signs[i], q);
      if r.Some? { return; }
      i := i + 1;
    }
    r := None;
  }

  /** The sorted list of the set {u, v}. */
  function Sorted(u: int, v: int): (s: seq<int>)
    ensures u in s && v in s && (|s| == 2 ==> s[0] < s[1]) && forall k :: 0 <= k < |s| ==> s[k] == u || s[k] == v
  {
    if u < v then [u, v] else if v < u then [v, u] else [u]
  }

  lemma NormResidue(c0: int, c1: int, q: Modulus)
    ensures Cong((c0 * c0 + 5 * c1 * c1) % q, c0 * c0 + 5 * (c1 * c1), q)
  {
    hide Cong;
    var n := c0 * c0 + 5 * (c1 * c1);
    assert 5 * c1 * c1 == 5 * (c1 * c1);
    CongMod(n, q);
  }

  lemma NormIsSquare(R: Fq2, a: Fq2, na: int, q: int)
    requires IsTower(V_SQUARE, q) && IsRoot2(R, a, q) && R.c0 != 0
    requires Cong(na, a.c0 * a.c0 + 5 * (a.c1 * a.c1), q)
    ensures var t := R.c0 * R.c0 + 5 * (R.c1 * R.c1); Cong(t * t, na, q) && NonzeroSquare(na, q)
  {
    hide Cong, IsRoot2, IsSquare;
    var t := R.c0 * R.c0 + 5 * (R.c1 * R.c1);
    RootReduced(R, a, q);
    NormRootNonzero(R, q);
    NormOfSquare(R, a, q);
    CongTrans(na, a.c0 * a.c0 + 5 * (a.c1 * a.c1), t * t, q);
    SquareIsSquare(t, na, q);
  }

  lemma SquareIsSquare(t: int, n: int, q: int)
    requires IsPrime(q) && !Cong(t, 0, q) && Cong(n, t * t, q)
    ensures Cong(t * t, n, q) && NonzeroSquare(n, q)
  {
    hide Cong, IsSquare;
    ProductNonzero(t, t, q);
    CongSym(n, t * t, q);
    if Cong(n, 0, q) { CongTrans(t * t, n, 0, q); }
    CongMod(t, q);
    CongMul(t % q, t, t % q, t, q);
    CongTrans(t % q * (t % q), t * t, n, q);
    RootFound(t % q, n, q);
  }

  /** A root is found whenever there is one with x nonzero. The squares that are missed are exactly
      those with second coordinate zero whose first coordinate is not a nonzero square: zero itself
      and the -5*y^2. */
  method F2Sqrt(a: Fq2, q: int) returns (r: Option<Fq2>)
    requires IsTower(V_SQUARE, q)
    ensures r.Some? ==> IsRoot2(r.value, a, q) && r.value.c0 != 0
    ensures r == None <==> !HasRoot2(a, q) || (a.c1 == 0 && !NonzeroSquare(a.c0, q))
  {
    hide Cong, IsRoot2, IsSquare, NonzeroSquare;
    SlantedRoots(a, q);
    var families := [-5, 5];
    r := None;
    for i := 0 to 2
      invariant r == None
      invariant i == 2 ==> !(exists R :: IsRoot2(R, a, q) && R.c0 != 0)
    {
      r := TryNorm(a, families[i], q);
      if r.Some? { return; }
    }
  }

  /** Two squares that are missed: 0 = 0^2 and -5 = (0, 1)^2. */
  method F2SqrtMisses(q: int) returns (r: Option<Fq2>, s: Option<Fq2>)
    requires IsTower(V_SQUARE, q)
    ensures HasRoot2(Fq2(0, 0), q) && r == None
    ensures HasRoot2(Fq2(-5 % q, 0), q) && s == None
  {
    hide IsPrime, Cong, IsSquare;
    PrimeOdd(q);
    UprightSquare(0, q);
    UprightSquare(1, q);
    r := F2Sqrt(Fq2(0, 0), q);
    s := F2Sqrt(Fq2(-5 % q, 0), q);
  }

  /** (0, y)^2 = (-5*y^2, 0), whose first coordinate is not a nonzero square. */
  lemma UprightSquare(y: int, q: int)
    requires IsTower(V_SQUARE, q) && 0 <= y < q
    ensures IsRoot2(Fq2(0, y), Fq2(-5 * y * y % q, 0), q) && HasRoot2(Fq2(-5 * y * y % q, 0), q)
    ensures !NonzeroSquare(-5 * y * y % q, q)
  {
    hide Cong, IsSquare;
    var n := -5 * y * y;
    assert n == 0 * 0 - 5 * (y * y);
    CongMod(n, q);
    UprightRoot(y, n % q, q);
    SmallMod(0, q);
    assert IsRoot2(Fq2(0, y), Fq2(n % q, 0), q);
  }

  /** Which squares have a root with x nonzero. */
  lemma SlantedRoots(a: Fq2, q: int)
    requires IsTower(V_SQUARE, q)
    ensures (exists R :: IsRoot2(R, a, q) && R.c0 != 0) <==>
            HasRoot2(a, q) && !(a.c1 == 0 && !NonzeroSquare(a.c0, q))
  {
    hide Cong, IsRoot2, IsSquare, NonzeroSquare;
    forall R | IsRoot2(R, a, q) ensures R.c0 == 0 <==> (a.c1 == 0 && !NonzeroSquare(a.c0, q)) {
      Slanted(R, a, q);
    }
  }

  lemma Slanted(R: Fq2, a: Fq2, q: int)
    requires IsTower(V_SQUARE, q) && IsRoot2(R, a, q)
    ensures R.c0 == 0 <==> (a.c1 == 0 && !NonzeroSquare(a.c0, q))
  {
    hide Cong, IsRoot2, IsSquare;
    PrimeOdd(q);
    RootCoordinates(R, a, q);
    RootReduced(R, a, q);
    var v := R.c1 * R.c1;
    if R.c0 == 0 {
      assert R.c0 * R.c1 == 0;
      ZeroC(a.c1, q);
      UprightRoot(R.c1, a.c0, q);
    } else if a.c1 == 0 {
      CongSym(a.c1, 2 * (R.c0 * R.c1), q);
      TwoNonzero(q);
      NonzeroResidue(R.c0, q);
      ProductNonzero(2, R.c0, q);
      assert 2 * (R.c0 * R.c1) == 2 * R.c0 * R.c1;
      NoZeroDivisors(2 * R.c0, R.c1, q);
      ZeroC(R.c1, q);
      assert v == 0;
      CongSym(a.c0, R.c0 * R.c0, q);
      RootFound(R.c0, a.c0, q);
      ProductNonzero(R.c0, R.c0, q);
      if Cong(a.c0, 0, q) { CongTrans(R.c0 * R.c0, a.c0, 0, q); }
    }
  }

  /** -5*y^2 is never a nonzero square. */
  lemma UprightRoot(y: int, n: int, q: int)
    requires IsTower(V_SQUARE, q) && Cong(n, 0 * 0 - 5 * (y * y), q)
    ensures !NonzeroSquare(n, q)
  {
    hide Cong;
    if NonzeroSquare(n, q) {
      var x :| SquareOf(x, n, q);
      ModToCong(x * x, n, q);
      CongTrans(x * x, n, -5 * (y * y), q);
      CongZeroSub(x * x, -5 * (y * y), q);
      assert -5 * y * y == -5 * (y * y);
      NormNonzero(x, y, -5, q);
      CongMul(x, 0, x, 0, q);
      CongSym(x * x, n, q);
      CongTrans(n, x * x, 0, q);
    }
  }
}
