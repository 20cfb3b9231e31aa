/** Tonelli-Shanks square roots modulo an odd prime, on integers: the loop invariant, one round of it
    and the routine of the bridge script. */
module SquareRoot {
  import opened Congruence
  import opened PrimeField

  datatype Option<+T> = None | Some(value: T)

  ghost predicate SquareOf(x: int, n: int, p: Modulus) {
    0 <= x < p && x * x % p == n % p
  }

  ghost predicate IsSquare(n: int, p: Modulus) {
    exists x :: SquareOf(x, n, p)
  }

  function TwoPow(k: nat): (r: nat)
    ensures r > 0
  {
    PowPositive(2, k);
    Pow(2, k)
  }

  /** p - 1 = odd * 2^e. */
  ghost predicate OddPart(p: int, odd: nat, e: nat) {
    p - 1 == odd * TwoPow(e) && odd % 2 == 1
  }

  /** What the loop keeps: R^2 = t*a, c has order 2^M exactly, t has order dividing 2^(M-1). */
  ghost predicate TonelliState(a: int, R: int, t: int, c: int, M: nat, p: Modulus) {
    && M >= 1
    && Cong(R * R, t * a, p)
    && Cong(Pow(c, TwoPow(M - 1)), -1, p)
    && Cong(Pow(t, TwoPow(M - 1)), 1, p)
  }

  // --------------------------------------------------------------- residues

  lemma TwoPowStep(k: nat)
    ensures TwoPow(k + 1) == 2 * TwoPow(k)
  {
  }

  lemma TwoPowAdd(i: nat, j: nat)
    ensures TwoPow(i) * TwoPow(j) == TwoPow(i + j)
  {
    PowAdd(2, i, j);
  }

  /** Squaring moves from exponent 2^k to 2^(k+1). */
  lemma PowTwoStep(b: int, k: nat)
    ensures Pow(b, TwoPow(k + 1)) == Pow(b, TwoPow(k)) * Pow(b, TwoPow(k))
  {
    hide Pow;
    TwoPowStep(k);
    PowSquare(b, TwoPow(k));
  }

  /** A nonzero square has (p-1)/2-th power 1. */
  lemma SquareHalfPower(x: int, n: int, p: int)
    requires IsPrime(p) && p % 2 == 1 && SquareOf(x, n, p) && !Cong(n, 0, p)
    ensures Cong(Pow(n, (p - 1) / 2), 1, p)
  {
    hide Pow, Cong;
    ModToCong(x * x, n, p);
    PowerOfSquare(x, n, (p - 1) / 2, p);
  }

  lemma PowerOfSquare(x: int, n: int, h: nat, p: int)
    requires IsPrime(p) && h + h == p - 1 && Cong(x * x, n, p) && !Cong(n, 0, p)
    ensures Cong(Pow(n, h), 1, p)
  {
    hide Pow, Cong, IsPrime;
    if Cong(x, 0, p) {
      CongMul(x, 0, x, 0, p);
      CongSym(x * x, n, p);
      CongTrans(n, x * x, 0, p);
    }
    Fermat(x, p);
    CongPow(x * x, n, h, p);
    PowProduct(x, x, h);
    PowAdd(x, h, h);
    CongSym(Pow(x * x, h), Pow(n, h), p);
    CongTrans(Pow(n, h), Pow(x * x, h), 1, p);
  }

  /** 1 and -1 differ modulo an odd prime. */
  lemma OneIsNotMinusOne(v: int, p: int)
    requires p > 2 && Cong(v, 1, p)
    ensures !Cong(v, -1, p)
  {
    hide Cong;
    if Cong(v, -1, p) {
      CongSym(v, 1, p);
      CongTrans(1, v, -1, p);
      CongRefl(1, p);
      CongAdd(1, -1, 1, 1, p);
      CongUnique(2, 0, p);
    }
  }

  // -------------------------------------------------------------- the loop

  /** The starting values meet the invariant when a^((p-1)/2) = 1 and z^((p-1)/2) = -1. */
  lemma TonelliStart(a: int, z: int, odd: nat, e: nat, p: int)
    requires p > 2 && p % 2 == 1 && OddPart(p, odd, e)
    requires Cong(Pow(a, (p - 1) / 2), 1, p) && Cong(Pow(z, (p - 1) / 2), -1, p)
    ensures e >= 1
    ensures TonelliState(a, Pow(a, (odd + 1) / 2), Pow(a, odd), Pow(z, odd), e, p)
  {
    hide Pow, Cong;
    TopPower(a, odd, e, p);
    TopPower(z, odd, e, p);
    var k := (odd + 1) / 2;
    PowAdd(a, k, k);
    PowAdd(a, odd, 1);
    PowFirst(a);
    CongRefl(Pow(a, odd) * a, p);
  }

  lemma PowFirst(a: int)
    ensures Pow(a, 1) == a
  {
    assert Pow(a, 0) == 1;
  }

  /** p odd makes e positive, and raising the odd-part power to 2^(e-1) gives the half power. */
  lemma TopPower(a: int, odd: nat, e: nat, p: int)
    requires p > 2 && p % 2 == 1 && OddPart(p, odd, e)
    ensures e >= 1 && Pow(Pow(a, odd), TwoPow(e - 1)) == Pow(a, (p - 1) / 2)
  {
    hide Pow, TwoPow;
    TwoPowZero();
    TwoPowStep(e - 1);
    assert p - 1 == 2 * (odd * TwoPow(e - 1));
    PowMul(a, odd, TwoPow(e - 1));
  }

  lemma TwoPowZero()
    ensures TwoPow(0) == 1
  {
  }

  /** One round: with i the exact two-power order of t, the state moves from M to i. */
  lemma TonelliRound(a: int, R: int, t: int, c: int, M: nat, i: nat, b: int, R': int, t': int, c': int, p: int)
    requires IsPrime(p) && TonelliState(a, R, t, c, M, p) && 1 <= i < M
    requires Cong(Pow(t, TwoPow(i)), 1, p) && !Cong(Pow(t, TwoPow(i - 1)), 1, p)
    requires Cong(b, Pow(c, TwoPow(M - i - 1)), p)
    requires Cong(c', b * b, p) && Cong(t', t * c', p) && Cong(R', R * b, p)
    ensures TonelliState(a, R', t', c', i, p)
  {
    hide Pow, Cong, TwoPow;
    RoundC(c, M, i, b, c', p);
    RoundT(t, i, t', c', p);
    RoundR(a, R, t, b, R', t', c', p);
  }

  lemma RoundC(c: int, M: nat, i: nat, b: int, c': int, p: Modulus)
    requires 1 <= i < M && Cong(Pow(c, TwoPow(M - 1)), -1, p)
    requires Cong(b, Pow(c, TwoPow(M - i - 1)), p) && Cong(c', b * b, p)
    ensures Cong(Pow(c', TwoPow(i - 1)), -1, p)
  {
    hide Pow, Cong, TwoPow;
    var k := TwoPow(i - 1);
    CongPow(c', b * b, k, p);
    PowProduct(b, b, k);
    PowTwoStep(b, i - 1);
    CongPow(b, Pow(c, TwoPow(M - i - 1)), TwoPow(i), p);
    PowMul(c, TwoPow(M - i - 1), TwoPow(i));
    TwoPowAdd(M - i - 1, i);
    CongTrans(Pow(c', k), Pow(b, TwoPow(i)), Pow(c, TwoPow(M - 1)), p);
    CongTrans(Pow(c', k), Pow(c, TwoPow(M - 1)), -1, p);
  }

  lemma RoundT(t: int, i: nat, t': int, c': int, p: int)
    requires IsPrime(p) && 1 <= i
    requires Cong(Pow(t, TwoPow(i)), 1, p) && !Cong(Pow(t, TwoPow(i - 1)), 1, p)
    requires Cong(t', t * c', p) && Cong(Pow(c', TwoPow(i - 1)), -1, p)
    ensures Cong(Pow(t', TwoPow(i - 1)), 1, p)
  {
    hide Pow, Cong, TwoPow;
    var k := TwoPow(i - 1);
    PowTwoStep(t, i - 1);
    SquareRootsOfOne(Pow(t, k), p);
    CongPow(t', t * c', k, p);
    PowProduct(t, c', k);
    CongMul(Pow(t, k), -1, Pow(c', k), -1, p);
    CongTrans(Pow(t', k), Pow(t, k) * Pow(c', k), 1, p);
  }

  lemma RoundR(a: int, R: int, t: int, b: int, R': int, t': int, c': int, p: Modulus)
    requires Cong(R * R, t * a, p)
    requires Cong(c', b * b, p) && Cong(t', t * c', p) && Cong(R', R * b, p)
    ensures Cong(R' * R', t' * a, p)
  {
    hide Cong;
    CongMul(R', R * b, R', R * b, p);
    CongRefl(b * b, p);
    CongMul(R * R, t * a, b * b, b * b, p);
    assert (R * b) * (R * b) == (R * R) * (b * b);
    CongTrans(R' * R', (R * R) * (b * b), (t * a) * (b * b), p);
    CongRefl(t, p);
    CongMul(t, t, c', b * b, p);
    CongTrans(t', t * c', t * (b * b), p);
    CongRefl(a, p);
    CongMul(t', t * (b * b), a, a, p);
    assert t * (b * b) * a == (t * a) * (b * b);
    CongSym(t' * a, (t * a) * (b * b), p);
    CongTrans(R' * R', (t * a) * (b * b), t' * a, p);
  }

  /** At t = 1 the invariant says that R is a root. */
  lemma TonelliDone(a: int, R: int, t: int, c: int, M: nat, p: Modulus)
    requires TonelliState(a, R, t, c, M, p) && Cong(t, 1, p)
    ensures Cong(R * R, a, p)
  {
    hide Cong, Pow, TwoPow;
    CongRefl(a, p);
    CongMul(t, 1, a, a, p);
    CongTrans(R * R, t * a, a, p);
  }

  /** A power of two at which t is 1 stays 1 further up. */
  lemma {:induction false} OrderUp(t: int, i: nat, j: nat, p: Modulus)
    requires i <= j && Cong(Pow(t, TwoPow(i)), 1, p)
    ensures Cong(Pow(t, TwoPow(j)), 1, p)
    decreases j
  {
    hide Cong, Pow, TwoPow;
    if i < j {
      OrderUp(t, i, j - 1, p);
      PowTwoStep(t, j - 1);
      CongMul(Pow(t, TwoPow(j - 1)), 1, Pow(t, TwoPow(j - 1)), 1, p);
    }
  }

  lemma PowModIs(b: int, e: nat, v: int, m: Modulus)
    requires 0 <= v < m
    ensures PowMod(b, e, m) == v <==> Cong(Pow(b, e), v, m)
  {
    hide Cong, Pow;
    if Cong(Pow(b, e), v, m) {
      CongSym(Pow(b, e), v, m);
      CongResidue(v, Pow(b, e), m);
    }
    CongMod(Pow(b, e), m);
  }

  /** The least i with t^(2^i) = 1, found by repeated squaring. */
  method TwoOrder(t: int, p: int, ghost M: nat) returns (i: nat)
    requires p > 2 && 0 <= t < p && t != 1
    requires M >= 1 && Cong(Pow(t, TwoPow(M - 1)), 1, p)
    ensures 1 <= i < M
    ensures Cong(Pow(t, TwoPow(i)), 1, p) && !Cong(Pow(t, TwoPow(i - 1)), 1, p)
  {
    hide Cong, Pow, TwoPow;
    i := 0;
    var t2 := t;
    FirstPower(t, p);
    while t2 != 1
      invariant i < M && 0 <= t2 < p && Cong(t2, Pow(t, TwoPow(i)), p)
      invariant i > 0 ==> !Cong(Pow(t, TwoPow(i - 1)), 1, p)
      invariant i == 0 ==> t2 == t
      decreases M - i
    {
      NotOneYet(t, t2, i, p);
      if i == M - 1 { assert false; }
      SquareUp(t, t2, i, p);
      t2 := t2 * t2 % p;
      i := i + 1;
    }
    CongSym(1, Pow(t, TwoPow(i)), p);
  }

  lemma FirstPower(t: int, p: Modulus)
    ensures Cong(t, Pow(t, TwoPow(0)), p)
  {
    assert TwoPow(0) == 1;
    PowFirst(t);
    CongRefl(t, p);
  }

  lemma NotOneYet(t: int, t2: int, i: nat, p: int)
    requires p > 2 && 0 <= t2 < p && t2 != 1 && Cong(t2, Pow(t, TwoPow(i)), p)
    ensures !Cong(Pow(t, TwoPow(i)), 1, p)
  {
    hide Cong, Pow, TwoPow;
    if Cong(Pow(t, TwoPow(i)), 1, p) {
      CongTrans(t2, Pow(t, TwoPow(i)), 1, p);
      CongUnique(t2, 1, p);
    }
  }

  lemma SquareUp(t: int, t2: int, i: nat, p: Modulus)
    requires Cong(t2, Pow(t, TwoPow(i)), p)
    ensures Cong(t2 * t2 % p, Pow(t, TwoPow(i + 1)), p)
  {
    hide Cong, Pow, TwoPow;
    CongMul(t2, Pow(t, TwoPow(i)), t2, Pow(t, TwoPow(i)), p);
    PowTwoStep(t, i);
    CongMod(t2 * t2, p);
    CongTrans(t2 * t2 % p, t2 * t2, Pow(t, TwoPow(i + 1)), p);
  }

  // ---------------------------------------------------------------- fq_sqrt

  lemma ThreeModFour(n: int, p: int)
    requires p % 4 == 3 && p > 2 && Cong(Pow(n, (p - 1) / 2), 1, p)
    ensures Cong(PowMod(n, (p + 1) / 4, p) * PowMod(n, (p + 1) / 4, p), n, p)
  {
    hide Cong, Pow, PowMod;
    var k, h := (p + 1) / 4, (p - 1) / 2;
    HalfPlusOne(n, k, h, p);
  }

  lemma HalfPlusOne(n: int, k: nat, h: nat, p: Modulus)
    requires k + k == h + 1 && Cong(Pow(n, h), 1, p)
    ensures Cong(PowMod(n, k, p) * PowMod(n, k, p), n, p)
  {
    hide Cong, Pow, PowMod;
    PowModCong(n, k, p);
    CongMul(PowMod(n, k, p), Pow(n, k), PowMod(n, k, p), Pow(n, k), p);
    PowAdd(n, k, k);
    PowAdd(n, h, 1);
    PowFirst(n);
    CongRefl(n, p);
    CongMul(Pow(n, h), 1, n, n, p);
    CongTrans(PowMod(n, k, p) * PowMod(n, k, p), Pow(n, h) * n, n, p);
  }

  lemma PowModCong(b: int, e: nat, m: Modulus)
    ensures Cong(PowMod(b, e, m), Pow(b, e), m)
  {
    hide Cong, Pow;
    CongMod(Pow(b, e), m);
  }

  lemma CongState(a: int, R: int, t: int, c: int, M: nat, R': int, t': int, c': int, p: Modulus)
    requires TonelliState(a, R, t, c, M, p)
    requires Cong(R', R, p) && Cong(t', t, p) && Cong(c', c, p)
    ensures TonelliState(a, R', t', c', M, p)
  {
    hide Cong, Pow, TwoPow;
    CongMul(R', R, R', R, p);
    CongRefl(a, p);
    CongMul(t', t, a, a, p);
    CongSym(t' * a, t * a, p);
    CongTrans(R' * R', R * R, t * a, p);
    CongTrans(R' * R', t * a, t' * a, p);
    var k := TwoPow(M - 1);
    CongPow(c', c, k, p);
    CongPow(t', t, k, p);
    CongTrans(Pow(c', k), Pow(c, k), -1, p);
    CongTrans(Pow(t', k), Pow(t, k), 1, p);
  }

  /** Splits off the powers of two. */
  method SplitOdd(p: int) returns (Q: nat, S: nat)
    requires p > 2
    ensures OddPart(p, Q, S)
  {
    Q, S := p - 1, 0;
    assert TwoPow(0) == 1;
    while Q % 2 == 0
      invariant Q > 0 && p - 1 == Q * TwoPow(S)
      decreases Q
    {
      TwoPowStep(S);
      assert (Q / 2) * (2 * TwoPow(S)) == Q * TwoPow(S);
      Q, S := Q / 2, S + 1;
    }
  }

  /** w^((p-1)/2) = -1, the test that singles out the non-residues. */
  ghost predicate TestsNonResidue(w: int, p: int)
    requires p > 2
  {
    Cong(Pow(w, (p - 1) / 2), -1, p)
  }

  /** The least Z >= 2 with Z^((p-1)/2) = -1; one exists below p. */
  method FindNonResidue(p: int) returns (Z: int)
    requires IsPrime(p) && p % 2 == 1
    ensures 2 <= Z < p && Cong(Pow(Z, (p - 1) / 2), -1, p)
    ensures forall w :: 2 <= w < Z ==> !TestsNonResidue(w, p)
  {
    hide Pow, Cong;
    ghost var z := NonResidueExists(p);
    var h := (p - 1) / 2;
    MinusOneResidue(z, h, p);
    Z := 2;
    while PowMod(Z, h, p) != p - 1
      invariant 2 <= Z <= z
      invariant forall w :: 2 <= w < Z ==> !TestsNonResidue(w, p)
      decreases z - Z
    {
      MinusOneResidue(Z, h, p);
      Z := Z + 1;
    }
    MinusOneResidue(Z, h, p);
  }

  lemma MinusOneResidue(z: int, h: nat, p: int)
    requires p > 2
    ensures PowMod(z, h, p) == p - 1 <==> Cong(Pow(z, h), -1, p)
  {
    hide Pow, Cong;
    PowModIs(z, h, p - 1, p);
    CongIntro(p - 1, -1, 1, p);
    CongSym(p - 1, -1, p);
    if Cong(Pow(z, h), -1, p) { CongTrans(Pow(z, h), -1, p - 1, p); }
    if Cong(Pow(z, h), p - 1, p) { CongTrans(Pow(z, h), p - 1, -1, p); }
  }

  /** Square root modulo an odd prime, or None. The guard is the power test on n as given, so a
      nonzero multiple of p is refused although its residue 0 is a square. */
  method FqSqrt(n: int, p: int) returns (r: Option<int>)
    requires IsPrime(p) && p % 2 == 1
    ensures r.Some? ==> SquareOf(r.value, n, p)
    ensures r == None <==> n != 0 && (Cong(n, 0, p) || !IsSquare(n, p))
  {
    hide Pow, Cong, TwoPow, IsPrime, PowMod;
    PrimeOdd(p);
    if n == 0 {
      ZeroSquare(p);
      return Some(0);
    }
    PowModIs(n, (p - 1) / 2, 1, p);
    if PowMod(n, (p - 1) / 2, p) != 1 {
      NoRoot(n, p);
      return None;
    }
    UnitPower(n, p);
    if p % 4 == 3 {
      ThreeModFour(n, p);
      RootFound(PowMod(n, (p + 1) / 4, p), n, p);
      return Some(PowMod(n, (p + 1) / 4, p));
    }
    var Q, S := SplitOdd(p);
    var Z := FindNonResidue(p);
    var M, c, t, R := S, PowMod(Z, Q, p), PowMod(n, Q, p), PowMod(n, (Q + 1) / 2, p);
    TonelliStart(n, Z, Q, S, p);
    StartReduced(n, Z, Q, S, p);
    while t != 1
      invariant 0 <= R < p && 0 <= t < p && 0 <= c < p
      invariant TonelliState(n, R, t, c, M, p)
      decreases M
    {
      var i := TwoOrder(t, p, M);
      ghost var R0, t0, c0 := R, t, c;
      var b := PowMod(c, TwoPow(M - i - 1), p);
      c := b * b % p;
      t := t * c % p;
      R := R * b % p;
      RoundReduced(n, R0, t0, c0, M, i, b, R, t, c, p);
      M := i;
    }
    CongRefl(1, p);
    TonelliDone(n, R, t, c, M, p);
    RootFound(R, n, p);
    r := Some(R);
  }

  /** The refused input at its smallest: p itself, whose residue 0 is a square. */
  method FqSqrtAtModulus(p: int) returns (r: Option<int>)
    requires IsPrime(p) && p % 2 == 1
    ensures IsSquare(p, p) && r == None
  {
    hide IsPrime;
    PrimeOdd(p);
    CongIntro(p, 0, 1, p);
    CongIntro(0 * 0, p, -1, p);
    RootFound(0, p, p);
    r := FqSqrt(p, p);
  }

  lemma PrimeOdd(p: int)
    requires IsPrime(p) && p % 2 == 1
    ensures p > 2
  {
  }

  lemma ZeroSquare(p: Modulus)
    ensures SquareOf(0, 0, p)
  {
  }

  lemma RootFound(R: int, n: int, p: Modulus)
    requires 0 <= R < p && Cong(R * R, n, p)
    ensures SquareOf(R, n, p) && IsSquare(n, p)
  {
    CongToMod(R * R, n, p);
    assert SquareOf(R, n, p);
  }

  lemma NoRoot(n: int, p: int)
    requires IsPrime(p) && p % 2 == 1 && !Cong(Pow(n, (p - 1) / 2), 1, p)
    ensures Cong(n, 0, p) || !IsSquare(n, p)
  {
    hide Pow, Cong;
    if !Cong(n, 0, p) && IsSquare(n, p) {
      var x :| SquareOf(x, n, p);
      SquareHalfPower(x, n, p);
    }
  }

  lemma UnitPower(n: int, p: int)
    requires p > 2 && p % 2 == 1 && Cong(Pow(n, (p - 1) / 2), 1, p)
    ensures !Cong(n, 0, p)
  {
    hide Pow, Cong;
    var h := (p - 1) / 2;
    if Cong(n, 0, p) {
      CongPow(n, 0, h, p);
      ZeroPower(h);
      CongSym(Pow(n, h), 1, p);
      CongTrans(1, Pow(n, h), 0, p);
      CongUnique(1, 0, p);
    }
  }

  lemma ZeroPower(e: nat)
    requires e > 0
    ensures Pow(0, e) == 0
  {
  }

  lemma StartReduced(n: int, Z: int, Q: nat, S: nat, p: int)
    requires p > 2 && TonelliState(n, Pow(n, (Q + 1) / 2), Pow(n, Q), Pow(Z, Q), S, p)
    ensures TonelliState(n, PowMod(n, (Q + 1) / 2, p), PowMod(n, Q, p), PowMod(Z, Q, p), S, p)
  {
    hide Pow, Cong, TwoPow, TonelliState;
    CongMod(Pow(n, (Q + 1) / 2), p);
    CongMod(Pow(n, Q), p);
    CongMod(Pow(Z, Q), p);
    CongState(n, Pow(n, (Q + 1) / 2), Pow(n, Q), Pow(Z, Q), S,
              PowMod(n, (Q + 1) / 2, p), PowMod(n, Q, p), PowMod(Z, Q, p), p);
  }

  /** The round on reduced values. */
  lemma RoundReduced(a: int, R: int, t: int, c: int, M: nat, i: nat, b: int, R': int, t': int, c': int, p: int)
    requires IsPrime(p) && TonelliState(a, R, t, c, M, p) && 1 <= i < M
    requires Cong(Pow(t, TwoPow(i)), 1, p) && !Cong(Pow(t, TwoPow(i - 1)), 1, p)
    requires b == PowMod(c, TwoPow(M - i - 1), p)
    requires c' == b * b % p && t' == t * c' % p && R' == R * b % p
    ensures TonelliState(a, R', t', c', i, p)
  {
    hide Pow, Cong, TwoPow, TonelliState;
    CongMod(Pow(c, TwoPow(M - i - 1)), p);
    CongMod(b * b, p);
    CongMod(t * c', p);
    CongMod(R * b, p);
    TonelliRound(a, R, t, c, M, i, b, R', t', c', p);
  }
}
