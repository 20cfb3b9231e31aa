/** The Montgomery context of an odd modulus and its set-up. */
module MontgomeryContext {
  import opened IntegerLaws
  import opened Congruence
  import opened PrimeField
  import opened Bignum
  import opened BitScan

  datatype MCtx = MCtx(m: Fe6, n0: u64, r1: Fe6, rr: Fe6, expM2: Fe6)

  datatype Result<+T> = Ok(value: T) | Fatal(reason: Reason)

  datatype Reason = N0Kernel | NoNonResidue | DidNotConverge | OrderViolation | LoopGuard

  /** The Montgomery radix: one more limb than an element has, 2^384 for six limbs. */
  function Radix(m: seq<u64>): (r: int)
    ensures r > 0
  {
    if m == [] then 1 else BASE * Radix(m[1..])
  }

  lemma {:induction false} RadixIsShift(m: seq<u64>, n: nat)
    requires n == |m|
    ensures Radix(m) == Shift(1, n)
    decreases n
  {
    if n > 0 { RadixIsShift(m[1..], n - 1); }
  }

  /** The modulus as a number. */
  function Modulo(C: MCtx): nat {
    Val(C.m)
  }

  /** What set-up establishes and every operation relies on. */
  ghost predicate Valid(C: MCtx) {
    && Modulo(C) > 1
    && 2 * Modulo(C) < Radix(C.m)
    && C.m[0] * C.n0 % BASE == BASE - 1
    && Val(C.r1) == Radix(C.m) % Modulo(C)
    && Val(C.rr) == Radix(C.m) * Radix(C.m) % Modulo(C)
  }

  // ------------------------------------------------- Newton's 2-adic inverse

  lemma PowDivides(i: nat, j: nat) returns (c: int)
    requires i <= j
    ensures Pow(2, j) == c * Pow(2, i)
  {
    PowAdd(2, j - i, i);
    c := Pow(2, j - i);
  }

  /** x(2 - m0*x) doubles the number of valid low bits of the inverse, up to the word size. */
  lemma NewtonStep(m0: int, x: int, x': int, k: nat, k': nat)
    requires k' <= 2 * k && k' <= 64
    requires Pow(2, k) > 0 && Pow(2, k') > 0
    requires Cong(m0 * x, 1, Pow(2, k))
    requires Cong(x', x * (2 - m0 * x), BASE)
    ensures Cong(m0 * x', 1, Pow(2, k'))
  {
    var p := Pow(2, k');
    var c := CongElim(m0 * x, 1, Pow(2, k));
    var d := CongElim(x', x * (2 - m0 * x), BASE);
    PowSquare(2, k);
    PowTwo64();
    var e := PowDivides(k', 2 * k);
    var f := PowDivides(k', 64);
    NewtonIdentity(m0, x, x', c, d, Pow(2, k), Pow(2, 2 * k), e, f, p);
    CongIntro(m0 * x', 1, m0 * d * f - c * c * e, p);
  }

  lemma NewtonIdentity(m0: int, x: int, x': int, c: int, d: int, w: int, ww: int, e: int, f: int, p: int)
    requires m0 * x - 1 == c * w && x' - x * (2 - m0 * x) == d * BASE
    requires ww == w * w && ww == e * p && BASE == f * p
    ensures m0 * x' - 1 == (m0 * d * f - c * c * e) * p
  {
    var y := m0 * x;
    Distribute(m0, x * (2 - y), d * BASE);
    Associate(m0, x, 2 - y);
    DistributeSub(y, 2, y);
    SquareSum(y, -1);
    Exchange(c, w, c, w);
    Associate(c * c, e, p);
    SwapLast(m0, d, f * p);
    Associate(m0, d, f * p);
    Associate(m0 * d, f, p);
    DistributeSub(p, m0 * d * f, c * c * e);
  }

  /** An odd square is 1 modulo 8, so the seed x = m0 is right to three bits. */
  lemma NewtonSeed(m0: nat)
    requires m0 % 2 == 1
    ensures Pow(2, 3) == 8 && Cong(m0 * m0, 1, 8)
  {
    assert Pow(2, 1) == 2;
    PowAdd(2, 1, 1);
    PowAdd(2, 2, 1);
    var h := m0 / 2;
    assert m0 == 2 * h + 1;
    assert m0 * m0 == 4 * (h * h + h) + 1;
    var g := h / 2;
    assert h == 2 * g || h == 2 * g + 1;
    if h == 2 * g {
      assert h * h + h == 2 * (2 * g * g + g);
      CongIntro(m0 * m0, 1, 2 * g * g + g, 8);
    } else {
      assert h * h + h == 2 * (2 * g * g + 3 * g + 1);
      CongIntro(m0 * m0, 1, 2 * g * g + 3 * g + 1, 8);
    }
  }

  lemma WrappedStep(m0: int, x: int)
    ensures Cong(x * ((2 - m0 * x) % BASE) % BASE, x * (2 - m0 * x), BASE)
  {
    var t := 2 - m0 * x;
    CongMod(t, BASE);
    CongRefl(x, BASE);
    CongMul(x, x, t % BASE, t, BASE);
    CongMod(x * (t % BASE), BASE);
    CongTrans(x * (t % BASE) % BASE, x * (t % BASE), x * t, BASE);
  }

  lemma NegatedInverse(m0: int, x: u64)
    requires Cong(m0 * x, 1, BASE)
    ensures m0 * ((BASE - x) % BASE) % BASE == BASE - 1
  {
    hide Cong;
    var n0 := (BASE - x) % BASE;
    CongMod(BASE - x, BASE);
    CongRefl(m0, BASE);
    CongMul(m0, m0, n0, BASE - x, BASE);
    var k := CongElim(m0 * x, 1, BASE);
    assert m0 * (BASE - x) - (BASE - 1) == (m0 - k - 1) * BASE;
    CongIntro(m0 * (BASE - x), BASE - 1, m0 - k - 1, BASE);
    CongTrans(m0 * n0, m0 * (BASE - x), BASE - 1, BASE);
    CongToMod(m0 * n0, BASE - 1, BASE);
    SmallMod(BASE - 1, BASE);
  }

  /** The low bits of the inverse that are valid after i Newton steps. */
  function ValidBits(i: nat): nat {
    match i case 0 => 3 case 1 => 6 case 2 => 12 case 3 => 24 case 4 => 48 case _ => 64
  }

  ghost predicate InverseTo(m0: int, x: int, bits: nat) {
    Pow(2, bits) > 0 && Cong(m0 * x, 1, Pow(2, bits))
  }

  lemma NewtonIteration(m0: int, x: int, i: nat)
    requires i < 5 && InverseTo(m0, x, ValidBits(i))
    ensures InverseTo(m0, x * ((2 - m0 * x) % BASE) % BASE, ValidBits(i + 1))
  {
    hide Cong;
    hide Pow;
    WrappedStep(m0, x);
    PowPositive(2, ValidBits(i + 1));
    NewtonStep(m0, x, x * ((2 - m0 * x) % BASE) % BASE, ValidBits(i), ValidBits(i + 1));
  }

  /** Five Newton steps from the seed m0: 3, 6, 12, 24, 48, 64 valid bits. */
  method NewtonInv(m0: u64) returns (n0: u64)
    ensures m0 % 2 == 1 ==> m0 * n0 % BASE == BASE - 1
  {
    hide InverseTo;
    var x: u64 := m0;
    if m0 % 2 == 1 { NewtonStart(m0); }
    for i := 0 to 5
      invariant m0 % 2 == 1 ==> InverseTo(m0, x, ValidBits(i))
    {
      if m0 % 2 == 1 { NewtonIteration(m0, x, i); }
      x := x * ((2 - m0 * x) % BASE) % BASE;
    }
    n0 := (BASE - 1 - x + 1) % BASE;
    if m0 % 2 == 1 {
      NewtonEnd(m0, x);
      NegatedInverse(m0, x);
    }
  }

  lemma NewtonStart(m0: nat)
    requires m0 % 2 == 1
    ensures InverseTo(m0, m0, ValidBits(0))
  {
    NewtonSeed(m0);
  }

  lemma NewtonEnd(m0: int, x: int)
    requires InverseTo(m0, x, ValidBits(5))
    ensures Cong(m0 * x, 1, BASE)
  {
    PowTwo64();
  }

  lemma {:induction false} RadixIsPower(n: nat)
    ensures Shift(1, n) == Pow(2, 64 * n)
  {
    if n > 0 {
      RadixIsPower(n - 1);
      PowTwo64();
      PowAdd(2, 64, 64 * (n - 1));
    }
  }

  lemma RadixPowers(m: Fe6, e: nat)
    requires e == 384
    ensures Pow(2, e) == Radix(m) && Pow(2, 2 * e) == Radix(m) * Radix(m)
  {
    hide Pow, Shift, Radix;
    RadixIsShift(m, |m|);
    RadixIsPower(|m|);
    PowSquare(2, e);
  }

  lemma EvenProduct(a: int, b: int)
    requires a % 2 == 0
    ensures a * b % BASE % 2 == 0
  {
    var h := a / 2;
    assert a * b == 2 * (h * b);
    assert a * b % BASE == 2 * (h * b) - BASE * (a * b / BASE);
  }

  lemma LowLimbParity(m: Fe6)
    ensures Val(m) % 2 == m[0] % 2
  {
    hide Val;
    ValCons(m);
  }

  /** Set-up: the guard on n0 fires exactly for an even modulus; otherwise the context is complete. */
  method InitCtx(m: Fe6, expSrc: Fe6) returns (r: Result<MCtx>)
    requires Val(m) > 1
    ensures r == Fatal(N0Kernel) <==> Val(m) % 2 == 0
    ensures r.Ok? <==> Val(m) % 2 == 1
    ensures r.Ok? ==> m[0] * r.value.n0 % BASE == BASE - 1
    ensures r.Ok? ==> Val(r.value.r1) == Radix(m) % Val(m) && Val(r.value.rr) == Radix(m) * Radix(m) % Val(m)
    ensures r.Ok? ==> r.value.m == m && r.value.expM2 == expSrc
    ensures r.Ok? && 2 * Val(m) < Radix(m) ==> Valid(r.value)
  {
    hide Val, Pow, Shift, Radix;
    LowLimbParity(m);
    var n0 := NewtonInv(m[0]);
    if m[0] % 2 == 0 { EvenProduct(m[0], n0); }
    if m[0] * n0 % BASE != BASE - 1 {
      return Fatal(N0Kernel);
    }
    var e := 384;
    RadixPowers(m, e);
    var r1 := Pow2Mod(m, e);
    var rr := Pow2Mod(m, 2 * e);
    r := Ok(MCtx(m, n0, r1, rr, expSrc));
  }
}
