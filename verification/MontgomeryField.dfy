/** The Montgomery domain as a copy of the integers modulo m: sums, differences, conversion
    in and out, powers, and the agreement with the bit-serial oracle. */
module MontgomeryField {
  import opened Congruence
  import opened PrimeField
  import opened FieldOps
  import opened Bignum
  import opened BitScan
  import opened MontgomeryContext
  import opened MontgomeryDomain
  import opened MontgomeryProduct

  method Madd(C: MCtx, a: Fe6, b: Fe6) returns (r: Fe6)
    requires Valid(C) && Val(a) < Modulo(C) && Val(b) < Modulo(C)
    ensures Val(r) == FAdd(Val(a), Val(b), Modulo(C))
    ensures Dec(C, r) == FAdd(Dec(C, a), Dec(C, b), Modulo(C))
  {
    hide Val, Shift, Dec, Radix;
    var d := new u64[6](i requires 0 <= i < 6 => a[i]);
    assert d[..] == d[..6] == a;
    var cy := BnAdd(d, b, 6);
    assert d[..] == d[..6];
    SumResidue(Val(a) + Val(b), Modulo(C));
    ReduceOnce(d, C.m, cy);
    r := d[..];
    DecLinear(C, a, b, r, 1);
  }

  method Msub(C: MCtx, a: Fe6, b: Fe6) returns (r: Fe6)
    requires Valid(C) && Val(a) < Modulo(C) && Val(b) < Modulo(C)
    ensures Val(r) == FSub(Val(a), Val(b), Modulo(C))
    ensures Dec(C, r) == FSub(Dec(C, a), Dec(C, b), Modulo(C))
  {
    hide Val, Shift, Dec, Radix;
    var d := new u64[6](i requires 0 <= i < 6 => a[i]);
    assert d[..] == d[..6] == a;
    var br := BnSub(d, b, 6);
    assert d[..] == d[..6];
    SumResidue(Val(a) - Val(b), Modulo(C));
    ValBound(d[..], 6);
    ShiftZero(6);
    if br != 0 {
      var cy := BnAdd(d, C.m, 6);
      assert d[..] == d[..6];
      ValBound(d[..], 6);
      ValBound(C.m, 6);
    }
    r := d[..];
    DecLinear(C, a, b, r, -1);
  }

  lemma SumResidue(s: int, m: Modulus)
    requires -1 * m < s < 2 * m
    ensures s % m == if s < 0 then s + m else if s < m then s else s - m
  {
    hide Cong;
    var k := if s < 0 then -1 else if s < m then 0 else 1;
    CongIntro(s, s - k * m, k, m);
    CongSym(s, s - k * m, m);
    CongResidue(s - k * m, s, m);
  }

  lemma LinearCong(r: int, a: int, b: int, x: int, y: int, sign: int, R: int, m: Modulus)
    requires Cong(a, x * R, m) && Cong(b, y * R, m) && r == (a + sign * b) % m
    ensures Cong(r, (x + sign * y) * R, m)
  {
    hide Cong;
    CongRefl(sign, m);
    CongMul(sign, sign, b, y * R, m);
    CongAdd(a, x * R, sign * b, sign * (y * R), m);
    assert x * R + sign * (y * R) == (x + sign * y) * R;
    CongMod(a + sign * b, m);
    CongTrans(r, a + sign * b, (x + sign * y) * R, m);
  }

  /** Sums and differences of elements decode to sums and differences. */
  lemma DecLinear(C: MCtx, a: Fe6, b: Fe6, r: Fe6, sign: int)
    requires Valid(C) && Val(r) == (Val(a) + sign * Val(b)) % Modulo(C)
    ensures Dec(C, r) == (Dec(C, a) + sign * Dec(C, b)) % Modulo(C)
  {
    hide Val, Dec, Radix, Cong;
    DecChar(C, a);
    DecChar(C, b);
    LinearCong(Val(r), Val(a), Val(b), Dec(C, a), Dec(C, b), sign, Radix(C.m), Modulo(C));
    DecIs(C, r, Dec(C, a) + sign * Dec(C, b));
  }

  method Mfrom(C: MCtx, canon: Fe6) returns (r: Fe6)
    requires Valid(C)
    ensures Val(r) < Modulo(C)
    ensures Dec(C, r) == Val(canon) % Modulo(C)
  {
    hide Val, Dec, Radix, Cong;
    r := Mmul(C, canon, C.rr);
    EnterDomain(C, canon, r);
  }

  lemma EnterCong(r: int, c: int, rr: int, R: int, i: int, m: Modulus)
    requires Cong(R * i, 1, m) && rr == R * R % m && Cong(r * R, c * rr, m)
    ensures Cong(r, c * R, m)
  {
    hide Cong;
    CongMod(R * R, m);
    CongRefl(c, m);
    CongMul(c, c, rr, R * R, m);
    assert c * (R * R) == c * R * R;
    CongTrans(r * R, c * rr, c * R * R, m);
    CancelUnits(r, c * R, R, i, m);
  }

  lemma EnterDomain(C: MCtx, canon: Fe6, r: Fe6)
    requires Valid(C) && Cong(Val(r) * Radix(C.m), Val(canon) * Val(C.rr), Modulo(C))
    ensures Dec(C, r) == Val(canon) % Modulo(C)
  {
    hide Val, Dec, Radix, Cong, InvRadix;
    ValidOdd(C);
    InvRadixCorrect(C.m, Modulo(C), 384);
    EnterCong(Val(r), Val(canon), Val(C.rr), Radix(C.m), InvRadix(Modulo(C)), Modulo(C));
    DecIs(C, r, Val(canon));
  }

  /** The raw integer 1. */
  function RawOne(): (one: Fe6)
    ensures Val(one) == 1
  {
    ValAppend([1], [0, 0, 0, 0, 0], 1);
    ValSingle(1);
    ValZero([0, 0, 0, 0, 0]);
    assert [1] + [0, 0, 0, 0, 0] == [1, 0, 0, 0, 0, 0];
    [1, 0, 0, 0, 0, 0]
  }

  /** Multiplying by the raw 1 leaves the domain. */
  method Mto(C: MCtx, mont: Fe6) returns (r: Fe6)
    requires Valid(C)
    ensures Val(r) == Dec(C, mont)
  {
    hide Val, Dec, Radix, Cong;
    r := Mmul(C, mont, RawOne());
    LeaveDomain(C, mont, r);
  }

  lemma LeaveDomain(C: MCtx, mont: Fe6, r: Fe6)
    requires Valid(C) && Val(r) < Modulo(C)
    requires Cong(Val(r) * Radix(C.m), Val(mont) * 1, Modulo(C))
    ensures Val(r) == Dec(C, mont)
  {
    hide Val, Dec, Radix, Cong;
    DecChar(C, mont);
    CongSym(Val(r) * Radix(C.m), Val(mont), Modulo(C));
  }

  /** The Montgomery form of 1. */
  lemma DecOne(C: MCtx)
    requires Valid(C)
    ensures Dec(C, C.r1) == 1 && Val(C.r1) < Modulo(C)
  {
    hide Val, Dec, Radix, Cong;
    CongMod(Radix(C.m), Modulo(C));
    DecIs(C, C.r1, 1);
    SmallMod(1, Modulo(C));
  }

  /** Zero is represented by zero limbs and by nothing else. */
  lemma DecZero(C: MCtx, x: Fe6)
    requires Valid(C) && Val(x) < Modulo(C)
    ensures Dec(C, x) == 0 <==> Val(x) == 0
  {
    hide Val, Dec, Radix, Cong;
    DecChar(C, x);
    assert 0 * Radix(C.m) == 0;
    if Val(x) == 0 {
      CongRefl(0, Modulo(C));
    }
    if Dec(C, x) == 0 {
      CongUnique(Val(x), 0, Modulo(C));
    }
  }

  /** The power read off the exponent bits from limb i, bit k upwards. */
  ghost predicate PowerSoFar(C: MCtx, r: Fe6, a: int, h: nat) {
    Modulo(C) > 1 && Val(r) < Modulo(C) && Dec(C, r) == PowMod(a, h, Modulo(C))
  }

  /** One bit of the exponent: square, and multiply when the bit is set. */
  method PowBit(C: MCtx, r: Fe6, b: Fe6, bit: u64, ghost h: nat) returns (r': Fe6)
    requires Valid(C) && Val(b) < Modulo(C) && bit <= 1
    requires PowerSoFar(C, r, Dec(C, b), h)
    ensures PowerSoFar(C, r', Dec(C, b), 2 * h + bit)
  {
    hide Val, Dec, PowMod, Cong;
    PowModStep(Dec(C, b), h, Modulo(C));
    r' := Mmul(C, r, r);
    if bit != 0 {
      r' := Mmul(C, r', b);
    }
  }

  lemma ModuloAboveOne(C: MCtx)
    requires Valid(C)
    ensures Modulo(C) > 1
  {
  }

  /** The 64 bits of limb i of the exponent, from the top. */
  method PowLimb(C: MCtx, r: Fe6, a: Fe6, e: Fe6, i: nat) returns (r': Fe6)
    requires Valid(C) && Val(a) < Modulo(C) && i < 6
    requires PowerSoFar(C, r, Dec(C, a), High(e, i, 64))
    ensures PowerSoFar(C, r', Dec(C, a), High(e, i, 0))
  {
    hide Val, Dec, High, PowerSoFar, Valid;
    ModuloAboveOne(C);
    r' := r;
    var k := 63;
    while k >= 0
      invariant -1 <= k <= 63
      invariant PowerSoFar(C, r', Dec(C, a), High(e, i, k + 1))
    {
      HighStep(e, i, k);
      r' := PowBit(C, r', a, Bit(e, i, k), High(e, i, k + 1));
      k := k - 1;
    }
  }

  /** The power read off limbs i and above. */
  ghost predicate PowerAbove(C: MCtx, r: Fe6, a: int, e: Fe6, i: nat)
    requires i <= 6
  {
    PowerSoFar(C, r, a, Val(e[i..]))
  }

  lemma PowerTop(C: MCtx, a: int, e: Fe6)
    requires Valid(C)
    ensures PowerAbove(C, C.r1, a, e, 6)
  {
    hide Val, Dec, PowMod, Valid;
    DecOne(C);
    ValEmpty();
    assert e[6..] == [];
    assert PowMod(a, 0, Modulo(C)) == 1 by { PowModZero(a, Modulo(C)); }
  }

  lemma PowerBottom(C: MCtx, r: Fe6, a: int, e: Fe6)
    requires PowerAbove(C, r, a, e, 0)
    ensures Val(r) < Modulo(C) && Modulo(C) > 1 && Dec(C, r) == PowMod(a, Val(e), Modulo(C))
  {
    hide Val, Dec, PowMod;
    assert e[0..] == e;
  }

  /** Square and multiply from the top bit of the exponent. */
  method Mpow(C: MCtx, a: Fe6, e: Fe6) returns (r: Fe6)
    requires Valid(C) && Val(a) < Modulo(C)
    ensures Val(r) < Modulo(C)
    ensures Dec(C, r) == PowMod(Dec(C, a), Val(e), Modulo(C))
  {
    hide Val, Dec, High, PowMod, PowerAbove, Valid;
    ModuloAboveOne(C);
    r := C.r1;
    PowerTop(C, Dec(C, a), e);
    for i := 6 downto 0
      invariant PowerAbove(C, r, Dec(C, a), e, i)
    {
      LimbAbove(C, r, Dec(C, a), e, i);
      r := PowLimb(C, r, a, e, i);
      LimbDone(C, r, Dec(C, a), e, i);
    }
    PowerBottom(C, r, Dec(C, a), e);
  }

  lemma LimbAbove(C: MCtx, r: Fe6, a: int, e: Fe6, i: nat)
    requires i < 6 && PowerAbove(C, r, a, e, i + 1)
    ensures PowerSoFar(C, r, a, High(e, i, 64))
  {
    hide Val, PowerSoFar, High;
    HighTop(e, i);
  }

  lemma LimbDone(C: MCtx, r: Fe6, a: int, e: Fe6, i: nat)
    requires i < 6 && PowerSoFar(C, r, a, High(e, i, 0))
    ensures PowerAbove(C, r, a, e, i)
  {
    hide Val, PowerSoFar, High;
    HighBottom(e, i);
  }

  lemma PowModZero(a: int, m: Modulus)
    requires m > 1
    ensures PowMod(a, 0, m) == 1
  {
    SmallMod(1, m);
  }

  /** Doubling the exponent squares; one more multiplies by the base. */
  lemma PowModStep(a: int, h: nat, m: Modulus)
    requires 0 <= a
    ensures PowMod(a, h, m) * PowMod(a, h, m) % m == PowMod(a, 2 * h, m)
    ensures PowMod(a, 2 * h, m) * a % m == PowMod(a, 2 * h + 1, m)
  {
    hide Cong;
    PowSquare(a, h);
    CongMod(Pow(a, h), m);
    CongMul(Pow(a, h) % m, Pow(a, h), Pow(a, h) % m, Pow(a, h), m);
    CongToMod((Pow(a, h) % m) * (Pow(a, h) % m), Pow(a, 2 * h), m);
    CongMod(Pow(a, 2 * h), m);
    CongRefl(a, m);
    CongMul(Pow(a, 2 * h) % m, Pow(a, 2 * h), a, a, m);
    assert Pow(a, 2 * h + 1) == a * Pow(a, 2 * h);
    CongToMod((Pow(a, 2 * h) % m) * a, Pow(a, 2 * h + 1), m);
  }

  /** The self-test's comparison, for all inputs: multiplying in the Montgomery domain and
      reducing the schoolbook product bit by bit give the same six limbs. */
  method OracleMul(C: MCtx, ca: Fe6, cb: Fe6) returns (viaM: Fe6, viaOracle: Fe6)
    requires Valid(C)
    ensures Val(viaM) == Val(ca) * Val(cb) % Modulo(C)
    ensures viaM == viaOracle
  {
    hide Val, Dec, Cong;
    var prod := new u64[12](_ => 0);
    BnMul(ca, cb, prod);
    BnMod(prod, 12, C.m);
    viaOracle := prod[..6];
    var ma := Mfrom(C, ca);
    var mb := Mfrom(C, cb);
    var mc := Mmul(C, ma, mb);
    viaM := Mto(C, mc);
    ModProduct(Val(ca), Val(cb), Modulo(C));
    ValInjective(viaM, viaOracle);
  }

  lemma ModProduct(a: int, b: int, m: Modulus)
    ensures (a % m) * (b % m) % m == a * b % m
  {
    hide Cong;
    CongMod(a, m);
    CongMod(b, m);
    CongMul(a % m, a, b % m, b, m);
    CongToMod((a % m) * (b % m), a * b, m);
  }

  /** Leaving the domain undoes entering it. */
  method RoundTrip(C: MCtx, a: Fe6) returns (r: Fe6)
    requires Valid(C) && Val(a) < Modulo(C)
    ensures r == a
  {
    hide Val, Dec;
    var ma := Mfrom(C, a);
    r := Mto(C, ma);
    SmallMod(Val(a), Modulo(C));
    ValInjective(r, a);
  }
}
