/** The limb-level Tonelli-Shanks of the derivation tool, with every guard of the source. */
module TonelliField {
  import opened Congruence
  import opened PrimeField
  import opened Bignum
  import opened MontgomeryContext
  import opened MontgomeryDomain
  import opened MontgomeryProduct
  import opened MontgomeryField
  import opened SquareRoot

  /** The globals the routine reads: the context of q, (q-1)/2, the odd part of q-1 and its 2-adicity. */
  datatype QParams = QParams(ctx: MCtx, half: Fe6, sodd: Fe6, e: nat)

  ghost predicate ValidQ(P: QParams) {
    && Valid(P.ctx)
    && IsPrime(Modulo(P.ctx))
    && Val(P.half) == (Modulo(P.ctx) - 1) / 2
    && OddPart(Modulo(P.ctx), Val(P.sodd), P.e)
  }

  /** Halves q-1 until it is odd; the loop is cut off after a hundred rounds. */
  method TwoAdicity(qm1: Fe6) returns (r: Result<(Fe6, nat)>)
    requires Val(qm1) > 0
    ensures r.Ok? ==> Val(qm1) == Val(r.value.0) * TwoPow(r.value.1) && Val(r.value.0) % 2 == 1 && r.value.1 <= 100
    ensures r.Fatal? ==> exists k :: k >= 0 && Val(qm1) == 2 * k * TwoPow(100)
  {
    hide Val, TwoPow;
    var s := new u64[6](i requires 0 <= i < 6 => qm1[i]);
    assert s[..] == qm1;
    var e, wl := 0, 0;
    TwoPowZero();
    while true
      invariant e == wl <= 100
      invariant Val(s[..]) > 0 && Val(qm1) == Val(s[..]) * TwoPow(e)
      decreases 100 - wl
    {
      LowLimbParity(s[..]);
      if s[0] % 2 == 1 { break; }
      wl := wl + 1;
      if wl > 100 {
        assert Val(qm1) == 2 * (Val(s[..]) / 2) * TwoPow(100);
        return Fatal(LoopGuard);
      }
      TwoPowStep(e);
      ghost var v := Val(s[..]);
      assert v == 2 * (v / 2);
      assert (v / 2) * (2 * TwoPow(e)) == v * TwoPow(e);
      BnShr1(s, 6);
      e := e + 1;
    }
    r := Ok((s[..], e));
  }

  /** The power test on a candidate: its canonical (q-1)/2-th power. */
  method HalfPowerOf(P: QParams, z: Fe6) returns (chk: Fe6)
    requires ValidQ(P)
    ensures Val(chk) == PowMod(Val(z), (Modulo(P.ctx) - 1) / 2, Modulo(P.ctx))
  {
    hide Val, Dec, PowMod;
    var mz := Mfrom(P.ctx, z);
    var pz := Mpow(P.ctx, mz, P.half);
    chk := Mto(P.ctx, pz);
    PowModReduce(Val(z), (Modulo(P.ctx) - 1) / 2, Modulo(P.ctx));
  }

  lemma PowModReduce(b: int, e: nat, m: Modulus)
    ensures PowMod(b % m, e, m) == PowMod(b, e, m)
  {
    hide Cong, Pow;
    CongMod(b, m);
    CongPow(b % m, b, e, m);
    CongToMod(Pow(b % m, e), Pow(b, e), m);
  }

  /** The power test as the search reads it. */
  ghost predicate Passes(z: int, q: Modulus)
    requires q > 2
  {
    PowMod(z, (q - 1) / 2, q) == 1
  }

  /** z is one of the 512 candidates and fails the power test. */
  ghost predicate Witness(z: int, q: int) {
    2 <= z < 514 && z < q && q > 2 && Cong(Pow(z, (q - 1) / 2), -1, q)
  }

  /** Some candidate of the search is a non-residue. */
  ghost predicate HasWitness(q: int) {
    exists z :: Witness(z, q)
  }

  /** The first number from 2 up, among 512, whose half power is not 1. */
  method FindWitness(P: QParams) returns (z: Fe6, nr: bool)
    requires ValidQ(P)
    ensures nr ==> Witness(Val(z), Modulo(P.ctx)) && HasWitness(Modulo(P.ctx))
    ensures !nr ==> !HasWitness(Modulo(P.ctx))
  {
    hide Val, Dec, PowMod, Cong, Pow, ValidQ;
    ghost var q := Modulo(P.ctx);
    QOdd(P);
    z := RawOne();
    var zc := new u64[6](i => if i == 0 then 2 else 0);
    RawSmall(zc[..], 2);
    nr := false;
    var g := 0;
    while g < 512 && !nr
      invariant 0 <= g <= 512 && Val(zc[..]) == 2 + g
      invariant !nr
      invariant forall w :: 2 <= w < 2 + g ==> Passes(w, q)
    {
      var chk := HalfPowerOf(P, zc[..]);
      if chk != RawOne() {
        z := zc[..];
        if Val(chk) == 1 { ValInjective(chk, RawOne()); }
        LeastWitness(q, 2 + g);
        nr := true;
        return;
      }
      RadixLarge();
      BnInc(zc, 6);
      g := g + 1;
    }
    forall w ensures !Witness(w, q) {
      if Witness(w, q) { WitnessPower(w, q); }
    }
  }

  lemma QOdd(P: QParams)
    requires ValidQ(P)
    ensures Valid(P.ctx) && IsPrime(Modulo(P.ctx)) && Modulo(P.ctx) % 2 == 1 && Modulo(P.ctx) > 2
    ensures OddPart(Modulo(P.ctx), Val(P.sodd), P.e)
  {
    hide Val, Cong, Pow;
    ValidOdd(P.ctx);
    PrimeOdd(Modulo(P.ctx));
  }

  lemma RawSmall(s: seq<u64>, v: u64)
    requires s == [v, 0, 0, 0, 0, 0]
    ensures Val(s) == v
  {
    ValAppend([v], [0, 0, 0, 0, 0], 1);
    ValSingle(v);
    ValZero([0, 0, 0, 0, 0]);
    ShiftZero(1);
    assert s == [v] + [0, 0, 0, 0, 0];
  }

  lemma RadixLarge()
    ensures forall n: nat :: n == 6 ==> Shift(1, n) > 1000
  {
    forall n: nat | n == 6 ensures Shift(1, n) > 1000 {
      LargeShift(n);
    }
  }

  lemma {:induction false} LargeShift(n: nat)
    requires n > 0
    ensures Shift(1, n) >= BASE
  {
    if n > 1 { LargeShift(n - 1); }
  }

  lemma WitnessPower(w: int, q: int)
    requires Witness(w, q)
    ensures !Passes(w, q)
  {
    hide Pow, Cong;
    PowModIs(w, (q - 1) / 2, 1, q);
    if Cong(Pow(w, (q - 1) / 2), 1, q) { OneIsNotMinusOne(Pow(w, (q - 1) / 2), q); }
  }

  /** The first candidate failing the test is a non-residue below q. */
  lemma LeastWitness(q: int, z: int)
    requires IsPrime(q) && q > 2 && q % 2 == 1 && 2 <= z < 514
    requires !Passes(z, q)
    requires forall w :: 2 <= w < z ==> Passes(w, q)
    ensures Witness(z, q)
  {
    hide Pow, Cong, PowMod;
    var h := (q - 1) / 2;
    var w := NonResidueExists(q);
    PowModIs(w, h, 1, q);
    if Cong(Pow(w, h), 1, q) { OneIsNotMinusOne(Pow(w, h), q); }
    assert !Passes(w, q);
    assert z <= w;
    NonzeroResidue(z, q);
    HalfPower(z, q);
    PowModIs(z, h, 1, q);
  }

  /** (s + 1) / 2 in limbs. */
  method HalfUp(s: Fe6) returns (r: Fe6)
    requires Val(s) + 1 < Radix(s)
    ensures Val(r) == (Val(s) + 1) / 2
  {
    hide Val, Shift;
    var d := new u64[6](i requires 0 <= i < 6 => s[i]);
    assert d[..] == d[..6] == s;
    var c := BnAdd(d, RawOne(), 6);
    assert d[..] == d[..6];
    RadixIsShift(s, 6);
    ShiftMonotone(0, c, 6);
    ShiftZero(6);
    if c == 1 { assert false; }
    BnShr1(d, 6);
    r := d[..];
  }

  /** Repeated squaring of a Montgomery element. */
  method SquareTimes(C: MCtx, c: Fe6, n: nat) returns (b: Fe6)
    requires Valid(C) && Val(c) < Modulo(C)
    ensures Val(b) < Modulo(C)
    ensures Cong(Dec(C, b), Pow(Dec(C, c), TwoPow(n)), Modulo(C))
  {
    hide Val, Dec, Pow, TwoPow, Cong;
    b := c;
    FirstPower(Dec(C, c), Modulo(C));
    for k := 0 to n
      invariant Val(b) < Modulo(C)
      invariant Cong(Dec(C, b), Pow(Dec(C, c), TwoPow(k)), Modulo(C))
    {
      SquareUp(Dec(C, c), Dec(C, b), k, Modulo(C));
      b := Mmul(C, b, b);
    }
  }

  /** The exact two-power order of t: the least i with t^(2^i) = 1. */
  ghost predicate ExactOrder(t: int, i: nat, q: Modulus) {
    Cong(Pow(t, TwoPow(i)), 1, q) && (i > 0 ==> !Cong(Pow(t, TwoPow(i - 1)), 1, q))
  }

  /** Squares t until it is 1; the loop is cut off after a hundred squarings. */
  method OrderOf(C: MCtx, t: Fe6) returns (r: Result<nat>)
    requires Valid(C) && Modulo(C) > 2 && Val(t) < Modulo(C)
    ensures r.Ok? ==> ExactOrder(Dec(C, t), r.value, Modulo(C))
    ensures r.Fatal? ==> r == Fatal(LoopGuard)
    ensures r.Fatal? ==> forall i :: 0 <= i <= 100 ==> !Cong(Pow(Dec(C, t), TwoPow(i)), 1, Modulo(C))
  {
    hide Val, Dec, Pow, TwoPow, Cong;
    var i, t2, wl := 0, t, 0;
    DecOne(C);
    FirstPower(Dec(C, t), Modulo(C));
    while t2 != C.r1
      invariant i == wl <= 100 && Val(t2) < Modulo(C)
      invariant Cong(Dec(C, t2), Pow(Dec(C, t), TwoPow(i)), Modulo(C))
      invariant forall j :: 0 <= j < i ==> !Cong(Pow(Dec(C, t), TwoPow(j)), 1, Modulo(C))
      decreases 100 - wl
    {
      if Dec(C, t2) == 1 { DecInjective(C, t2, C.r1); }
      NotOneYet(Dec(C, t), Dec(C, t2), i, Modulo(C));
      wl := wl + 1;
      if wl > 100 { return Fatal(LoopGuard); }
      SquareUp(Dec(C, t), Dec(C, t2), i, Modulo(C));
      t2 := Mmul(C, t2, t2);
      i := i + 1;
    }
    CongSym(1, Pow(Dec(C, t), TwoPow(i)), Modulo(C));
    r := Ok(i);
  }

  /** Between rounds: the invariant for a residue; for a non-residue only the first round is reached. */
  ghost predicate LoopState(P: QParams, a: int, R: Fe6, t: Fe6, c: Fe6, M: nat) {
    && Modulo(P.ctx) > 2
    && Val(R) < Modulo(P.ctx) && Val(t) < Modulo(P.ctx) && Val(c) < Modulo(P.ctx)
    && 1 <= M <= P.e
    && (IsSquare(a, Modulo(P.ctx)) ==> TonelliState(a, Dec(P.ctx, R), Dec(P.ctx, t), Dec(P.ctx, c), M, Modulo(P.ctx)))
    && (!IsSquare(a, Modulo(P.ctx)) ==> M == P.e && Cong(Pow(Dec(P.ctx, t), TwoPow(M - 1)), -1, Modulo(P.ctx)))
  }

  /** A non-residue starts with t^(2^(e-1)) = -1. */
  lemma NonSquareStart(a: int, s: nat, e: nat, q: int)
    requires IsPrime(q) && q > 2 && q % 2 == 1 && OddPart(q, s, e) && 0 < a < q && !IsSquare(a, q)
    ensures e >= 1 && Cong(Pow(PowMod(a, s, q), TwoPow(e - 1)), -1, q)
  {
    hide Pow, TwoPow, Cong, IsSquare;
    var h := (q - 1) / 2;
    TopPower(a, s, e, q);
    NonzeroResidue(a, q);
    HalfPower(a, q);
    if Cong(Pow(a, h), 1, q) { HalfPowerRoot(a, s, e, q); }
    PowModCong(a, s, q);
    CongPow(PowMod(a, s, q), Pow(a, s), TwoPow(e - 1), q);
    CongTrans(Pow(PowMod(a, s, q), TwoPow(e - 1)), Pow(a, h), -1, q);
  }

  /** A residue starts in the loop invariant. */
  lemma SquareStart(a: int, z: int, s: nat, e: nat, q: int)
    requires IsPrime(q) && q > 2 && q % 2 == 1 && OddPart(q, s, e) && 0 < a < q && IsSquare(a, q)
    requires Cong(Pow(z, (q - 1) / 2), -1, q)
    ensures TonelliState(a, PowMod(a, (s + 1) / 2, q), PowMod(a, s, q), PowMod(z, s, q), e, q)
  {
    hide Pow, TwoPow, Cong, TonelliState;
    NonzeroResidue(a, q);
    var x :| SquareOf(x, a, q);
    SquareHalfPower(x, a, q);
    TonelliStart(a, z, s, e, q);
    StartReduced(a, z, s, e, q);
  }

  /** The starting values decode to powers of a and z and establish the loop state. */
  lemma LoopStart(P: QParams, a: int, z: int, R: Fe6, t: Fe6, c: Fe6)
    requires ValidQ(P) && Modulo(P.ctx) > 2 && Modulo(P.ctx) % 2 == 1
    requires 0 < a < Modulo(P.ctx) && Cong(Pow(z, (Modulo(P.ctx) - 1) / 2), -1, Modulo(P.ctx))
    requires Val(R) < Modulo(P.ctx) && Val(t) < Modulo(P.ctx) && Val(c) < Modulo(P.ctx)
    requires Dec(P.ctx, R) == PowMod(a, (Val(P.sodd) + 1) / 2, Modulo(P.ctx))
    requires Dec(P.ctx, t) == PowMod(a, Val(P.sodd), Modulo(P.ctx))
    requires Dec(P.ctx, c) == PowMod(z, Val(P.sodd), Modulo(P.ctx))
    ensures LoopState(P, a, R, t, c, P.e)
  {
    hide Val, Dec, Pow, PowMod, TwoPow, Cong, TonelliState, IsSquare, OddPart, Valid;
    var q := Modulo(P.ctx);
    TopPower(a, Val(P.sodd), P.e, q);
    if IsSquare(a, q) {
      SquareStart(a, z, Val(P.sodd), P.e, q);
    } else {
      NonSquareStart(a, Val(P.sodd), P.e, q);
    }
  }

  /** Half power 1 means a square (Euler's criterion, by running the square root). */
  lemma HalfPowerRoot(a: int, s: nat, e: nat, q: int)
    requires IsPrime(q) && q > 2 && q % 2 == 1 && OddPart(q, s, e)
    requires Cong(Pow(a, (q - 1) / 2), 1, q)
    ensures IsSquare(a, q)
  {
    hide Pow, TwoPow, Cong, TonelliState;
    var z := NonResidueExists(q);
    TonelliStart(a, z, s, e, q);
    TonelliRuns(a, Pow(a, (s + 1) / 2), Pow(a, s), Pow(z, s), e, q);
  }

  /** From any state of the loop a root is reached. */
  lemma {:induction false} TonelliRuns(a: int, R: int, t: int, c: int, M: nat, q: int)
    requires IsPrime(q) && q > 2 && TonelliState(a, R, t, c, M, q)
    ensures IsSquare(a, q)
    decreases M
  {
    hide Pow, TwoPow, Cong;
    if Cong(t, 1, q) {
      TonelliDone(a, R, t, c, M, q);
      CongMod(R, q);
      CongMul(R % q, R, R % q, R, q);
      CongTrans((R % q) * (R % q), R * R, a, q);
      RootFound(R % q, a, q);
    } else {
      var i := LeastOrder(t, M - 1, q);
      var b := Pow(c, TwoPow(M - i - 1));
      CongRefl(b, q);
      CongRefl(b * b, q);
      CongRefl(t * (b * b), q);
      CongRefl(R * b, q);
      TonelliRound(a, R, t, c, M, i, b, R * b, t * (b * b), b * b, q);
      TonelliRuns(a, R * b, t * (b * b), b * b, i, q);
    }
  }

  lemma {:induction false} LeastOrder(t: int, k: nat, q: int) returns (i: nat)
    requires q > 2 && Cong(Pow(t, TwoPow(k)), 1, q) && !Cong(t, 1, q)
    ensures 1 <= i <= k && Cong(Pow(t, TwoPow(i)), 1, q) && !Cong(Pow(t, TwoPow(i - 1)), 1, q)
    decreases k
  {
    hide Pow, TwoPow, Cong;
    if k == 0 {
      FirstPower(t, q);
      CongTrans(t, Pow(t, TwoPow(0)), 1, q);
    }
    if Cong(Pow(t, TwoPow(k - 1)), 1, q) {
      i := LeastOrder(t, k - 1, q);
    } else {
      i := k;
    }
  }

  /** What one look at the order of t tells: a residue goes on below M, a non-residue stops at M. */
  lemma OrderDecides(P: QParams, a: int, R: Fe6, t: Fe6, c: Fe6, M: nat, i: nat)
    requires LoopState(P, a, R, t, c, M) && Dec(P.ctx, t) != 1
    requires ExactOrder(Dec(P.ctx, t), i, Modulo(P.ctx))
    ensures 1 <= i
    ensures IsSquare(a, Modulo(P.ctx)) ==> i < M
    ensures !IsSquare(a, Modulo(P.ctx)) ==> i >= M
  {
    hide Val, Dec, Pow, TwoPow, Cong, IsSquare;
    var q, d := Modulo(P.ctx), Dec(P.ctx, t);
    if i == 0 {
      FirstPower(d, q);
      CongTrans(d, Pow(d, TwoPow(0)), 1, q);
      CongUnique(d, 1, q);
    }
    if IsSquare(a, q) && i >= M {
      OrderUp(d, M - 1, i - 1, q);
    }
    if !IsSquare(a, q) && i < M {
      OrderUp(d, i, M - 1, q);
      OneIsNotMinusOne(Pow(d, TwoPow(M - 1)), q);
    }
  }

  /** With at most a hundred factors of two the squaring loop ends before its guard. */
  lemma OrderInReach(P: QParams, a: int, R: Fe6, t: Fe6, c: Fe6, M: nat)
    requires LoopState(P, a, R, t, c, M) && P.e <= 100
    ensures exists i :: 0 <= i <= 100 && Cong(Pow(Dec(P.ctx, t), TwoPow(i)), 1, Modulo(P.ctx))
  {
    hide Val, Dec, Pow, TwoPow, Cong;
    var q, d := Modulo(P.ctx), Dec(P.ctx, t);
    if IsSquare(a, q) {
      assert Cong(Pow(d, TwoPow(M - 1)), 1, q);
    } else {
      PowTwoStep(d, M - 1);
      CongMul(Pow(d, TwoPow(M - 1)), -1, Pow(d, TwoPow(M - 1)), -1, q);
      assert Cong(Pow(d, TwoPow(M)), 1, q);
    }
  }

  lemma RoundInDomain(P: QParams, a: int, R: Fe6, t: Fe6, c: Fe6, M: nat, i: nat,
                      b: Fe6, b2: Fe6, t': Fe6, R': Fe6)
    requires ValidQ(P) && LoopState(P, a, R, t, c, M) && IsSquare(a, Modulo(P.ctx))
    requires 1 <= i < M && ExactOrder(Dec(P.ctx, t), i, Modulo(P.ctx))
    requires Cong(Dec(P.ctx, b), Pow(Dec(P.ctx, c), TwoPow(M - i - 1)), Modulo(P.ctx))
    requires Val(b2) < Modulo(P.ctx) && Val(t') < Modulo(P.ctx) && Val(R') < Modulo(P.ctx)
    requires Dec(P.ctx, b2) == Dec(P.ctx, b) * Dec(P.ctx, b) % Modulo(P.ctx)
    requires Dec(P.ctx, t') == Dec(P.ctx, t) * Dec(P.ctx, b2) % Modulo(P.ctx)
    requires Dec(P.ctx, R') == Dec(P.ctx, R) * Dec(P.ctx, b) % Modulo(P.ctx)
    ensures LoopState(P, a, R', t', b2, i)
  {
    hide Val, Dec, Pow, TwoPow, Cong, TonelliState;
    var C, q := P.ctx, Modulo(P.ctx);
    CongMod(Dec(C, b) * Dec(C, b), q);
    CongMod(Dec(C, t) * Dec(C, b2), q);
    CongMod(Dec(C, R) * Dec(C, b), q);
    TonelliRound(a, Dec(C, R), Dec(C, t), Dec(C, c), M, i, Dec(C, b),
                 Dec(C, R'), Dec(C, t'), Dec(C, b2), q);
  }

  /** Square root of a canonical element, with the source's guards as error results. */
  method TonelliQ(P: QParams, a: Fe6) returns (r: Result<Fe6>)
    requires ValidQ(P) && Val(a) < Modulo(P.ctx)
    ensures r.Ok? ==> SquareOf(Val(r.value), Val(a), Modulo(P.ctx))
    ensures r == Fatal(NoNonResidue) <==> Val(a) != 0 && !HasWitness(Modulo(P.ctx))
    ensures r == Fatal(OrderViolation) ==> !IsSquare(Val(a), Modulo(P.ctx))
    ensures P.e <= 100 && HasWitness(Modulo(P.ctx)) ==>
              if IsSquare(Val(a), Modulo(P.ctx)) then r.Ok? else r == Fatal(OrderViolation)
    ensures r != Fatal(DidNotConverge) && r != Fatal(N0Kernel)
  {
    hide Val, Dec, Pow, TwoPow, Cong, TonelliState, PowMod, ValidQ, IsSquare, Witness, HasWitness, ExactOrder, Valid, LoopState;
    QOdd(P);
    ghost var q, A := Modulo(P.ctx), Val(a);
    var isz := BnIsZero(a, 6);
    if isz {
      ZeroRoot(q);
      return Ok(a);
    }
    var z, nr := FindWitness(P);
    if !nr { return Fatal(NoNonResidue); }
    var C := P.ctx;
    var Ma := Mfrom(C, a);
    var mz := Mfrom(C, z);
    var c := Mpow(C, mz, P.sodd);
    var t := Mpow(C, Ma, P.sodd);
    SoddSmall(P);
    var e2 := HalfUp(P.sodd);
    var R := Mpow(C, Ma, e2);
    WitnessBelow(Val(z), q);
    SmallMod(A, q);
    SmallMod(Val(z), q);
    LoopStart(P, A, Val(z), R, t, c);
    DecOne(C);
    var M: nat, guard, wl := P.e, 0, 0;
    while t != C.r1
      invariant LoopState(P, A, R, t, c, M)
      invariant 0 <= wl == guard && M + wl <= P.e && wl <= 100
      decreases 101 - wl
    {
      LoopBounds(P, A, R, t, c, M);
      if Dec(C, t) == 1 { DecInjective(C, t, C.r1); }
      wl := wl + 1;
      if wl > 100 { return Fatal(LoopGuard); }
      guard := guard + 1;
      if guard > 2 * P.e + 8 { return Fatal(DidNotConverge); }
      if P.e <= 100 { OrderInReach(P, A, R, t, c, M); }
      var ord := OrderOf(C, t);
      if ord.Fatal? { return Fatal(LoopGuard); }
      var i := ord.value;
      OrderDecides(P, A, R, t, c, M, i);
      if i >= M { return Fatal(OrderViolation); }
      var b := SquareTimes(C, c, M - i - 1);
      var b2 := Mmul(C, b, b);
      ghost var R0, t0 := R, t;
      t := Mmul(C, t, b2);
      R := Mmul(C, R, b);
      RoundInDomain(P, A, R0, t0, c, M, i, b, b2, t, R);
      M := i;
      c := b2;
    }
    LoopBounds(P, A, R, t, c, M);
    FinalRoot(P, A, R, t, c, M);
    var root := Mto(C, R);
    r := Ok(root);
  }

  lemma LoopBounds(P: QParams, a: int, R: Fe6, t: Fe6, c: Fe6, M: nat)
    requires LoopState(P, a, R, t, c, M)
    ensures Val(R) < Modulo(P.ctx) && Val(t) < Modulo(P.ctx) && Val(c) < Modulo(P.ctx) && 1 <= M <= P.e
  {
  }

  lemma ZeroRoot(q: int)
    requires q > 2
    ensures SquareOf(0, 0, q) && IsSquare(0, q)
  {
    ZeroSquare(q);
  }

  lemma WitnessBelow(z: int, q: int)
    requires Witness(z, q)
    ensures 0 <= z < q && Cong(Pow(z, (q - 1) / 2), -1, q)
  {
  }

  lemma SoddSmall(P: QParams)
    requires ValidQ(P)
    ensures Val(P.sodd) + 1 < Radix(P.sodd)
  {
    hide Val, Cong, Pow, Radix, IsPrime, TwoPow;
    var s, w := Val(P.sodd), TwoPow(P.e);
    assert s <= s * w;
    RadixIsShift(P.sodd, |P.sodd|);
    RadixIsShift(P.ctx.m, |P.sodd|);
  }

  /** When t is 1 the element a is a square and R its root. */
  lemma FinalRoot(P: QParams, a: int, R: Fe6, t: Fe6, c: Fe6, M: nat)
    requires ValidQ(P) && LoopState(P, a, R, t, c, M) && Dec(P.ctx, t) == 1
    ensures SquareOf(Dec(P.ctx, R), a, Modulo(P.ctx)) && IsSquare(a, Modulo(P.ctx))
  {
    hide Val, Dec, Pow, TwoPow, Cong;
    var q := Modulo(P.ctx);
    if !IsSquare(a, q) {
      PowOne(TwoPow(M - 1));
      CongRefl(1, q);
      OneIsNotMinusOne(1, q);
    }
    CongRefl(1, q);
    TonelliDone(a, Dec(P.ctx, R), 1, Dec(P.ctx, c), M, q);
    RootFound(Dec(P.ctx, R), a, q);
  }
}
