/** When the gadget's in-place partial mix still gives the reference permutation, and when not. */
module GadgetAgreement {
  import opened IntegerLaws
  import opened Congruence
  import opened PrimeField
  import opened FieldOps
  import opened SquareRoot
  import opened Poseidon
  import opened PoseidonGadget

  // ------------------------------------------------------------- one round

  /** The third row ignores lane 1, or lane 1 passes through unchanged. */
  ghost predicate MixAgrees(M: seq<seq<int>>, p: Modulus)
    requires IsTable(M)
  {
    Cong(M[2][1], 0, p) || (Cong(M[1][0], 0, p) && Cong(M[1][1], 1, p) && Cong(M[1][2], 0, p))
  }

  function RawDot(m: seq<int>, s: State3): int
    requires |m| == 3
  {
    m[0] * s.s0 + m[1] * s.s1 + m[2] * s.s2
  }

  lemma DotEqual(m: seq<int>, s: State3, m': seq<int>, s': State3, p: Modulus)
    requires |m| == 3 && |m'| == 3
    ensures Dot3(m, s, p) == Dot3(m', s', p) <==> Cong(RawDot(m, s) - RawDot(m', s'), 0, p)
  {
    hide Cong, RawDot;
    var u, v := RawDot(m, s), RawDot(m', s');
    assert Dot3(m, s, p) == u % p && Dot3(m', s', p) == v % p by { DotIs(m, s, p); DotIs(m', s', p); }
    CongZeroSub(u, v, p);
    if Cong(u, v, p) { CongToMod(u, v, p); }
    if u % p == v % p { ModToCong(u, v, p); }
  }

  lemma DotIs(m: seq<int>, s: State3, p: Modulus)
    requires |m| == 3
    ensures Dot3(m, s, p) == RawDot(m, s) % p
  {
  }

  /** The difference of the two third rows on one state. */
  lemma RowGap(M: seq<seq<int>>, s: State3)
    requires IsTable(M)
    ensures RawDot(M[2], s) - RawDot(InPlaceMix(M)[2], s) == M[2][1] * (s.s1 - RawDot(M[1], s))
  {
    var a0, a1, a2, b0, b1, b2 := M[1][0], M[1][1], M[1][2], M[2][0], M[2][1], M[2][2];
    InPlaceIdentity(a0, a1, a2, b0, b1, b2, s);
    var d := a0 * s.s0 + a1 * s.s1 + a2 * s.s2;
    assert b1 * (s.s1 - d) == b1 * s.s1 - b1 * d;
  }

  /** The mixes agree on a state exactly when the third row ignores lane 1 or the second row keeps it. */
  lemma MixGap(M: seq<seq<int>>, s: State3, p: int)
    requires IsPrime(p) && IsTable(M)
    ensures Mix(M, s, p) == Mix(InPlaceMix(M), s, p) <==> Cong(M[2][1], 0, p) || Cong(s.s1, RawDot(M[1], s), p)
  {
    hide Cong, RawDot, InPlaceMix, Dot3;
    assert InPlaceMix(M)[0] == M[0] && InPlaceMix(M)[1] == M[1] by { InPlaceTop(M); }
    DotEqual(M[2], s, InPlaceMix(M)[2], s, p);
    RowGap(M, s);
    var b, g := M[2][1], s.s1 - RawDot(M[1], s);
    CongZeroSub(s.s1, RawDot(M[1], s), p);
    if Cong(b * g, 0, p) { NoZeroDivisors(b, g, p); }
    CongRefl(g, p);
    CongRefl(b, p);
    if Cong(b, 0, p) { CongMul(b, 0, g, g, p); }
    if Cong(g, 0, p) { CongMul(b, b, g, 0, p); }
  }

  lemma InPlaceTop(M: seq<seq<int>>)
    requires IsTable(M)
    ensures InPlaceMix(M)[0] == M[0] && InPlaceMix(M)[1] == M[1]
  {
  }

  /** sbox(0) = 0 and sbox(1) = 1. */
  lemma SboxFixed(p: int)
    requires p > 1
    ensures Sbox(0, p) == 0 && Sbox(1, p) == 1
  {
    hide Pow;
    ZeroPower(5);
    PowOne(5);
    SmallMod(0, p);
    SmallMod(1, p);
  }

  lemma ConstantTo(s: int, v: int, p: Modulus)
    requires 0 <= v < p
    ensures (s + (v - s)) % p == v
  {
    SmallMod(v, p);
  }

  /** Two tables give the same partial round on every state exactly under MixAgrees. */
  lemma PartialRoundsAgree(M: seq<seq<int>>, c: int, p: int)
    requires IsPrime(p) && IsTable(M)
    ensures (forall s: State3 :: PartialRound(s, c, M, p) == PartialRound(s, c, InPlaceMix(M), p)) <==> MixAgrees(M, p)
  {
    hide Cong, Sbox, Mix, InPlaceMix;
    forall s: State3 | MixAgrees(M, p) ensures PartialRound(s, c, M, p) == PartialRound(s, c, InPlaceMix(M), p) {
      AgreeingRound(M, s, c, p);
    }
    if !MixAgrees(M, p) {
      var t := Witness(M, p);
      var s := State3(t.s0 - c, t.s1, t.s2);
      PartialRoundAt(s, t, c, M, p);
      PartialRoundAt(s, t, c, InPlaceMix(M), p);
      MixGap(M, t, p);
    }
  }

  /** A partial round whose constant drives lane 0 to 0 or 1 is the mix alone. */
  lemma PartialRoundAt(s: State3, t: State3, c: int, L: seq<seq<int>>, p: int)
    requires p > 1 && IsTable(L) && 0 <= t.s0 <= 1 && s == State3(t.s0 - c, t.s1, t.s2)
    ensures PartialRound(s, c, L, p) == Mix(L, t, p)
  {
    hide Sbox, Mix;
    SboxFixed(p);
    SmallMod(t.s0, p);
    assert s.s0 + c == t.s0;
  }

  lemma AgreeingRound(M: seq<seq<int>>, s: State3, c: int, p: int)
    requires IsPrime(p) && IsTable(M) && MixAgrees(M, p)
    ensures PartialRound(s, c, M, p) == PartialRound(s, c, InPlaceMix(M), p)
  {
    hide Cong, Sbox, Mix, InPlaceMix;
    var t := State3(Sbox((s.s0 + c) % p, p), s.s1, s.s2);
    MixGap(M, t, p);
    if !Cong(M[2][1], 0, p) {
      CongRefl(t.s0, p);
      CongRefl(t.s1, p);
      CongRefl(t.s2, p);
      var m := M[1];
      CongMul(m[0], 0, t.s0, t.s0, p);
      CongMul(m[1], 1, t.s1, t.s1, p);
      CongMul(m[2], 0, t.s2, t.s2, p);
      CongAdd(m[0] * t.s0, 0, m[1] * t.s1, t.s1, p);
      CongAdd(m[0] * t.s0 + m[1] * t.s1, t.s1, m[2] * t.s2, 0, p);
      CongSym(RawDot(m, t), t.s1, p);
    }
  }

  /** A unit state on which the mixes part. */
  lemma Witness(M: seq<seq<int>>, p: int) returns (t: State3)
    requires IsPrime(p) && IsTable(M) && !MixAgrees(M, p)
    ensures 0 <= t.s0 <= 1 && !Cong(M[2][1], 0, p) && !Cong(t.s1, RawDot(M[1], t), p)
  {
    hide Cong;
    var m := M[1];
    if !Cong(m[0], 0, p) {
      t := State3(1, 0, 0);
      if Cong(0, m[0], p) { CongSym(0, m[0], p); }
    } else if !Cong(m[1], 1, p) {
      t := State3(0, 1, 0);
      if Cong(1, m[1], p) { CongSym(1, m[1], p); }
    } else {
      t := State3(0, 0, 1);
      if Cong(0, m[2], p) { CongSym(0, m[2], p); }
    }
  }

  // ---------------------------------------------------- where the gadget is right

  /** The gadget's output is the reference output for these constants and this input. */
  ghost predicate AgreesOn(s: State3, rc: seq<int>, rf: nat, rp: nat, M: seq<seq<int>>, p: Modulus)
    requires IsTable(M) && 6 * rf + rp <= |rc|
  {
    PermuteWith(s, rc, rf, rp, M, InPlaceMix(M), p).s0 == Permute(s, rc, rf, rp, M, p).s0
  }

  lemma {:induction false} AgreeingPartials(s: State3, rc: seq<int>, k: nat, r: nat, M: seq<seq<int>>, p: int)
    requires IsPrime(p) && IsTable(M) && MixAgrees(M, p) && k + r <= |rc|
    ensures PartialRounds(s, rc, k, r, M, p) == PartialRounds(s, rc, k, r, InPlaceMix(M), p)
    decreases r
  {
    hide PartialRound, MixAgrees, InPlaceMix;
    if r > 0 {
      AgreeingPartials(s, rc, k, r - 1, M, p);
      AgreeingRound(M, PartialRounds(s, rc, k, r - 1, M, p), rc[k + r - 1], p);
    }
  }

  /** The gadget gives the reference output on every input when the mixes agree, when there is no
      partial round, or when the one partial round is the whole permutation. */
  lemma GadgetAgrees(s: State3, rc: seq<int>, rf: nat, rp: nat, M: seq<seq<int>>, p: int)
    requires IsPrime(p) && IsTable(M) && 6 * rf + rp <= |rc|
    requires MixAgrees(M, p) || rp == 0 || (rp == 1 && rf == 0)
    ensures AgreesOn(s, rc, rf, rp, M, p)
  {
    hide FullRounds, PartialRound, MixAgrees, InPlaceMix;
    var s1 := FullRounds(s, rc, 0, rf, M, p);
    if MixAgrees(M, p) {
      AgreeingPartials(s1, rc, 3 * rf, rp, M, p);
    } else if rp == 1 && rf == 0 {
      NoRounds(s, rc, 0, M, p);
      assert PartialRounds(s, rc, 0, 0, M, p) == s == PartialRounds(s, rc, 0, 0, InPlaceMix(M), p);
      FirstLane(s, rc[0], M, p);
      NoRounds(PartialRound(s, rc[0], M, p), rc, 1, M, p);
      NoRounds(PartialRound(s, rc[0], InPlaceMix(M), p), rc, 1, M, p);
    } else {
      assert PartialRounds(s1, rc, 3 * rf, 0, M, p) == PartialRounds(s1, rc, 3 * rf, 0, InPlaceMix(M), p);
    }
  }

  lemma NoRounds(s: State3, rc: seq<int>, k: nat, M: seq<seq<int>>, p: Modulus)
    requires IsTable(M) && k <= |rc|
    ensures FullRounds(s, rc, k, 0, M, p) == s
  {
  }

  /** One partial round leaves lane 0 as the reference has it. */
  lemma FirstLane(s: State3, c: int, M: seq<seq<int>>, p: Modulus)
    requires IsTable(M)
    ensures PartialRound(s, c, M, p).s0 == PartialRound(s, c, InPlaceMix(M), p).s0
  {
    hide Sbox, Dot3;
  }

  // ---------------------------------------------------- where the gadget is wrong

  /** Every entry and the determinant are nonzero: part of what the construction of M asserts. */
  ghost predicate NonzeroEntries(M: seq<seq<int>>, p: Modulus)
    requires IsTable(M)
  {
    forall i, j :: 0 <= i < 3 && 0 <= j < 3 ==> !Cong(M[i][j], 0, p)
  }

  function Det2(a: int, b: int, c: int, d: int): int {
    a * d - b * c
  }

  function Det3(a: seq<int>, b: seq<int>, c: seq<int>): int
    requires |a| == 3 && |b| == 3 && |c| == 3
  {
    a[0] * Det2(b[1], b[2], c[1], c[2]) - a[1] * Det2(b[0], b[2], c[0], c[2]) + a[2] * Det2(b[0], b[1], c[0], c[1])
  }

  /** Every square minor is nonzero modulo p. */
  ghost predicate IsMds(M: seq<seq<int>>, p: Modulus)
    requires IsTable(M)
  {
    && NonzeroEntries(M, p)
    && (forall i, k, j, l :: 0 <= i < k < 3 && 0 <= j < l < 3 ==>
          !Cong(Det2(M[i][j], M[i][l], M[k][j], M[k][l]), 0, p))
    && !Cong(Det3(M[0], M[1], M[2]), 0, p)
  }

  lemma MdsFacts(M: seq<seq<int>>, p: Modulus)
    requires IsTable(M) && IsMds(M, p)
    ensures !Cong(M[0][0], 0, p) && !Cong(M[0][1], 0, p) && !Cong(M[0][2], 0, p)
    ensures !Cong(M[1][0], 0, p) && !Cong(M[2][1], 0, p) && !Cong(Det3(M[0], M[1], M[2]), 0, p)
  {
  }

  lemma ThirtyNonzero(p: int)
    requires IsPrime(p) && p > 5
    ensures !Cong(30, 0, p)
  {
    hide Cong, IsPrime;
    NonzeroResidue(2, p);
    NonzeroResidue(3, p);
    NonzeroResidue(5, p);
    ProductNonzero(2, 3, p);
    ProductNonzero(6, 5, p);
  }

  lemma SboxC(x: int, p: Modulus)
    ensures Cong(Sbox(x % p, p), Pow(x, 5), p)
  {
    hide Cong, Pow;
    CongMod(x, p);
    CongPow(x % p, x, 5, p);
    PowModCong(x % p, 5, p);
    CongTrans(Sbox(x % p, p), Pow(x % p, 5), Pow(x, 5), p);
  }

  lemma {:induction false} PowNonzero(d: int, e: nat, p: int)
    requires IsPrime(p) && !Cong(d, 0, p)
    ensures !Cong(Pow(d, e), 0, p)
  {
    hide Cong;
    if e == 0 {
      NonzeroResidue(1, p);
    } else {
      PowNonzero(d, e - 1, p);
      ProductNonzero(d, Pow(d, e - 1), p);
    }
  }

  /** The difference of two fifth powers at the constants -b and a - 2b. */
  lemma SboxGaps(a: int, b: int, p: int)
    requires p > 1
    ensures Cong(Sbox((a + (-b)) % p, p) - Sbox((b + (-b)) % p, p), Pow(a - b, 5), p)
    ensures Cong(Sbox((a + (a - 2 * b)) % p, p) - Sbox((b + (a - 2 * b)) % p, p), 31 * Pow(a - b, 5), p)
  {
    hide Cong, Sbox, Pow;
    var d := a - b;
    SboxC(a + (-b), p);
    SboxC(b + (-b), p);
    ZeroPower(5);
    assert a + (-b) == d && b + (-b) == 0;
    CongSub(Sbox(d % p, p), Pow(d, 5), Sbox(0 % p, p), 0, p);
    SboxC(a + (a - 2 * b), p);
    SboxC(b + (a - 2 * b), p);
    assert a + (a - 2 * b) == 2 * d && b + (a - 2 * b) == d;
    PowProduct(2, d, 5);
    assert Pow(2, 5) == 32 by { FifthPower(2); }
    CongSub(Sbox((2 * d) % p, p), 32 * Pow(d, 5), Sbox(d % p, p), Pow(d, 5), p);
  }

  /** The fifth power after adding the constant. */
  function Box(x: int, c: int, p: Modulus): int {
    Sbox((x + c) % p, p)
  }

  function Gap(m: int, u: int, v: int): int {
    m * u - m * v
  }

  /** With unequal inputs some round constant separates the scaled outputs from any offset. */
  lemma ChooseConstant(a: int, b: int, m: int, K: int, p: int) returns (c: int)
    requires IsPrime(p) && p > 5 && !Cong(a, b, p) && !Cong(m, 0, p)
    ensures !Cong(Gap(m, Box(a, c, p), Box(b, c, p)) + K, 0, p)
  {
    hide Cong, Sbox, Pow, IsPrime, Gap;
    var d := Pow(a - b, 5);
    SboxGaps(a, b, p);
    CongZeroSub(a, b, p);
    PowNonzero(a - b, 5, p);
    c := -b;
    var u, v := Sbox((a + c) % p, p), Sbox((b + c) % p, p);
    if Cong(Gap(m, u, v) + K, 0, p) {
      var c' := a - 2 * b;
      var u', v' := Sbox((a + c') % p, p), Sbox((b + c') % p, p);
      if Cong(Gap(m, u', v') + K, 0, p) {
        TwoGaps(m, u, v, u', v', K, d, p);
        ThirtyNonzero(p);
        ProductNonzero(m, 30, p);
        ProductNonzero(m * 30, d, p);
        assert false;
      }
      c := c';
    }
  }

  lemma TwoGaps(m: int, u: int, v: int, u': int, v': int, K: int, d: int, p: Modulus)
    requires Cong(u - v, d, p) && Cong(u' - v', 31 * d, p)
    requires Cong(Gap(m, u, v) + K, 0, p) && Cong(Gap(m, u', v') + K, 0, p)
    ensures Cong(m * 30 * d, 0, p)
  {
    hide Cong;
    CongSub(m * u' - m * v' + K, 0, m * u - m * v + K, 0, p);
    CongSub(u' - v', 31 * d, u - v, d, p);
    CongRefl(m, p);
    CongMul(m, m, u' - v' - (u - v), 30 * d, p);
    assert m * (u' - v' - (u - v)) == m * u' - m * v' + K - (m * u - m * v + K);
    CongSym(m * (u' - v' - (u - v)), m * (30 * d), p);
    CongTrans(m * (30 * d), m * (u' - v' - (u - v)), 0, p);
    assert m * (30 * d) == m * 30 * d;
  }

  /** With equal inputs, an offset linear in the fifth power is moved off zero by driving it to 0 or 1. */
  lemma ChooseUnit(a: int, k: int, K: int, p: int) returns (c: int)
    requires IsPrime(p) && !Cong(k, 0, p)
    ensures !Cong(K - k * Sbox((a + c) % p, p), 0, p)
  {
    hide Cong, Sbox, IsPrime;
    assert p > 1 by { NonzeroPrime(p); }
    SboxFixed(p);
    ConstantTo(a, 0, p);
    ConstantTo(a, 1, p);
    if Cong(K, 0, p) {
      c := 1 - a;
      if Cong(K - k * 1, 0, p) {
        CongSub(K, 0, K - k * 1, 0, p);
        assert false;
      }
    } else {
      c := 0 - a;
    }
  }

  lemma NonzeroPrime(p: int)
    requires IsPrime(p)
    ensures p > 1
  {
  }

  // ------------------------------------------------------- full rounds separate

  ghost predicate Reduced3(s: State3, p: Modulus) {
    0 <= s.s0 < p && 0 <= s.s1 < p && 0 <= s.s2 < p
  }

  /** det * x0 from y = A*x0 + B*x1 + C*x2, by expanding along y. */
  lemma Cramer(a0: int, b0: int, c0: int, a1: int, b1: int, c1: int, a2: int, b2: int, c2: int, x0: int, x1: int, x2: int)
    ensures (a0 * Det2(b1, c1, b2, c2) - a1 * Det2(b0, c0, b2, c2) + a2 * Det2(b0, c0, b1, c1)) * x0 ==
            (a0 * x0 + b0 * x1 + c0 * x2) * Det2(b1, c1, b2, c2)
            - (a1 * x0 + b1 * x1 + c1 * x2) * Det2(b0, c0, b2, c2)
            + (a2 * x0 + b2 * x1 + c2 * x2) * Det2(b0, c0, b1, c1)
  {
    var p, q, r := Det2(b1, c1, b2, c2), Det2(b0, c0, b2, c2), Det2(b0, c0, b1, c1);
    assert b0 * p - b1 * q + b2 * r == 0 by { Laplace(b0, b1, b2, c0, c1, c2); }
    assert c0 * p - c1 * q + c2 * r == 0 by { Laplace2(b0, b1, b2, c0, c1, c2); }
    assert (a0 * x0 + b0 * x1 + c0 * x2) * p == a0 * p * x0 + b0 * p * x1 + c0 * p * x2;
    assert (a1 * x0 + b1 * x1 + c1 * x2) * q == a1 * q * x0 + b1 * q * x1 + c1 * q * x2;
    assert (a2 * x0 + b2 * x1 + c2 * x2) * r == a2 * r * x0 + b2 * r * x1 + c2 * r * x2;
    assert (b0 * p - b1 * q + b2 * r) * x1 == b0 * p * x1 - b1 * q * x1 + b2 * r * x1;
    assert (c0 * p - c1 * q + c2 * r) * x2 == c0 * p * x2 - c1 * q * x2 + c2 * r * x2;
    assert (a0 * p - a1 * q + a2 * r) * x0 == a0 * p * x0 - a1 * q * x0 + a2 * r * x0;
  }

  lemma MinorTimes(k: int, a: int, b: int, c: int, d: int)
    ensures k * Det2(a, b, c, d) == k * (a * d) - k * (b * c)
  {
  }

  lemma Laplace(b0: int, b1: int, b2: int, c0: int, c1: int, c2: int)
    ensures b0 * Det2(b1, c1, b2, c2) - b1 * Det2(b0, c0, b2, c2) + b2 * Det2(b0, c0, b1, c1) == 0
  {
    hide Det2;
    MinorTimes(b0, b1, c1, b2, c2);
    MinorTimes(b1, b0, c0, b2, c2);
    MinorTimes(b2, b0, c0, b1, c1);
    SwapFirst(b1, b0, c2);
    SwapFirst(b2, b0, c1);
    SwapFirst(b2, c0, b1);
    SwapFirst(b1, c0, b2);
  }

  lemma Laplace2(b0: int, b1: int, b2: int, c0: int, c1: int, c2: int)
    ensures c0 * Det2(b1, c1, b2, c2) - c1 * Det2(b0, c0, b2, c2) + c2 * Det2(b0, c0, b1, c1) == 0
  {
    hide Det2;
    MinorTimes(c0, b1, c1, b2, c2);
    MinorTimes(c1, b0, c0, b2, c2);
    MinorTimes(c2, b0, c0, b1, c1);
    SwapFirst(c2, c0, b1);
    SwapFirst(c1, c0, b2);
    SwapFirst(c1, b0, c2);
    SwapFirst(c2, b0, c1);
  }

  /** A vector in the kernel of a nonsingular matrix has first coordinate zero; the other coordinates
      follow by exchanging columns. */
  lemma KernelFirst(a0: int, b0: int, c0: int, a1: int, b1: int, c1: int, a2: int, b2: int, c2: int,
                    x0: int, x1: int, x2: int, det: int, p: int)
    requires IsPrime(p) && !Cong(det, 0, p)
    requires det == a0 * Det2(b1, c1, b2, c2) - a1 * Det2(b0, c0, b2, c2) + a2 * Det2(b0, c0, b1, c1)
    requires Cong(a0 * x0 + b0 * x1 + c0 * x2, 0, p) && Cong(a1 * x0 + b1 * x1 + c1 * x2, 0, p)
    requires Cong(a2 * x0 + b2 * x1 + c2 * x2, 0, p)
    ensures Cong(x0, 0, p)
  {
    hide Cong, Det2;
    Cramer(a0, b0, c0, a1, b1, c1, a2, b2, c2, x0, x1, x2);
    var u, v, w := Det2(b1, c1, b2, c2), Det2(b0, c0, b2, c2), Det2(b0, c0, b1, c1);
    var y0, y1, y2 := a0 * x0 + b0 * x1 + c0 * x2, a1 * x0 + b1 * x1 + c1 * x2, a2 * x0 + b2 * x1 + c2 * x2;
    CongRefl(u, p);
    CongRefl(v, p);
    CongRefl(w, p);
    CongMul(y0, 0, u, u, p);
    CongMul(y1, 0, v, v, p);
    CongMul(y2, 0, w, w, p);
    CongSub(y0 * u, 0, y1 * v, 0, p);
    CongAdd(y0 * u - y1 * v, 0, y2 * w, 0, p);
    assert det * x0 == y0 * u - y1 * v + y2 * w;
    NoZeroDivisors(det, x0, p);
  }

  /** One term of an expansion along a, b or c, in products ordered a, b, c. */
  lemma TermA(a: int, b1: int, b2: int, c1: int, c2: int)
    ensures a * Det2(b1, b2, c1, c2) == a * (b1 * c2) - a * (b2 * c1)
  {
  }

  lemma TermB(b: int, a1: int, a2: int, c1: int, c2: int)
    ensures b * Det2(a1, a2, c1, c2) == a1 * (b * c2) - a2 * (b * c1)
  {
    assert b * (a1 * c2) == a1 * (b * c2);
    assert b * (a2 * c1) == a2 * (b * c1);
  }

  lemma TermC(c: int, a1: int, a2: int, b1: int, b2: int)
    ensures c * Det2(a1, a2, b1, b2) == a1 * (b2 * c) - a2 * (b1 * c)
  {
    assert c * (a1 * b2) == a1 * (b2 * c);
    assert c * (a2 * b1) == a2 * (b1 * c);
  }

  /** Expansion of the determinant along a column, the columns in any order. */
  lemma Expansion(a0: int, a1: int, a2: int, b0: int, b1: int, b2: int, c0: int, c1: int, c2: int)
    ensures a0 * Det2(b1, b2, c1, c2) - b0 * Det2(a1, a2, c1, c2) + c0 * Det2(a1, a2, b1, b2) ==
            a0 * Det2(b1, b2, c1, c2) - a1 * Det2(b0, b2, c0, c2) + a2 * Det2(b0, b1, c0, c1)
  {
    hide Det2;
    TermA(a0, b1, b2, c1, c2);
    TermB(b0, a1, a2, c1, c2);
    TermC(c0, a1, a2, b1, b2);
    TermA(a1, b0, b2, c0, c2);
    TermA(a2, b0, b1, c0, c1);
  }

  lemma DetSwap(a: int, b: int, c: int, d: int)
    ensures Det2(b, a, d, c) == -Det2(a, b, c, d)
  {
  }

  lemma DetColumns(a: seq<int>, b: seq<int>, c: seq<int>)
    requires |a| == 3 && |b| == 3 && |c| == 3
    ensures Det3(a, b, c) == a[0] * Det2(b[1], b[2], c[1], c[2]) - b[0] * Det2(a[1], a[2], c[1], c[2]) + c[0] * Det2(a[1], a[2], b[1], b[2])
    ensures -Det3(a, b, c) == a[1] * Det2(b[0], b[2], c[0], c[2]) - b[1] * Det2(a[0], a[2], c[0], c[2]) + c[1] * Det2(a[0], a[2], b[0], b[2])
    ensures -Det3(a, b, c) == a[2] * Det2(b[1], b[0], c[1], c[0]) - b[2] * Det2(a[1], a[0], c[1], c[0]) + c[2] * Det2(a[1], a[0], b[1], b[0])
  {
    hide Det2;
    Expansion(a[0], a[1], a[2], b[0], b[1], b[2], c[0], c[1], c[2]);
    Expansion(a[1], a[0], a[2], b[1], b[0], b[2], c[1], c[0], c[2]);
    Expansion(a[2], a[1], a[0], b[2], b[1], b[0], c[2], c[1], c[0]);
    DetSwap(b[0], b[1], c[0], c[1]);
    DetSwap(b[0], b[2], c[0], c[2]);
    DetSwap(b[1], b[2], c[1], c[2]);
    var x, y, z := Det2(b[1], b[2], c[1], c[2]), Det2(b[0], b[2], c[0], c[2]), Det2(b[0], b[1], c[0], c[1]);
    assert a[0] * -x == -(a[0] * x) && a[1] * -y == -(a[1] * y) && a[2] * -z == -(a[2] * z);
  }

  /** A nonsingular mix is injective modulo p. */
  lemma MixInjective(M: seq<seq<int>>, u: State3, v: State3, p: int)
    requires IsPrime(p) && IsTable(M) && !Cong(Det3(M[0], M[1], M[2]), 0, p)
    requires Mix(M, u, p) == Mix(M, v, p)
    ensures Cong(u.s0, v.s0, p) && Cong(u.s1, v.s1, p) && Cong(u.s2, v.s2, p)
  {
    hide Cong, Dot3, Det3, Det2, IsPrime;
    var a, b, c, det := M[0], M[1], M[2], Det3(M[0], M[1], M[2]);
    var x0, x1, x2 := u.s0 - v.s0, u.s1 - v.s1, u.s2 - v.s2;
    RowKernel(a, u, v, p);
    RowKernel(b, u, v, p);
    RowKernel(c, u, v, p);
    DetColumns(a, b, c);
    if Cong(-det, 0, p) {
      CongRefl(0, p);
      CongSub(0, 0, -det, 0, p);
    }
    KernelFirst(a[0], a[1], a[2], b[0], b[1], b[2], c[0], c[1], c[2], x0, x1, x2, det, p);
    KernelFirst(a[1], a[0], a[2], b[1], b[0], b[2], c[1], c[0], c[2], x1, x0, x2, -det, p);
    KernelFirst(a[2], a[1], a[0], b[2], b[1], b[0], c[2], c[1], c[0], x2, x1, x0, -det, p);
    CongZeroSub(u.s0, v.s0, p);
    CongZeroSub(u.s1, v.s1, p);
    CongZeroSub(u.s2, v.s2, p);
  }

  lemma RowKernel(m: seq<int>, u: State3, v: State3, p: Modulus)
    requires |m| == 3 && Dot3(m, u, p) == Dot3(m, v, p)
    ensures var x0, x1, x2 := u.s0 - v.s0, u.s1 - v.s1, u.s2 - v.s2;
            && Cong(m[0] * x0 + m[1] * x1 + m[2] * x2, 0, p)
            && Cong(m[1] * x1 + m[0] * x0 + m[2] * x2, 0, p)
            && Cong(m[2] * x2 + m[1] * x1 + m[0] * x0, 0, p)
  {
    hide Cong, Dot3;
    DotEqual(m, u, m, v, p);
    assert m[0] * (u.s0 - v.s0) == m[0] * u.s0 - m[0] * v.s0;
    assert m[1] * (u.s1 - v.s1) == m[1] * u.s1 - m[1] * v.s1;
    assert m[2] * (u.s2 - v.s2) == m[2] * u.s2 - m[2] * v.s2;
  }

  lemma SboxSeparates(a: int, b: int, p: int)
    requires IsPrime(p) && 0 <= a < p && 0 <= b < p && a != b
    ensures !Cong(Sbox((a + (-b)) % p, p), Sbox((b + (-b)) % p, p), p)
  {
    hide Cong, Sbox, Pow, IsPrime;
    NonzeroPrime(p);
    EqualC(a, b, p);
    CongZeroSub(a, b, p);
    PowNonzero(a - b, 5, p);
    SboxGaps(a, b, p);
    var u, v, d := Sbox((a + (-b)) % p, p), Sbox((b + (-b)) % p, p), Pow(a - b, 5);
    CongZeroSub(u, v, p);
    if Cong(u, v, p) {
      CongSym(u - v, d, p);
      CongTrans(d, u - v, 0, p);
    }
  }

  /** Constants that keep two different states different through a full round. */
  lemma FullSeparates(s: State3, t: State3, M: seq<seq<int>>, p: int)
    requires IsPrime(p) && IsTable(M) && !Cong(Det3(M[0], M[1], M[2]), 0, p)
    requires Reduced3(s, p) && Reduced3(t, p) && s != t
    ensures FullRound(s, -t.s0, -t.s1, -t.s2, M, p) != FullRound(t, -t.s0, -t.s1, -t.s2, M, p)
  {
    hide Cong, Sbox, Dot3, Det3, Mix, IsPrime;
    var u := State3(Sbox((s.s0 + -t.s0) % p, p), Sbox((s.s1 + -t.s1) % p, p), Sbox((s.s2 + -t.s2) % p, p));
    var v := State3(Sbox((t.s0 + -t.s0) % p, p), Sbox((t.s1 + -t.s1) % p, p), Sbox((t.s2 + -t.s2) % p, p));
    if Mix(M, u, p) == Mix(M, v, p) {
      MixInjective(M, u, v, p);
      if s.s0 != t.s0 {
        SboxSeparates(s.s0, t.s0, p);
      } else if s.s1 != t.s1 {
        SboxSeparates(s.s1, t.s1, p);
      } else {
        SboxSeparates(s.s2, t.s2, p);
      }
    }
  }

  lemma FullReduced(s: State3, c0: int, c1: int, c2: int, M: seq<seq<int>>, p: Modulus)
    requires IsTable(M)
    ensures Reduced3(FullRound(s, c0, c1, c2, M, p), p)
  {
    hide Sbox;
  }

  /** Rounds depend only on their own stretch of constants. */
  lemma {:induction false} FullSlice(s: State3, rc: seq<int>, k: nat, rc': seq<int>, k': nat, r: nat, M: seq<seq<int>>, p: Modulus)
    requires IsTable(M) && k + 3 * r <= |rc| && k' + 3 * r <= |rc'|
    requires rc[k..k + 3 * r] == rc'[k'..k' + 3 * r]
    ensures FullRounds(s, rc, k, r, M, p) == FullRounds(s, rc', k', r, M, p)
    decreases r
  {
    hide FullRound;
    if r > 0 {
      var j := 3 * (r - 1);
      var x, y := rc[k..k + 3 * r], rc'[k'..k' + 3 * r];
      assert rc[k..k + j] == x[..j] && rc'[k'..k' + j] == y[..j];
      FullSlice(s, rc, k, rc', k', r - 1, M, p);
      assert rc[k + j] == x[j] && rc[k + j + 1] == x[j + 1] && rc[k + j + 2] == x[j + 2];
      assert rc'[k' + j] == y[j] && rc'[k' + j + 1] == y[j + 1] && rc'[k' + j + 2] == y[j + 2];
    }
  }

  lemma {:induction false} PartialSlice(s: State3, rc: seq<int>, k: nat, rc': seq<int>, k': nat, r: nat, L: seq<seq<int>>, p: Modulus)
    requires IsTable(L) && k + r <= |rc| && k' + r <= |rc'| && rc[k..k + r] == rc'[k'..k' + r]
    ensures PartialRounds(s, rc, k, r, L, p) == PartialRounds(s, rc', k', r, L, p)
    decreases r
  {
    hide PartialRound;
    if r > 0 {
      var x, y := rc[k..k + r], rc'[k'..k' + r];
      var h := r - 1;
      assert rc[k..k + h] == x[..h];
      assert rc'[k'..k' + h] == y[..h];
      PartialSlice(s, rc, k, rc', k', r - 1, L, p);
      assert rc[k + r - 1] == x[r - 1] && rc'[k' + r - 1] == y[r - 1];
    }
  }

  /** Three more constants are one more full round. */
  lemma FullExtend(s: State3, cs: seq<int>, c0: int, c1: int, c2: int, r: nat, M: seq<seq<int>>, p: Modulus)
    requires IsTable(M) && |cs| == 3 * r
    ensures FullRounds(s, cs + [c0, c1, c2], 0, r + 1, M, p) == FullRound(FullRounds(s, cs, 0, r, M, p), c0, c1, c2, M, p)
  {
    hide FullRound;
    var ds := cs + [c0, c1, c2];
    assert ds[0..3 * r] == cs[0..3 * r];
    FullSlice(s, ds, 0, cs, 0, r, M, p);
  }

  /** Constants under which r full rounds keep two states different. */
  lemma {:induction false} StatesSeparate(s: State3, t: State3, r: nat, M: seq<seq<int>>, p: int) returns (cs: seq<int>)
    requires IsPrime(p) && p > 5 && IsTable(M) && !Cong(Det3(M[0], M[1], M[2]), 0, p)
    requires Reduced3(s, p) && Reduced3(t, p) && s != t
    ensures |cs| == 3 * r
    ensures var s', t' := FullRounds(s, cs, 0, r, M, p), FullRounds(t, cs, 0, r, M, p);
            s' != t' && Reduced3(s', p) && Reduced3(t', p)
    decreases r
  {
    hide Cong, FullRound, FullRounds, Det3, Reduced3, IsPrime;
    if r == 0 {
      cs := [];
      NoRounds(s, cs, 0, M, p);
      NoRounds(t, cs, 0, M, p);
    } else {
      var ds := StatesSeparate(s, t, r - 1, M, p);
      var s', t' := FullRounds(s, ds, 0, r - 1, M, p), FullRounds(t, ds, 0, r - 1, M, p);
      cs := ds + [-t'.s0, -t'.s1, -t'.s2];
      FullSeparates(s', t', M, p);
      FullExtend(s, ds, -t'.s0, -t'.s1, -t'.s2, r - 1, M, p);
      FullExtend(t, ds, -t'.s0, -t'.s1, -t'.s2, r - 1, M, p);
      FullReduced(s', -t'.s0, -t'.s1, -t'.s2, M, p);
      FullReduced(t', -t'.s0, -t'.s1, -t'.s2, M, p);
    }
  }

  /** The difference of two dot products, arranged around each lane. */
  lemma DotGapForms(m: seq<int>, u: State3, v: State3)
    requires |m| == 3
    ensures var g := RawDot(m, u) - RawDot(m, v);
            var g0, g1, g2 := Gap(m[0], u.s0, v.s0), Gap(m[1], u.s1, v.s1), Gap(m[2], u.s2, v.s2);
            g == g0 + (g1 + g2) && g == g1 + (g0 + g2) && g == g2 + (g0 + g1)
  {
  }

  /** The state a full round mixes. */
  function Boxed(s: State3, c0: int, c1: int, c2: int, p: Modulus): State3 {
    State3(Box(s.s0, c0, p), Box(s.s1, c1, p), Box(s.s2, c2, p))
  }

  lemma FirstLanesDiffer(s: State3, t: State3, c0: int, c1: int, c2: int, M: seq<seq<int>>, p: Modulus)
    requires IsTable(M)
    requires !Cong(RawDot(M[0], Boxed(s, c0, c1, c2, p)) - RawDot(M[0], Boxed(t, c0, c1, c2, p)), 0, p)
    ensures FullRound(s, c0, c1, c2, M, p).s0 != FullRound(t, c0, c1, c2, M, p).s0
  {
    hide Cong, Sbox, Dot3, RawDot;
    DotEqual(M[0], Boxed(s, c0, c1, c2, p), M[0], Boxed(t, c0, c1, c2, p), p);
  }

  /** Constants under which one full round sends two different states to different first lanes. */
  lemma LanesSeparate(s: State3, t: State3, M: seq<seq<int>>, p: int) returns (c0: int, c1: int, c2: int)
    requires IsPrime(p) && p > 5 && IsTable(M) && IsMds(M, p)
    requires Reduced3(s, p) && Reduced3(t, p) && s != t
    ensures FullRound(s, c0, c1, c2, M, p).s0 != FullRound(t, c0, c1, c2, M, p).s0
  {
    hide Cong, Sbox, Dot3, IsMds, IsPrime, RawDot, FullRound, Gap;
    MdsFacts(M, p);
    c0, c1, c2 := 0, 0, 0;
    if s.s0 != t.s0 {
      c0 := SeparateLane0(s, t, M[0], p);
    } else if s.s1 != t.s1 {
      c1 := SeparateLane1(s, t, M[0], p);
    } else {
      c2 := SeparateLane2(s, t, M[0], p);
    }
    FirstLanesDiffer(s, t, c0, c1, c2, M, p);
  }

  lemma SeparateLane0(s: State3, t: State3, m: seq<int>, p: int) returns (c: int)
    requires IsPrime(p) && p > 5 && |m| == 3 && !Cong(m[0], 0, p) && Reduced3(s, p) && Reduced3(t, p) && s.s0 != t.s0
    ensures !Cong(RawDot(m, Boxed(s, c, 0, 0, p)) - RawDot(m, Boxed(t, c, 0, 0, p)), 0, p)
  {
    hide Cong, Box, IsPrime, RawDot, Gap;
    EqualC(s.s0, t.s0, p);
    var u, v := Boxed(s, 0, 0, 0, p), Boxed(t, 0, 0, 0, p);
    c := ChooseConstant(s.s0, t.s0, m[0], Gap(m[1], u.s1, v.s1) + Gap(m[2], u.s2, v.s2), p);
    DotGapForms(m, Boxed(s, c, 0, 0, p), Boxed(t, c, 0, 0, p));
  }

  lemma SeparateLane1(s: State3, t: State3, m: seq<int>, p: int) returns (c: int)
    requires IsPrime(p) && p > 5 && |m| == 3 && !Cong(m[1], 0, p) && Reduced3(s, p) && Reduced3(t, p) && s.s1 != t.s1
    ensures !Cong(RawDot(m, Boxed(s, 0, c, 0, p)) - RawDot(m, Boxed(t, 0, c, 0, p)), 0, p)
  {
    hide Cong, Box, IsPrime, RawDot, Gap;
    EqualC(s.s1, t.s1, p);
    var u, v := Boxed(s, 0, 0, 0, p), Boxed(t, 0, 0, 0, p);
    c := ChooseConstant(s.s1, t.s1, m[1], Gap(m[0], u.s0, v.s0) + Gap(m[2], u.s2, v.s2), p);
    DotGapForms(m, Boxed(s, 0, c, 0, p), Boxed(t, 0, c, 0, p));
  }

  lemma SeparateLane2(s: State3, t: State3, m: seq<int>, p: int) returns (c: int)
    requires IsPrime(p) && p > 5 && |m| == 3 && !Cong(m[2], 0, p) && Reduced3(s, p) && Reduced3(t, p) && s.s2 != t.s2
    ensures !Cong(RawDot(m, Boxed(s, 0, 0, c, p)) - RawDot(m, Boxed(t, 0, 0, c, p)), 0, p)
  {
    hide Cong, Box, IsPrime, RawDot, Gap;
    EqualC(s.s2, t.s2, p);
    var u, v := Boxed(s, 0, 0, 0, p), Boxed(t, 0, 0, 0, p);
    c := ChooseConstant(s.s2, t.s2, m[2], Gap(m[0], u.s0, v.s0) + Gap(m[1], u.s1, v.s1), p);
    DotGapForms(m, Boxed(s, 0, 0, c, p), Boxed(t, 0, 0, c, p));
  }

  /** Constants under which r > 0 full rounds send two different states to different first lanes. */
  lemma OutputsSeparate(s: State3, t: State3, r: nat, M: seq<seq<int>>, p: int) returns (cs: seq<int>)
    requires IsPrime(p) && p > 5 && IsTable(M) && IsMds(M, p) && r > 0
    requires Reduced3(s, p) && Reduced3(t, p) && s != t
    ensures |cs| == 3 * r && FullRounds(s, cs, 0, r, M, p).s0 != FullRounds(t, cs, 0, r, M, p).s0
  {
    hide Cong, FullRound, FullRounds, IsMds, IsPrime, Reduced3;
    MdsFacts(M, p);
    var ds := StatesSeparate(s, t, r - 1, M, p);
    var s', t' := FullRounds(s, ds, 0, r - 1, M, p), FullRounds(t, ds, 0, r - 1, M, p);
    var c0, c1, c2 := LanesSeparate(s', t', M, p);
    cs := ds + [c0, c1, c2];
    FullExtend(s, ds, c0, c1, c2, r - 1, M, p);
    FullExtend(t, ds, c0, c1, c2, r - 1, M, p);
  }

  // -------------------------------------------------- partial rounds come apart

  lemma PartialDots(s: State3, c: int, L: seq<seq<int>>, p: Modulus)
    requires IsTable(L)
    ensures var u := State3(Sbox((s.s0 + c) % p, p), s.s1, s.s2);
            PartialRound(s, c, L, p) == State3(Dot3(L[0], u, p), Dot3(L[1], u, p), Dot3(L[2], u, p))
    ensures Reduced3(PartialRound(s, c, L, p), p)
  {
    hide Sbox;
  }

  /** From states that differ in lane 0 some constant makes the first lanes differ again. */
  lemma FirstLanesApart(s: State3, t: State3, M: seq<seq<int>>, p: int) returns (c: int)
    requires IsPrime(p) && p > 5 && IsTable(M) && IsMds(M, p) && !Cong(s.s0, t.s0, p)
    ensures PartialRound(s, c, M, p).s0 != PartialRound(t, c, InPlaceMix(M), p).s0
  {
    hide Cong, Sbox, Dot3, IsMds, IsPrime, Gap, RawDot, InPlaceMix;
    MdsFacts(M, p);
    InPlaceTop(M);
    var m := M[0];
    c := ChooseConstant(s.s0, t.s0, m[0], Gap(m[1], s.s1, t.s1) + Gap(m[2], s.s2, t.s2), p);
    PartialDots(s, c, M, p);
    PartialDots(t, c, InPlaceMix(M), p);
    var u, v := State3(Sbox((s.s0 + c) % p, p), s.s1, s.s2), State3(Sbox((t.s0 + c) % p, p), t.s1, t.s2);
    DotGapForms(m, u, v);
    DotEqual(m, u, m, v, p);
  }

  /** sbox sees only the class of its input. */
  lemma SameSbox(a: int, b: int, c: int, p: Modulus)
    requires Cong(a, b, p)
    ensures (a + c) % p == (b + c) % p
  {
    hide Cong;
    CongRefl(c, p);
    CongAdd(a, b, c, c, p);
    CongToMod(a + c, b + c, p);
  }

  /** The third-row difference when the lanes 0 agree: a constant minus M21*M10 times the sbox. */
  lemma ThirdRowGap(s: State3, t: State3, x: int, M: seq<seq<int>>)
    requires IsTable(M)
    ensures RawDot(M[2], State3(x, s.s1, s.s2)) - RawDot(InPlaceMix(M)[2], State3(x, t.s1, t.s2)) ==
            ThirdOffset(s, t, M) - M[2][1] * M[1][0] * x
  {
    var a, b := M[1], M[2];
    assert (b[0] + b[1] * a[0]) * x == b[0] * x + b[1] * a[0] * x;
  }

  function ThirdOffset(s: State3, t: State3, M: seq<seq<int>>): int
    requires IsTable(M)
  {
    M[2][1] * s.s1 + M[2][2] * s.s2 - M[2][1] * M[1][1] * t.s1 - (M[2][2] + M[2][1] * M[1][2]) * t.s2
  }

  /** Some constant makes the reference and the in-place round differ from any two states. */
  lemma RoundsApart(s: State3, t: State3, M: seq<seq<int>>, p: int) returns (c: int)
    requires IsPrime(p) && p > 5 && IsTable(M) && IsMds(M, p)
    ensures PartialRound(s, c, M, p) != PartialRound(t, c, InPlaceMix(M), p)
  {
    hide Cong, Sbox, Dot3, IsMds, IsPrime, InPlaceMix, RawDot, ThirdOffset;
    if !Cong(s.s0, t.s0, p) {
      c := FirstLanesApart(s, t, M, p);
    } else {
      MdsFacts(M, p);
      ProductNonzero(M[2][1], M[1][0], p);
      c := ChooseUnit(s.s0, M[2][1] * M[1][0], ThirdOffset(s, t, M), p);
      SameSbox(s.s0, t.s0, c, p);
      var x := Sbox((s.s0 + c) % p, p);
      ThirdRowGap(s, t, x, M);
      PartialDots(s, c, M, p);
      PartialDots(t, c, InPlaceMix(M), p);
      DotEqual(M[2], State3(x, s.s1, s.s2), InPlaceMix(M)[2], State3(x, t.s1, t.s2), p);
    }
  }

  /** Extending the constants by one is one more round. */
  lemma PartialExtend(s: State3, cs: seq<int>, c: int, r: nat, L: seq<seq<int>>, p: Modulus)
    requires IsTable(L) && |cs| == r
    ensures PartialRounds(s, cs + [c], 0, r + 1, L, p) == PartialRound(PartialRounds(s, cs, 0, r, L, p), c, L, p)
  {
    hide PartialRound;
    var ds := cs + [c];
    assert ds[0..r] == cs[0..r];
    PartialSlice(s, ds, 0, cs, 0, r, L, p);
  }

  /** r > 0 partial rounds end in different states for some constants. */
  lemma PartialsApart(s: State3, r: nat, M: seq<seq<int>>, p: int) returns (cs: seq<int>)
    requires IsPrime(p) && p > 5 && IsTable(M) && IsMds(M, p) && r > 0
    ensures |cs| == r
    ensures var t, t' := PartialRounds(s, cs, 0, r, M, p), PartialRounds(s, cs, 0, r, InPlaceMix(M), p);
            t != t' && Reduced3(t, p) && Reduced3(t', p)
  {
    hide Cong, PartialRound, IsMds, IsPrime, InPlaceMix, PartialRounds, Reduced3;
    var zs := seq(r - 1, _ => 0);
    var u, u' := PartialRounds(s, zs, 0, r - 1, M, p), PartialRounds(s, zs, 0, r - 1, InPlaceMix(M), p);
    var c := RoundsApart(u, u', M, p);
    cs := zs + [c];
    PartialExtend(s, zs, c, r - 1, M, p);
    PartialExtend(s, zs, c, r - 1, InPlaceMix(M), p);
    PartialDots(u, c, M, p);
    PartialDots(u', c, InPlaceMix(M), p);
  }

  /** Two rounds suffice to bring the difference to lane 0. */
  lemma TwoRoundsApart(s: State3, t: State3, M: seq<seq<int>>, p: int) returns (c: int, d: int)
    requires IsPrime(p) && p > 5 && IsTable(M) && IsMds(M, p)
    ensures PartialRound(PartialRound(s, c, M, p), d, M, p).s0 !=
            PartialRound(PartialRound(t, c, InPlaceMix(M), p), d, InPlaceMix(M), p).s0
  {
    hide Cong, PartialRound, Sbox, Dot3, IsMds, IsPrime, InPlaceMix, RawDot, ThirdOffset;
    if !Cong(s.s0, t.s0, p) {
      c := FirstLanesApart(s, t, M, p);
      d := SecondRound(s, t, c, M, p);
    } else {
      var g := M[0][1] * (s.s1 - t.s1) + M[0][2] * (s.s2 - t.s2);
      if !Cong(g, 0, p) {
        c := 0;
        FirstLaneGap(s, t, c, M, p);
        d := SecondRound(s, t, c, M, p);
      } else {
        c := LateGap(s, t, M, p);
        d := 0;
      }
    }
  }

  /** First lanes already apart after one round stay apart for some second constant. */
  lemma SecondRound(s: State3, t: State3, c: int, M: seq<seq<int>>, p: int) returns (d: int)
    requires IsPrime(p) && p > 5 && IsTable(M) && IsMds(M, p)
    requires PartialRound(s, c, M, p).s0 != PartialRound(t, c, InPlaceMix(M), p).s0
    ensures PartialRound(PartialRound(s, c, M, p), d, M, p).s0 !=
            PartialRound(PartialRound(t, c, InPlaceMix(M), p), d, InPlaceMix(M), p).s0
  {
    hide Cong, PartialRound, IsMds, IsPrime, InPlaceMix;
    var u, v := PartialRound(s, c, M, p), PartialRound(t, c, InPlaceMix(M), p);
    PartialDots(s, c, M, p);
    PartialDots(t, c, InPlaceMix(M), p);
    EqualC(u.s0, v.s0, p);
    d := FirstLanesApart(u, v, M, p);
  }

  /** A row on states that share lane 0. */
  lemma RowSameFirst(m: seq<int>, x: int, s: State3, t: State3)
    requires |m| == 3
    ensures RawDot(m, State3(x, s.s1, s.s2)) - RawDot(m, State3(x, t.s1, t.s2)) ==
            m[1] * (s.s1 - t.s1) + m[2] * (s.s2 - t.s2)
  {
    assert m[1] * (s.s1 - t.s1) == m[1] * s.s1 - m[1] * t.s1;
    assert m[2] * (s.s2 - t.s2) == m[2] * s.s2 - m[2] * t.s2;
  }

  /** Lanes 0 equal before the round: after it they differ by the mix of the other lanes. */
  lemma FirstLaneGap(s: State3, t: State3, c: int, M: seq<seq<int>>, p: Modulus)
    requires IsTable(M) && Cong(s.s0, t.s0, p)
    ensures PartialRound(s, c, M, p).s0 == PartialRound(t, c, InPlaceMix(M), p).s0 <==>
            Cong(M[0][1] * (s.s1 - t.s1) + M[0][2] * (s.s2 - t.s2), 0, p)
  {
    hide Cong, PartialRound, Sbox, Dot3, RawDot, InPlaceMix;
    SameSbox(s.s0, t.s0, c, p);
    var x, m := Sbox((s.s0 + c) % p, p), M[0];
    PartialDots(s, c, M, p);
    PartialDots(t, c, InPlaceMix(M), p);
    InPlaceTop(M);
    DotEqual(m, State3(x, s.s1, s.s2), m, State3(x, t.s1, t.s2), p);
    RowSameFirst(m, x, s, t);
  }

  /** The gap that the second round sees, from the gaps in lanes 1 and 2. */
  lemma LateSum(m1: int, m2: int, d1: int, d2: int, e1: int, e2: int, k: int, x: int, p: Modulus)
    requires Cong(d1, e1, p) && Cong(d2, e2 - k * x, p) && !Cong(m1 * e1 + m2 * e2 - m2 * k * x, 0, p)
    ensures !Cong(m1 * d1 + m2 * d2, 0, p)
  {
    hide Cong;
    CongRefl(m1, p);
    CongRefl(m2, p);
    CongMul(m1, m1, d1, e1, p);
    CongMul(m2, m2, d2, e2 - k * x, p);
    CongAdd(m1 * d1, m1 * e1, m2 * d2, m2 * (e2 - k * x), p);
    assert m2 * (e2 - k * x) == m2 * e2 - m2 * k * x by { assert m2 * (k * x) == m2 * k * x; }
    var gap, total := m1 * d1 + m2 * d2, m1 * e1 + m2 * e2 - m2 * k * x;
    if Cong(gap, 0, p) {
      CongSym(gap, total, p);
      CongTrans(total, gap, 0, p);
    }
  }

  /** Lanes 0 equal before and after the first round: the third lane carries the difference into the
      second round. */
  lemma LateGap(s: State3, t: State3, M: seq<seq<int>>, p: int) returns (c: int)
    requires IsPrime(p) && p > 5 && IsTable(M) && IsMds(M, p) && Cong(s.s0, t.s0, p)
    requires Cong(M[0][1] * (s.s1 - t.s1) + M[0][2] * (s.s2 - t.s2), 0, p)
    ensures PartialRound(PartialRound(s, c, M, p), 0, M, p).s0 !=
            PartialRound(PartialRound(t, c, InPlaceMix(M), p), 0, InPlaceMix(M), p).s0
  {
    hide Cong, PartialRound, Sbox, Dot3, IsMds, IsPrime, InPlaceMix, RawDot, ThirdOffset;
    MdsFacts(M, p);
    var e1 := M[1][1] * (s.s1 - t.s1) + M[1][2] * (s.s2 - t.s2);
    c := LateChoice(s.s0, M[0][1], M[0][2], M[2][1] * M[1][0], e1, ThirdOffset(s, t, M), p) by {
      ProductNonzero(M[2][1], M[1][0], p);
    }
    LateGapAt(s, t, c, M, e1, ThirdOffset(s, t, M), M[2][1] * M[1][0], p);
  }

  /** A constant that keeps the offset of the second round off zero. */
  lemma LateChoice(a: int, m1: int, m2: int, k: int, e1: int, e2: int, p: int) returns (c: int)
    requires IsPrime(p) && !Cong(m2, 0, p) && !Cong(k, 0, p)
    ensures !Cong(m1 * e1 + m2 * e2 - m2 * k * Sbox((a + c) % p, p), 0, p)
  {
    hide Cong, Sbox, IsPrime;
    ProductNonzero(m2, k, p);
    c := ChooseUnit(a, m2 * k, m1 * e1 + m2 * e2, p);
  }

  lemma LateGapAt(s: State3, t: State3, c: int, M: seq<seq<int>>, e1: int, e2: int, k: int, p: Modulus)
    requires IsTable(M) && Cong(s.s0, t.s0, p)
    requires Cong(M[0][1] * (s.s1 - t.s1) + M[0][2] * (s.s2 - t.s2), 0, p)
    requires e1 == M[1][1] * (s.s1 - t.s1) + M[1][2] * (s.s2 - t.s2)
    requires e2 == ThirdOffset(s, t, M) && k == M[2][1] * M[1][0]
    requires !Cong(M[0][1] * e1 + M[0][2] * e2 - M[0][2] * k * Sbox((s.s0 + c) % p, p), 0, p)
    ensures PartialRound(PartialRound(s, c, M, p), 0, M, p).s0 !=
            PartialRound(PartialRound(t, c, InPlaceMix(M), p), 0, InPlaceMix(M), p).s0
  {
    hide Cong, PartialRound, Sbox, InPlaceMix, ThirdOffset;
    var x := Sbox((s.s0 + c) % p, p);
    var u, v := PartialRound(s, c, M, p), PartialRound(t, c, InPlaceMix(M), p);
    FirstLaneGap(s, t, c, M, p);
    LaneGaps(s, t, c, x, M, p);
    LateSum(M[0][1], M[0][2], u.s1 - v.s1, u.s2 - v.s2, e1, e2, k, x, p);
    CongRefl(u.s0, p);
    FirstLaneGap(u, v, 0, M, p);
  }

  /** The differences in lanes 1 and 2 after one round from states with equal lanes 0. */
  lemma LaneGaps(s: State3, t: State3, c: int, x: int, M: seq<seq<int>>, p: Modulus)
    requires IsTable(M) && Cong(s.s0, t.s0, p) && x == Sbox((s.s0 + c) % p, p)
    ensures var u, v := PartialRound(s, c, M, p), PartialRound(t, c, InPlaceMix(M), p);
            && Cong(u.s1 - v.s1, M[1][1] * (s.s1 - t.s1) + M[1][2] * (s.s2 - t.s2), p)
            && Cong(u.s2 - v.s2, ThirdOffset(s, t, M) - M[2][1] * M[1][0] * x, p)
  {
    hide Cong, PartialRound, Sbox, ThirdOffset, InPlaceMix, RawDot, Dot3;
    SameSbox(s.s0, t.s0, c, p);
    PartialDots(s, c, M, p);
    PartialDots(t, c, InPlaceMix(M), p);
    InPlaceTop(M);
    var su, tv := State3(x, s.s1, s.s2), State3(x, t.s1, t.s2);
    DotDifference(M[1], su, M[1], tv, p);
    RowSameFirst(M[1], x, s, t);
    DotDifference(M[2], su, InPlaceMix(M)[2], tv, p);
    ThirdRowGap(s, t, x, M);
  }

  lemma DotDifference(m: seq<int>, s: State3, m': seq<int>, s': State3, p: Modulus)
    requires |m| == 3 && |m'| == 3
    ensures Cong(Dot3(m, s, p) - Dot3(m', s', p), RawDot(m, s) - RawDot(m', s'), p)
  {
    hide Cong;
    CongMod(RawDot(m, s), p);
    CongMod(RawDot(m', s'), p);
    CongSub(Dot3(m, s, p), RawDot(m, s), Dot3(m', s', p), RawDot(m', s'), p);
  }

  // --------------------------------------------------------------- the verdict

  /** For an MDS table the gadget differs from the reference, for some constants, on every input,
      unless there is no partial round or nothing but one. */
  lemma GadgetDisagrees(s: State3, rf: nat, rp: nat, M: seq<seq<int>>, p: int) returns (rc: seq<int>)
    requires IsPrime(p) && p > 5 && IsTable(M) && IsMds(M, p)
    requires rp > 0 && !(rp == 1 && rf == 0)
    ensures |rc| == 6 * rf + rp && !AgreesOn(s, rc, rf, rp, M, p)
  {
    hide Cong, PartialRound, FullRound, IsMds, IsPrime, InPlaceMix, FullRounds, PartialRounds, Reduced3;
    if rf > 0 {
      var zs := seq(3 * rf, _ => 0);
      var s1 := FullRounds(s, zs, 0, rf, M, p);
      var ps := PartialsApart(s1, rp, M, p);
      var t, t' := PartialRounds(s1, ps, 0, rp, M, p), PartialRounds(s1, ps, 0, rp, InPlaceMix(M), p);
      var fs := OutputsSeparate(t, t', rf, M, p);
      rc := zs + ps + fs;
      assert rc[0..0 + 3 * rf] == zs[0..0 + 3 * rf];
      FullSlice(s, rc, 0, zs, 0, rf, M, p);
      assert rc[3 * rf..3 * rf + rp] == ps[0..0 + rp];
      PartialSlice(s1, rc, 3 * rf, ps, 0, rp, M, p);
      PartialSlice(s1, rc, 3 * rf, ps, 0, rp, InPlaceMix(M), p);
      assert rc[3 * rf + rp..3 * rf + rp + 3 * rf] == fs[0..0 + 3 * rf];
      FullSlice(t, rc, 3 * rf + rp, fs, 0, rf, M, p);
      FullSlice(t', rc, 3 * rf + rp, fs, 0, rf, M, p);
    } else {
      var zs := seq(rp - 2, _ => 0);
      var t, t' := PartialRounds(s, zs, 0, rp - 2, M, p), PartialRounds(s, zs, 0, rp - 2, InPlaceMix(M), p);
      var c, d := TwoRoundsApart(t, t', M, p);
      PartialExtend(s, zs, c, rp - 2, M, p);
      PartialExtend(s, zs, c, rp - 2, InPlaceMix(M), p);
      PartialExtend(s, zs + [c], d, rp - 1, M, p);
      PartialExtend(s, zs + [c], d, rp - 1, InPlaceMix(M), p);
      rc := zs + [c] + [d];
      NoRounds(s, rc, 0, M, p);
      NoRounds(PartialRounds(s, rc, 0, rp, M, p), rc, rp, M, p);
      NoRounds(PartialRounds(s, rc, 0, rp, InPlaceMix(M), p), rc, rp, M, p);
    }
  }

  /** The gadget is right for every table of constants and every input ... */
  ghost predicate AlwaysAgrees(rf: nat, rp: nat, M: seq<seq<int>>, p: Modulus)
    requires IsTable(M)
  {
    forall rc: seq<int>, s: State3 :: |rc| == 6 * rf + rp ==> AgreesOn(s, rc, rf, rp, M, p)
  }

  /** ... exactly when no partial round feeds anything but the output lane. */
  lemma GadgetExact(rf: nat, rp: nat, M: seq<seq<int>>, p: int)
    requires IsPrime(p) && p > 5 && IsTable(M) && IsMds(M, p)
    ensures AlwaysAgrees(rf, rp, M, p) <==> rp == 0 || (rp == 1 && rf == 0)
  {
    hide AgreesOn, IsMds, IsPrime;
    if rp == 0 || (rp == 1 && rf == 0) {
      forall rc: seq<int>, s: State3 | |rc| == 6 * rf + rp ensures AgreesOn(s, rc, rf, rp, M, p) {
        GadgetAgrees(s, rc, rf, rp, M, p);
      }
    } else {
      var s := State3(0, 0, 0);
      var rc := GadgetDisagrees(s, rf, rp, M, p);
      assert !AgreesOn(s, rc, rf, rp, M, p);
    }
  }
}
