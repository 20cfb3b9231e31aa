/** The Cauchy matrix 1 / (x_i + y_j) with x = 1, 2, 3 and y = 4, 5, 6, and the minors it is checked for. */
module MdsMatrix {
  import opened IntegerLaws
  import opened Congruence
  import opened PrimeField
  import opened SquareRoot
  import opened Poseidon
  import opened GadgetAgreement
  import PoseidonGadget

  /** Every denominator 5..9 is invertible. */
  predicate Invertible(p: Modulus) {
    forall d :: 5 <= d <= 9 ==> d % p != 0
  }

  /** None where the modular inverse raises. */
  function DeriveMds(p: Modulus): (r: Option<seq<seq<int>>>)
    ensures r.Some? ==> IsTable(r.value)
  {
    if !Invertible(p) then None
    else Some([[Inv(5, p), Inv(6, p), Inv(7, p)],
               [Inv(6, p), Inv(7, p), Inv(8, p)],
               [Inv(7, p), Inv(8, p), Inv(9, p)]])
  }

  lemma InverseOf(d: int, p: int)
    requires IsPrime(p) && p >= 11 && 5 <= d <= 9
    ensures Cong(Inv(d, p) * d, 1, p) && !Cong(Inv(d, p), 0, p)
  {
    hide Cong, IsPrime;
    NonzeroResidue(d, p);
    InvCorrect(d, p);
    NonzeroResidue(Inv(d, p), p);
    assert d * Inv(d, p) == Inv(d, p) * d;
  }

  /** The inverses exist exactly from p = 11 on. */
  lemma InvertibleFrom(p: int)
    requires IsPrime(p)
    ensures Invertible(p) <==> p >= 11
  {
    if p >= 11 {
      forall d | 5 <= d <= 9 ensures d % p != 0 { SmallMod(d, p); }
    } else {
      assert Divides(2, 4) && Divides(2, 6) && Divides(2, 8) && Divides(3, 9) && Divides(2, 10);
      assert p == 2 || p == 3 || p == 5 || p == 7;
      assert 6 % 2 == 0 && 6 % 3 == 0 && 5 % 5 == 0 && 7 % 7 == 0;
    }
  }

  lemma MinorIdentity(a: int, b: int, c: int, d: int, A: int, B: int, C: int, D: int)
    ensures Det2(a, b, c, d) * ((A * D) * (B * C)) == (a * A) * (d * D) * (B * C) - (b * B) * (c * C) * (A * D)
  {
    var all := (A * D) * (B * C);
    Exchange(a, A, d, D);
    Associate(a * d, A * D, B * C);
    Exchange(b, B, c, C);
    Associate(b * c, B * C, A * D);
    DistributeSub(all, a * d, b * c);
  }

  /** ad - bc for inverses a, b, c, d of A, B, C, D. */
  lemma MinorValue(a: int, b: int, c: int, d: int, A: int, B: int, C: int, D: int, p: int)
    requires IsPrime(p) && p >= 11
    requires Cong(a * A, 1, p) && Cong(b * B, 1, p) && Cong(c * C, 1, p) && Cong(d * D, 1, p)
    requires 0 < B * C - A * D < 11
    ensures !Cong(Det2(a, b, c, d), 0, p)
  {
    hide Cong, IsPrime, Det2;
    var k := B * C - A * D;
    CongMul(a * A, 1, d * D, 1, p);
    CongMul(b * B, 1, c * C, 1, p);
    CongRefl(B * C, p);
    CongRefl(A * D, p);
    CongMul((a * A) * (d * D), 1, B * C, B * C, p);
    CongMul((b * B) * (c * C), 1, A * D, A * D, p);
    CongSub((a * A) * (d * D) * (B * C), B * C, (b * B) * (c * C) * (A * D), A * D, p);
    var all := (A * D) * (B * C);
    MinorIdentity(a, b, c, d, A, B, C, D);
    if Cong(Det2(a, b, c, d), 0, p) {
      CongRefl(all, p);
      CongMul(Det2(a, b, c, d), 0, all, all, p);
      CongSym(Det2(a, b, c, d) * all, k, p);
      CongTrans(k, Det2(a, b, c, d) * all, 0, p);
      NonzeroResidue(k, p);
    }
  }

  /** xyz * (XYZ) * r = r for inverses x, y, z of X, Y, Z. */
  lemma Monomial3(x: int, y: int, z: int, X: int, Y: int, Z: int, r: int, K: int, p: Modulus)
    requires Cong(x * X, 1, p) && Cong(y * Y, 1, p) && Cong(z * Z, 1, p) && K == X * Y * Z * r
    ensures Cong(x * y * z * K, r, p)
  {
    hide Cong;
    CongMul(x * X, 1, y * Y, 1, p);
    CongMul((x * X) * (y * Y), 1, z * Z, 1, p);
    CongRefl(r, p);
    CongMul((x * X) * (y * Y) * (z * Z), 1, r, r, p);
    assert (x * X) * (y * Y) * (z * Z) == (x * y * z) * (X * Y * Z) by {
      assert (x * X) * (y * Y) == (x * y) * (X * Y);
      assert ((x * y) * (X * Y)) * (z * Z) == ((x * y) * z) * ((X * Y) * Z);
    }
    assert (x * y * z) * (X * Y * Z) * r == x * y * z * K by {
      assert ((x * y * z) * (X * Y * Z)) * r == (x * y * z) * ((X * Y * Z) * r);
    }
  }

  /** The determinant times 5 * 6^2 * 7^3 * 8^2 * 9 is 4. */
  lemma DetValue(a: int, b: int, c: int, d: int, e: int, p: int)
    requires IsPrime(p) && p >= 11
    requires Cong(a * 5, 1, p) && Cong(b * 6, 1, p) && Cong(c * 7, 1, p) && Cong(d * 8, 1, p) && Cong(e * 9, 1, p)
    ensures !Cong(Det3([a, b, c], [b, c, d], [c, d, e]), 0, p)
  {
    hide Cong, IsPrime;
    var K := 35562240;
    Monomial3(a, c, e, 5, 7, 9, 112896, K, p);
    Monomial3(a, d, d, 5, 8, 8, 111132, K, p);
    Monomial3(b, b, e, 6, 6, 9, 109760, K, p);
    Monomial3(b, c, d, 6, 7, 8, 105840, K, p);
    Monomial3(c, c, c, 7, 7, 7, 103680, K, p);
    var det := Det3([a, b, c], [b, c, d], [c, d, e]);
    DetMonomials(a, b, c, d, e);
    var u, v, x, y, z := a * c * e, a * d * d, b * b * e, b * c * d, c * c * c;
    CongSub(u * K, 112896, v * K, 111132, p);
    CongSub(u * K - v * K, 1764, x * K, 109760, p);
    CongAdd(y * K, 105840, y * K, 105840, p);
    CongAdd(u * K - v * K - x * K, -107996, y * K + y * K, 211680, p);
    CongSub(u * K - v * K - x * K + (y * K + y * K), 103684, z * K, 103680, p);
    assert det * K == u * K - v * K - x * K + (y * K + y * K) - z * K;
    if Cong(det, 0, p) {
      CongRefl(K, p);
      CongMul(det, 0, K, K, p);
      CongSym(det * K, 4, p);
      CongTrans(4, det * K, 0, p);
      NonzeroResidue(4, p);
    }
  }

  lemma DetMonomials(a: int, b: int, c: int, d: int, e: int)
    ensures Det3([a, b, c], [b, c, d], [c, d, e]) == a * c * e - a * d * d - b * b * e + (b * c * d + b * c * d) - c * c * c
  {
    assert Det3([a, b, c], [b, c, d], [c, d, e]) == a * (c * e - d * d) - b * (b * e - d * c) + c * (b * d - c * c);
    assert a * (c * e - d * d) == a * c * e - a * d * d;
    assert b * (b * e - d * c) == b * b * e - b * c * d;
    assert c * (b * d - c * c) == b * c * d - c * c * c;
  }

  /** For every prime the matrix exists from 11 on, its entries are the inverses, and every square
      minor is nonzero: the source's checks never fail. */
  lemma MdsDerived(p: int)
    requires IsPrime(p)
    ensures DeriveMds(p).Some? <==> p >= 11
    ensures DeriveMds(p).Some? ==> IsMds(DeriveMds(p).value, p)
    ensures DeriveMds(p).Some? ==>
              forall i, j :: 0 <= i < 3 && 0 <= j < 3 ==> Cong(DeriveMds(p).value[i][j] * (i + 1 + (j + 4)), 1, p)
  {
    InvertibleFrom(p);
    if p >= 11 {
      CauchyEntries(p);
      CauchyMinors(p);
    }
  }

  lemma CauchyEntries(p: int)
    requires IsPrime(p) && p >= 11 && DeriveMds(p).Some?
    ensures var M := DeriveMds(p).value;
            && NonzeroEntries(M, p)
            && (forall i, j :: 0 <= i < 3 && 0 <= j < 3 ==> Cong(M[i][j] * (i + 1 + (j + 4)), 1, p))
            && !Cong(Det3(M[0], M[1], M[2]), 0, p)
  {
    hide Cong, IsPrime, Inv, Det3;
    InverseOf(5, p);
    InverseOf(6, p);
    InverseOf(7, p);
    InverseOf(8, p);
    InverseOf(9, p);
    DetValue(Inv(5, p), Inv(6, p), Inv(7, p), Inv(8, p), Inv(9, p), p);
  }

  lemma CauchyMinors(p: int)
    requires IsPrime(p) && p >= 11 && DeriveMds(p).Some?
    ensures var M := DeriveMds(p).value;
            forall i, k, j, l :: 0 <= i < k < 3 && 0 <= j < l < 3 ==>
              !Cong(Det2(M[i][j], M[i][l], M[k][j], M[k][l]), 0, p)
  {
    hide Cong, IsPrime, Inv, Det2;
    CauchyEntries(p);
    var M := DeriveMds(p).value;
    forall i, k, j, l | 0 <= i < k < 3 && 0 <= j < l < 3
      ensures !Cong(Det2(M[i][j], M[i][l], M[k][j], M[k][l]), 0, p)
    {
      var A, B, C, D := i + 1 + (j + 4), i + 1 + (l + 4), k + 1 + (j + 4), k + 1 + (l + 4);
      MinorGap(i, k, j, l);
      MinorValue(M[i][j], M[i][l], M[k][j], M[k][l], A, B, C, D, p);
    }
  }

  lemma MinorGap(i: int, k: int, j: int, l: int)
    requires 0 <= i < k < 3 && 0 <= j < l < 3
    ensures var A, B, C, D := i + 1 + (j + 4), i + 1 + (l + 4), k + 1 + (j + 4), k + 1 + (l + 4);
            0 < B * C - A * D < 11
  {
    assert (i + 1 + (l + 4)) * (k + 1 + (j + 4)) - (i + 1 + (j + 4)) * (k + 1 + (l + 4)) == (k - i) * (l - j);
  }

  /** With the matrix the system derives, the gadget is not the reference at any round counts with
      a partial round that feeds another round; the production counts 4 and 56 are among them. */
  lemma DerivedGadget(rf: nat, rp: nat, p: int)
    requires IsPrime(p) && p >= 11
    ensures DeriveMds(p).Some?
    ensures AlwaysAgrees(rf, rp, DeriveMds(p).value, p) <==> rp == 0 || (rp == 1 && rf == 0)
  {
    hide AlwaysAgrees, IsMds, IsPrime, Cong, DeriveMds;
    MdsDerived(p);
    GadgetExact(rf, rp, DeriveMds(p).value, p);
  }

  lemma InverseIs(d: int, i: int, k: int, p: int)
    requires IsPrime(p) && 0 < d < p && 0 <= i < p && d * i == k * p + 1
    ensures Inv(d, p) == i
  {
    hide Cong, IsPrime, Inv;
    NonzeroResidue(d, p);
    InvCorrect(d, p);
    CongIntro(d * i, 1, k, p);
    CongSym(d * i, 1, p);
    CongTrans(d * Inv(d, p), 1, d * i, p);
    Cancel(d, Inv(d, p), i, p);
    CongUnique(Inv(d, p), i, p);
  }

  /** A concrete failure: two partial rounds over the field of 11 elements. */
  lemma GadgetCounterexample()
    ensures DeriveMds(11) == Some([[9, 2, 8], [2, 8, 7], [8, 7, 5]])
    ensures !AgreesOn(State3(1, 0, 0), [0, 0], 0, 2, DeriveMds(11).value, 11)
  {
    hide Inv, AgreesOn, IsPrime;
    ElevenPrime();
    InvertibleFrom(11);
    InverseIs(5, 9, 4, 11);
    InverseIs(6, 2, 1, 11);
    InverseIs(7, 8, 5, 11);
    InverseIs(8, 7, 5, 11);
    InverseIs(9, 5, 4, 11);
    TwoRounds([[9, 2, 8], [2, 8, 7], [8, 7, 5]]);
  }

  /** The reference ends with 0 in lane 0, the gadget with 2. */
  lemma TwoRounds(M: seq<seq<int>>)
    requires M == [[9, 2, 8], [2, 8, 7], [8, 7, 5]]
    ensures !AgreesOn(State3(1, 0, 0), [0, 0], 0, 2, M, 11)
  {
    var L := PoseidonGadget.InPlaceMix(M);
    assert L[0] == [9, 2, 8] && L[1] == [2, 8, 7] && L[2] == [22, 56, 54];
    var rc := [0, 0];
    FifthPowers();
    assert PartialRound(State3(1, 0, 0), 0, M, 11) == State3(9, 2, 8);
    assert PartialRound(State3(1, 0, 0), 0, L, 11) == State3(9, 2, 0);
    assert PartialRound(State3(9, 2, 8), 0, M, 11).s0 == 0;
    assert PartialRound(State3(9, 2, 0), 0, L, 11).s0 == 2;
    TwoPartials(rc, M, M);
    TwoPartials(rc, M, L);
  }

  lemma FifthPowers()
    ensures Sbox(1, 11) == 1 && Sbox(9, 11) == 1
  {
    PoseidonGadget.FifthPower(1);
    PoseidonGadget.FifthPower(9);
  }

  lemma TwoPartials(rc: seq<int>, M: seq<seq<int>>, L: seq<seq<int>>)
    requires rc == [0, 0] && IsTable(M) && IsTable(L)
    ensures PermuteWith(State3(1, 0, 0), rc, 0, 2, M, L, 11) ==
            PartialRound(PartialRound(State3(1, 0, 0), 0, L, 11), 0, L, 11)
  {
    hide PartialRound;
    var s := State3(1, 0, 0);
    assert PartialRounds(s, rc, 0, 0, L, 11) == s;
    assert PartialRounds(s, rc, 0, 1, L, 11) == PartialRound(s, 0, L, 11);
    assert PartialRounds(s, rc, 0, 2, L, 11) == PartialRound(PartialRound(s, 0, L, 11), 0, L, 11);
  }
}
