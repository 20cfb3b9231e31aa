/** Normalising many Jacobian points with one inversion, and the scalar ladder of the Pasta curves. */
module BatchNormalize {
  import opened IntegerLaws
  import opened Congruence
  import opened PrimeField
  import opened FieldOps
  import opened AffineCurve
  import opened Jacobian
  import opened Ladder
  import opened CurveTool
  import opened Pasta
  import opened PointEncoding
  import BitScan

  /** The factor a point contributes to the running product; identities are skipped. */
  function Factor(P: Jac): int {
    if P.z == 0 then 1 else P.z
  }

  /** The product of the factors of the first n points. */
  function Product(ps: seq<Jac>, n: nat): int
    requires n <= |ps|
  {
    if n == 0 then 1 else Product(ps, n - 1) * Factor(ps[n - 1])
  }

  ghost predicate AllReduced(ps: seq<Jac>, p: Modulus) {
    forall i :: 0 <= i < |ps| ==> ReducedJac(ps[i], p)
  }

  lemma {:induction false} ProductNonzeroUpTo(ps: seq<Jac>, n: nat, p: int)
    requires IsPrime(p) && AllReduced(ps, p) && n <= |ps|
    ensures !Cong(Product(ps, n), 0, p)
  {
    hide Cong;
    NonzeroResidue(1, p);
    if n > 0 {
      ProductNonzeroUpTo(ps, n - 1, p);
      ZeroC(ps[n - 1].z, p);
      ProductNonzero(Product(ps, n - 1), Factor(ps[n - 1]), p);
    }
  }

  /** acc is the running product of the first n factors. */
  lemma ForwardStep(acc: int, ps: seq<Jac>, i: nat, p: Modulus)
    requires i < |ps| && 0 <= acc < p && Cong(acc, Product(ps, i), p)
    ensures Cong(if ps[i].z == 0 then acc else FMul(acc, ps[i].z, p), Product(ps, i + 1), p)
  {
    hide Cong, FMul;
    if ps[i].z != 0 {
      CongRefl(ps[i].z, p);
      MulC(acc, Product(ps, i), ps[i].z, ps[i].z, p);
    }
  }

  /** With acc the inverse of the product up to and including point i, the stored prefix product
      times acc is the inverse of z_i, and acc times z_i the inverse of the shorter product. */
  lemma BackwardStep(q: int, acc: int, ps: seq<Jac>, i: nat, p: int)
    requires IsPrime(p) && i < |ps| && AllReduced(ps, p)
    requires Cong(q, Product(ps, i), p) && Cong(acc * Product(ps, i + 1), 1, p)
    ensures ps[i].z != 0 ==> FMul(q, acc, p) == Inv(ps[i].z, p)
    ensures ps[i].z != 0 ==> Cong(FMul(acc, ps[i].z, p) * Product(ps, i), 1, p)
    ensures ps[i].z == 0 ==> Cong(acc * Product(ps, i), 1, p)
  {
    hide Cong, IsPrime, FMul, Inv;
    var z, w := ps[i].z, Product(ps, i);
    if z != 0 {
      FactorInverse(q, acc, w, z, p);
      ShorterInverse(acc, w, z, p);
    } else {
      assert w * 1 == w;
    }
  }

  lemma FactorInverse(q: int, acc: int, w: int, z: int, p: int)
    requires IsPrime(p) && 0 < z < p && Cong(q, w, p) && Cong(acc * (w * z), 1, p)
    ensures FMul(q, acc, p) == Inv(z, p)
  {
    hide Cong, IsPrime, FMul, Inv;
    var v, i := FMul(q, acc, p), Inv(z, p);
    ZeroC(z, p);
    CongRefl(acc, p);
    CongRefl(z, p);
    MulC(q, w, acc, acc, p);
    CongMul(v, w * acc, z, z, p);
    SecondOut(w, acc, z);
    CongTrans(v * z, w * acc * z, 1, p);
    Commute(v, z);
    InvCorrect(z, p);
    CongSym(z * i, 1, p);
    CongTrans(z * v, 1, z * i, p);
    Cancel(z, v, i, p);
    CongUnique(v, i, p);
  }

  lemma ShorterInverse(acc: int, w: int, z: int, p: Modulus)
    requires Cong(acc * (w * z), 1, p)
    ensures Cong(FMul(acc, z, p) * w, 1, p)
  {
    hide Cong, FMul;
    CongRefl(acc, p);
    CongRefl(z, p);
    CongRefl(w, p);
    MulC(acc, acc, z, z, p);
    CongMul(FMul(acc, z, p), acc * z, w, w, p);
    Associate(acc, z, w);
    CongTrans(FMul(acc, z, p) * w, acc * z * w, 1, p);
  }

  /** All points of ps normalised into q with one inversion. The lengths must agree, or the
      routine stops before writing. */
  method Normalize(ps: seq<Jac>, q: array<EpAffine>, p: int) returns (ok: bool)
    requires IsPrime(p) && AllReduced(ps, p)
    modifies q
    ensures ok <==> |ps| == q.Length
    ensures ok ==> forall i :: 0 <= i < |ps| ==> q[i] == ToEpAffine(ps[i], p)
    ensures !ok ==> q[..] == old(q[..])
  {
    hide Cong, FMul, ToEpAffine, Inv, Product, ReducedJac;
    if |ps| != q.Length { return false; }
    var n := |ps|;
    var acc := 1;
    StartOne(ps, p);
    for i := 0 to n
      invariant 0 <= acc < p && Cong(acc, Product(ps, i), p)
      invariant forall k :: 0 <= k < i ==> Cong(q[k].x, Product(ps, k), p)
    {
      q[i] := EpAffine(acc, q[i].y);
      ForwardStep(acc, ps, i, p);
      acc := if ps[i].z == 0 then acc else FMul(acc, ps[i].z, p);
    }
    ProductNonzeroUpTo(ps, n, p);
    acc := InvertProduct(acc, Product(ps, n), p);
    var i := n;
    while i > 0
      invariant 0 <= i <= n && 0 <= acc < p && Cong(acc * Product(ps, i), 1, p)
      invariant forall k :: 0 <= k < i ==> Cong(q[k].x, Product(ps, k), p)
      invariant forall k :: i <= k < n ==> q[k] == ToEpAffine(ps[k], p)
    {
      i := i - 1;
      var P := ps[i];
      BackwardStep(q[i].x, acc, ps, i, p);
      var tmp := FMul(q[i].x, acc, p);
      acc := if P.z == 0 then acc else FMul(acc, P.z, p);
      var tmp2 := FMul(tmp, tmp, p);
      var tmp3 := FMul(tmp2, tmp, p);
      NormalForm(P, tmp, p);
      q[i] := EpAffine(FMul(P.x, tmp2, p), FMul(P.y, tmp3, p));
      if P.z == 0 { q[i] := EpAffine(0, 0); }
    }
    ok := true;
  }

  lemma StartOne(ps: seq<Jac>, p: Modulus)
    ensures Cong(1, Product(ps, 0), p)
  {
    CongRefl(1, p);
  }

  /** The one inversion; its unwrap cannot fail because the product is a unit. */
  method InvertProduct(acc: int, ghost product: int, p: int) returns (r: int)
    requires IsPrime(p) && Cong(acc, product, p) && !Cong(product, 0, p)
    ensures 0 <= r < p && Cong(r * product, 1, p)
  {
    hide Cong, Inv;
    r := Inv(acc, p);
    InverseOfCongruent(acc, product, p);
  }

  lemma InverseOfCongruent(acc: int, product: int, p: int)
    requires IsPrime(p) && Cong(acc, product, p) && !Cong(product, 0, p)
    ensures Cong(Inv(acc, p) * product, 1, p)
  {
    hide Cong, Inv;
    if Cong(acc, 0, p) {
      CongSym(acc, product, p);
      CongTrans(product, acc, 0, p);
    }
    InvCorrect(acc, p);
    var r := Inv(acc, p);
    CongRefl(r, p);
    CongSym(acc, product, p);
    CongMul(r, r, product, acc, p);
    assert r * acc == acc * r;
    CongTrans(r * product, r * acc, 1, p);
  }

  lemma NormalForm(P: Jac, tmp: int, p: int)
    requires IsPrime(p) && ReducedJac(P, p) && (P.z != 0 ==> tmp == Inv(P.z, p))
    ensures var tmp2 := FMul(tmp, tmp, p);
            ToEpAffine(P, p) == if P.z == 0 then EpAffine(0, 0)
                                else EpAffine(FMul(P.x, tmp2, p), FMul(P.y, FMul(tmp2, tmp, p), p))
  {
    hide Cong, IsPrime, FMul;
    ZeroC(P.z, p);
    if P.z != 0 { InvCorrect(P.z, p); } else { InvZero(p); }
  }

  // ------------------------------------------------------------ the ladder

  function Bits(k: nat, i: nat): (h: nat)
    ensures i == 0 ==> h == k
  {
    PowPositive(2, i);
    k / Pow(2, i)
  }

  lemma BitsStep(k: nat, i: nat)
    ensures Bits(k, i) == 2 * Bits(k, i + 1) + Bits(k, i) % 2
  {
    PowPositive(2, i);
    BitScan.HalveQuotient(k, Pow(2, i));
  }

  lemma BitsTop(k: nat, n: nat)
    requires k < Pow(2, n)
    ensures Bits(k, n) == 0
  {
    hide Pow;
    PowPositive(2, n);
    BitScan.QuotientUnique(k, Pow(2, n), 0, k);
  }

  ghost predicate MulReady(P: Jac, b: int, p: Modulus) {
    && IsPrime(p) && p > 2 && ReducedJac(P, p) && OnCurve(ToAffine(P, p), b, p)
    && Associative(Adder(p), CurvePoints(b, p))
  }

  /** The accumulator stands for the h-fold sum. */
  ghost predicate IsMultiple(r: Jac, P: Jac, h: nat, p: Modulus) {
    ReducedJac(r, p) && ToAffine(r, p) == Times(Adder(p), Inf, ToAffine(P, p), h)
  }

  lemma MulStep(acc: Jac, P: Jac, h: nat, b: int, p: int)
    requires p > 0 && MulReady(P, b, p) && IsMultiple(acc, P, h, p)
    ensures IsMultiple(Double(acc, p), P, 2 * h, p)
    ensures IsMultiple(AddJac(Double(acc, p), P, p), P, 2 * h + 1, p)
  {
    hide Cong, IsPrime, AddJac, Double, AffAdd, ToAffine, Associative, Law, Times, OnCurve, Rep, OnCurveJac;
    var A := ToAffine(P, p);
    CurveLaw(b, p);
    assert CurvePoints(b, p)(A);
    DoubleAndAdd(Adder(p), Inf, CurvePoints(b, p), A, h);
    TimesOn(Adder(p), Inf, CurvePoints(b, p), A, h);
    TimesOn(Adder(p), Inf, CurvePoints(b, p), A, 2 * h);
    var H, D := ToAffine(acc, p), Double(acc, p);
    RepToAffine(acc, p);
    RepToAffine(P, p);
    DoubleRep(acc, H, b, p);
    RepDecides(D, AffAdd(H, H, p), b, p);
    AddJacRep(D, P, AffAdd(H, H, p), A, b, p);
    AddOnCurve(AffAdd(H, H, p), A, b, p);
    RepDecides(AddJac(D, P, p), AffAdd(AffAdd(H, H, p), A, p), b, p);
  }

  /** Bit i of a little-endian string of bytes. */
  function ScalarBit(bs: seq<u8>, i: nat): (b: nat)
    requires i < 8 * |bs|
    ensures b <= 1
  {
    PowPositive(2, i % 8);
    bs[i / 8] / Pow(2, i % 8) % 2
  }

  /** The number without its top bit. */
  function LowBits(bs: seq<u8>): nat
    requires bs != []
  {
    var t := |bs| - 1;
    FromRepr(bs[t := bs[t] % 128])
  }

  lemma {:induction false} ReprBound(bs: seq<u8>, n: nat)
    requires bs != [] && n == 8 * |bs| - 1 && bs[|bs| - 1] < 128
    ensures FromRepr(bs) < Pow(2, n)
    decreases |bs|
  {
    hide Pow;
    if |bs| == 1 {
      assert bs[1..] == [];
      SmallPowers();
    } else {
      ReprBound(bs[1..], n - 8);
      EightMore(n - 8);
    }
  }

  lemma SmallPowers()
    ensures Pow(2, 0) == 1 && Pow(2, 1) == 2 && Pow(2, 2) == 4 && Pow(2, 3) == 8
    ensures Pow(2, 4) == 16 && Pow(2, 5) == 32 && Pow(2, 6) == 64 && Pow(2, 7) == 128
  {
  }

  lemma EightMore(i: nat)
    ensures Pow(2, i + 8) == 256 * Pow(2, i)
  {
    hide Pow;
    SmallPowers();
    PowAdd(2, 7, 1);
    PowAdd(2, i, 8);
  }

  /** Adding a multiple of 2q does not change bit q. */
  lemma ShiftedBit(x: nat, r: nat, q: nat, e: nat)
    requires q > 0
    ensures (x + q * (2 * e) * r) / q % 2 == x / q % 2
  {
    var h, l, m := x / q, x % q, e * r;
    assert x == q * h + l;
    assert q * (2 * e) * r == q * (2 * m);
    assert q * (h + 2 * m) == q * h + q * (2 * m);
    BitScan.QuotientUnique(x + q * (2 * e) * r, q, h + 2 * m, l);
  }

  /** A bit below the first byte boundary does not see the bytes above. */
  lemma LowByteBit(b: u8, r: nat, i: nat, q: nat)
    requires i < 8 && q == Pow(2, i)
    ensures q > 0 && (b + 256 * r) / q % 2 == b / q % 2
  {
    hide Pow;
    SmallPowers();
    var e := if i == 0 then 128 else if i == 1 then 64 else if i == 2 then 32 else if i == 3 then 16
             else if i == 4 then 8 else if i == 5 then 4 else if i == 6 then 2 else 1;
    assert q * (2 * e) == 256;
    ShiftedBit(b, r, q, e);
  }

  /** The bits of the bytes are the bits of the number. */
  lemma {:induction false} BitOfRepr(bs: seq<u8>, i: nat)
    requires i < 8 * |bs|
    ensures ScalarBit(bs, i) == Bits(FromRepr(bs), i) % 2
    decreases |bs|
  {
    hide Pow;
    PowPositive(2, i);
    var b, r := bs[0], FromRepr(bs[1..]);
    if i < 8 {
      assert ScalarBit(bs, i) == b / Pow(2, i) % 2;
      LowByteBit(b, r, i, Pow(2, i));
    } else {
      BitOfRepr(bs[1..], i - 8);
      NextByteBit(bs, i);
      PowPositive(2, i - 8);
      EightMore(i - 8);
      HighBits(b, r, Pow(2, i - 8));
    }
  }

  lemma NextByteBit(bs: seq<u8>, i: nat)
    requires 8 <= i < 8 * |bs|
    ensures ScalarBit(bs, i) == ScalarBit(bs[1..], i - 8)
  {
    hide Pow;
    assert i / 8 == (i - 8) / 8 + 1 && i % 8 == (i - 8) % 8;
  }

  /** Clearing the top bit leaves the others. */
  lemma MaskedBit(bs: seq<u8>, i: nat)
    requires bs != [] && i < 8 * |bs| - 1
    ensures var t := |bs| - 1; ScalarBit(bs[t := bs[t] % 128], i) == ScalarBit(bs, i)
  {
    hide Pow;
    SmallPowers();
    var t, j := |bs| - 1, i % 8;
    if i / 8 == t {
      assert j < 7;
      MaskedByte(bs[t], Pow(2, j));
    }
  }

  lemma MaskedByte(b: u8, q: nat)
    requires q == 1 || q == 2 || q == 4 || q == 8 || q == 16 || q == 32 || q == 64
    ensures b % 128 / q % 2 == b / q % 2
  {
    var e := if q == 1 then 64 else if q == 2 then 32 else if q == 4 then 16 else if q == 8 then 8
             else if q == 16 then 4 else if q == 32 then 2 else 1;
    assert q * (2 * e) == 128;
    ShiftedBit(b % 128, b / 128, q, e);
  }

  /** The bits of the scalar's bytes from the top, the leading one skipped: whatever that bit is, the
      result is the multiple by the number the others make. Scalars of the curves, which are below
      2^255, have it clear. */
  method Mul(P: Jac, bs: seq<u8>, p: int, ghost b: int) returns (acc: Jac)
    requires bs != [] && p > 0 && MulReady(P, b, p)
    ensures IsMultiple(acc, P, LowBits(bs), p)
    ensures bs[|bs| - 1] < 128 ==> IsMultiple(acc, P, FromRepr(bs), p)
  {
    hide *;
    acc := Jac(0, 0, 0);
    IdentityMultiple(P, b, p);
    ghost var k := LowBits(bs);
    LowBitsTop(bs);
    var i := 8 * |bs| - 1;
    while i > 0
      invariant 0 <= i <= 8 * |bs| - 1
      invariant IsMultiple(acc, P, Bits(k, i), p)
    {
      i := i - 1;
      BitsStep(k, i);
      LowBit(bs, i);
      MulStep(acc, P, Bits(k, i + 1), b, p);
      acc := Double(acc, p);
      var sum := AddJac(acc, P, p);
      acc := if ScalarBit(bs, i) == 1 then sum else acc;
    }
  }

  lemma LowBit(bs: seq<u8>, i: nat)
    requires bs != [] && i < 8 * |bs| - 1
    ensures ScalarBit(bs, i) == Bits(LowBits(bs), i) % 2
  {
    hide ScalarBit, Bits;
    var t := |bs| - 1;
    MaskedBit(bs, i);
    BitOfRepr(bs[t := bs[t] % 128], i);
  }

  lemma LowBitsTop(bs: seq<u8>)
    requires bs != []
    ensures Bits(LowBits(bs), 8 * |bs| - 1) == 0
    ensures bs[|bs| - 1] < 128 ==> LowBits(bs) == FromRepr(bs)
  {
    hide Pow, Bits, LowBits, FromRepr;
    var n := 8 * |bs| - 1;
    LowBitsBound(bs, n);
    BitsTop(LowBits(bs), n);
    if bs[|bs| - 1] < 128 { NothingMasked(bs); }
  }

  lemma LowBitsBound(bs: seq<u8>, n: nat)
    requires bs != [] && n == 8 * |bs| - 1
    ensures LowBits(bs) < Pow(2, n)
  {
    hide Pow, FromRepr;
    var t := |bs| - 1;
    ReprBound(bs[t := bs[t] % 128], n);
  }

  /** What skipping the top bit leaves: the number without 2^(8n - 1) times that bit. */
  lemma TopBitApart(bs: seq<u8>, n: nat)
    requires bs != [] && n == 8 * |bs| - 1
    ensures FromRepr(bs) == LowBits(bs) + Pow(2, n) * (bs[|bs| - 1] / 128) && LowBits(bs) < Pow(2, n)
  {
    hide Pow;
    LowBitsBound(bs, n);
    TopByteApart(bs, n);
  }

  lemma {:induction false} TopByteApart(bs: seq<u8>, n: nat)
    requires bs != [] && n == 8 * |bs| - 1
    ensures var t := |bs| - 1; FromRepr(bs) == FromRepr(bs[t := bs[t] % 128]) + Pow(2, n) * (bs[t] / 128)
    decreases |bs|
  {
    hide Pow;
    var t := |bs| - 1;
    var low, top := bs[t := bs[t] % 128], bs[t] / 128;
    if t == 0 {
      SmallPowers();
      assert bs[1..] == [] && low[1..] == [];
    } else {
      TopByteApart(bs[1..], n - 8);
      assert low[1..] == bs[1..][t - 1 := bs[t] % 128];
      EightMore(n - 8);
      Associate(256, Pow(2, n - 8), top);
    }
  }

  lemma NothingMasked(bs: seq<u8>)
    requires bs != [] && bs[|bs| - 1] < 128
    ensures LowBits(bs) == FromRepr(bs)
  {
    hide FromRepr;
    var t := |bs| - 1;
    assert bs[t] % 128 == bs[t];
    assert bs[t := bs[t] % 128] == bs;
  }

  lemma IdentityMultiple(P: Jac, b: int, p: int)
    requires p > 0 && MulReady(P, b, p)
    ensures IsMultiple(Jac(0, 0, 0), P, 0, p)
  {
  }
}
