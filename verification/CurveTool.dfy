/** The G1 point routines of the derivation tool on Montgomery limbs, proved to compute the
    Jacobian formulas of the decoded coordinates and so the affine law. */
module CurveTool {
  import opened Congruence
  import opened PrimeField
  import opened FieldOps
  import opened Bignum
  import opened BitScan
  import opened MontgomeryContext
  import opened MontgomeryDomain
  import opened MontgomeryProduct
  import opened MontgomeryField
  import opened AffineCurve
  import opened Jacobian
  import opened Ladder

  datatype FePt = FePt(x: Fe6, y: Fe6, z: Fe6)

  ghost predicate ReducedPt(C: MCtx, P: FePt) {
    Val(P.x) < Modulo(C) && Val(P.y) < Modulo(C) && Val(P.z) < Modulo(C)
  }

  /** The triple of residues a limb triple stands for. */
  function DecPt(C: MCtx, P: FePt): (J: Jac)
    requires Modulo(C) > 1
    ensures ReducedJac(J, Modulo(C))
  {
    Jac(Dec(C, P.x), Dec(C, P.y), Dec(C, P.z))
  }

  /** The field context the point routines run in: q an odd prime. */
  ghost predicate ValidField(C: MCtx) {
    Valid(C) && IsPrime(Modulo(C)) && Modulo(C) > 2
  }

  method PisInf(C: MCtx, P: FePt) returns (b: bool)
    requires Valid(C) && ReducedPt(C, P)
    ensures b <==> Dec(C, P.z) == 0
  {
    hide Val, Dec;
    b := BnIsZero(P.z, 6);
    DecZero(C, P.z);
  }

  /** Equality of limbs is equality of residues. */
  method EqualFe(C: MCtx, a: Fe6, b: Fe6) returns (r: bool)
    requires Valid(C) && Val(a) < Modulo(C) && Val(b) < Modulo(C)
    ensures r <==> Dec(C, a) == Dec(C, b)
  {
    hide Val, Dec;
    r := a == b;
    if Dec(C, a) == Dec(C, b) { DecInjective(C, a, b); }
  }

  function ZeroFe(): (z: Fe6)
    ensures Val(z) == 0
  {
    ValZero([0, 0, 0, 0, 0, 0]);
    [0, 0, 0, 0, 0, 0]
  }

  /** The all-zero point. */
  method ZeroPt(C: MCtx) returns (r: FePt)
    requires Valid(C)
    ensures ReducedPt(C, r) && DecPt(C, r) == Jac(0, 0, 0)
  {
    hide Val, Dec;
    r := FePt(ZeroFe(), ZeroFe(), ZeroFe());
    DecZero(C, ZeroFe());
  }

  method Pdbl(C: MCtx, P: FePt) returns (r: FePt)
    requires Valid(C) && ReducedPt(C, P)
    ensures ReducedPt(C, r) && DecPt(C, r) == JacDbl(DecPt(C, P), Modulo(C))
  {
    hide Val, Dec, FMul, FAdd, FSub;
    var inf := PisInf(C, P);
    var y0 := BnIsZero(P.y, 6);
    DecZero(C, P.y);
    if inf || y0 {
      r := ZeroPt(C);
      return;
    }
    var A := Mmul(C, P.x, P.x);
    var B := Mmul(C, P.y, P.y);
    var CC := Mmul(C, B, B);
    var XB := Madd(C, P.x, B);
    var D := Mmul(C, XB, XB);
    D := Msub(C, D, A);
    D := Msub(C, D, CC);
    D := Madd(C, D, D);
    var AA := Madd(C, A, A);
    var E := Madd(C, AA, A);
    var EE := Mmul(C, E, E);
    var DD := Madd(C, D, D);
    var X3 := Msub(C, EE, DD);
    var C2 := Madd(C, CC, CC);
    var C4 := Madd(C, C2, C2);
    var C8 := Madd(C, C4, C4);
    var DX := Msub(C, D, X3);
    var EDX := Mmul(C, E, DX);
    var Y3 := Msub(C, EDX, C8);
    var YY := Madd(C, P.y, P.y);
    var Z3 := Mmul(C, YY, P.z);
    r := FePt(X3, Y3, Z3);
  }

  /** The limbs of the canonical 2. */
  function RawTwo(): (t: Fe6)
    ensures Val(t) == 2
  {
    ValAppend([2], [0, 0, 0, 0, 0], 1);
    ValSingle(2);
    ValZero([0, 0, 0, 0, 0]);
    assert [2] + [0, 0, 0, 0, 0] == [2, 0, 0, 0, 0, 0];
    [2, 0, 0, 0, 0, 0]
  }

  method Padd(C: MCtx, P: FePt, Q: FePt) returns (r: FePt)
    requires Valid(C) && Modulo(C) > 2 && ReducedPt(C, P) && ReducedPt(C, Q)
    ensures ReducedPt(C, r) && DecPt(C, r) == JacAdd(DecPt(C, P), DecPt(C, Q), Modulo(C))
  {
    hide Val, Dec, FMul, FAdd, FSub, JacDbl;
    var pInf := PisInf(C, P);
    if pInf { return Q; }
    var qInf := PisInf(C, Q);
    if qInf { return P; }
    var Z1 := Mmul(C, P.z, P.z);
    var Z2 := Mmul(C, Q.z, Q.z);
    var U1 := Mmul(C, P.x, Z2);
    var U2 := Mmul(C, Q.x, Z1);
    var S1 := Mmul(C, P.y, Z2);
    S1 := Mmul(C, S1, Q.z);
    var S2 := Mmul(C, Q.y, Z1);
    S2 := Mmul(C, S2, P.z);
    var sameX := EqualFe(C, U1, U2);
    if sameX {
      var sameY := EqualFe(C, S1, S2);
      if sameY { r := Pdbl(C, P); } else { r := ZeroPt(C); }
      return;
    }
    var H := Msub(C, U2, U1);
    var d := Msub(C, S2, S1);
    var zz := Mmul(C, P.z, Q.z);
    zz := Mmul(C, zz, H);
    var two := Mfrom(C, RawTwo());
    SmallMod(2, Modulo(C));
    var Z3 := Mmul(C, zz, two);
    r := PaddTail(C, U1, S1, H, d, Z3);
  }

  /** The common tail of the addition: coordinates from U1, S1, H, S2 - S1 and Z3. */
  method PaddTail(C: MCtx, U1: Fe6, S1: Fe6, H: Fe6, d: Fe6, Z3: Fe6) returns (r: FePt)
    requires Valid(C) && Val(U1) < Modulo(C) && Val(S1) < Modulo(C) && Val(H) < Modulo(C)
    requires Val(d) < Modulo(C) && Val(Z3) < Modulo(C)
    ensures ReducedPt(C, r)
    ensures DecPt(C, r) == AddFormula(Dec(C, U1), Dec(C, S1), Dec(C, H), Dec(C, d), Dec(C, Z3), Modulo(C))
  {
    hide Val, Dec, FMul, FAdd, FSub;
    var HH := Mmul(C, H, H);
    var I := Madd(C, HH, HH);
    I := Madd(C, I, I);
    var J := Mmul(C, H, I);
    var rr := Madd(C, d, d);
    var V := Mmul(C, U1, I);
    var r2 := Mmul(C, rr, rr);
    var rJ := Msub(C, r2, J);
    var VV := Madd(C, V, V);
    var X3 := Msub(C, rJ, VV);
    var SJ := Mmul(C, S1, J);
    SJ := Madd(C, SJ, SJ);
    var VX := Msub(C, V, X3);
    var rVX := Mmul(C, rr, VX);
    var Y3 := Msub(C, rVX, SJ);
    r := FePt(X3, Y3, Z3);
  }

  // ------------------------------------------------------------ the ladder

  ghost function Adder(p: Modulus): (Affine, Affine) -> Affine {
    (A, B) => AffAdd(A, B, p)
  }

  ghost function CurvePoints(b: int, p: Modulus): Affine -> bool {
    A => OnCurve(A, b, p)
  }

  /** Given associativity the affine law on the curve is a law with unit infinity. */
  lemma CurveLaw(b: int, p: int)
    requires IsPrime(p) && p > 2 && Associative(Adder(p), CurvePoints(b, p))
    ensures Law(Adder(p), Inf, CurvePoints(b, p))
  {
    hide Cong, IsPrime, AffAdd, Associative;
    forall A | CurvePoints(b, p)(A) ensures Adder(p)(Inf, A) == A && Adder(p)(A, Inf) == A {
      InfinityUnit(A, p);
    }
    forall A, B | CurvePoints(b, p)(A) && CurvePoints(b, p)(B) ensures CurvePoints(b, p)(Adder(p)(A, B)) {
      AddOnCurve(A, B, b, p);
    }
  }

  lemma InfinityUnit(A: Affine, p: Modulus)
    ensures AffAdd(Inf, A, p) == A && AffAdd(A, Inf, p) == A
  {
  }

  /** The affine point a limb triple stands for. */
  ghost function PointOf(C: MCtx, P: FePt): Affine
    requires Modulo(C) > 1
  {
    ToAffine(DecPt(C, P), Modulo(C))
  }

  /** What the ladder needs: a prime field, a curve point, and an associative law on the curve. */
  ghost predicate LadderReady(C: MCtx, P: FePt, b: int) {
    && ValidField(C)
    && ReducedPt(C, P)
    && Associative(Adder(Modulo(C)), CurvePoints(b, Modulo(C)))
    && OnCurve(PointOf(C, P), b, Modulo(C))
  }

  /** The k-fold sum of the point of P under the affine law. */
  ghost function KFold(C: MCtx, P: FePt, k: nat): Affine
    requires Modulo(C) > 1
  {
    Times(Adder(Modulo(C)), Inf, PointOf(C, P), k)
  }

  /** The accumulator stands for the sum read off so far. */
  ghost predicate Multiple(C: MCtx, r: FePt, P: FePt, h: nat) {
    Modulo(C) > 1 && ReducedPt(C, r) && PointOf(C, r) == KFold(C, P, h)
  }

  /** One bit of the scalar: double, and add P when the bit is set. */
  method LadderBit(C: MCtx, r: FePt, P: FePt, bit: u64, ghost h: nat, ghost b: int) returns (r': FePt)
    requires LadderReady(C, P, b) && bit <= 1 && Multiple(C, r, P, h)
    ensures Multiple(C, r', P, 2 * h + bit)
  {
    hide Val, Dec, JacDbl, JacAdd, AffAdd, IsPrime, Cong, ToAffine, Associative, Law, Times, OnCurve, Rep, OnCurveJac;
    ghost var p := Modulo(C);
    ghost var A := PointOf(C, P);
    CurveLaw(b, p);
    assert CurvePoints(b, p)(A);
    DoubleAndAdd(Adder(p), Inf, CurvePoints(b, p), A, h);
    TimesOn(Adder(p), Inf, CurvePoints(b, p), A, h);
    TimesOn(Adder(p), Inf, CurvePoints(b, p), A, 2 * h);
    JacobianRefines(DecPt(C, r), DecPt(C, r), b, p);
    r' := Pdbl(C, r);
    if bit != 0 {
      JacobianRefines(DecPt(C, r'), DecPt(C, P), b, p);
      r' := Padd(C, r', P);
    }
  }

  /** The most-significant-bit-first ladder computes the k-fold sum. */
  method Pmul(C: MCtx, P: FePt, k: Fe6, ghost b: int) returns (r: FePt)
    requires LadderReady(C, P, b)
    ensures Multiple(C, r, P, Val(k))
  {
    hide *;
    r := LadderStart(C, P, b);
    ValEmpty();
    assert k[6..] == [];
    var i := 5;
    while i >= 0
      invariant -1 <= i <= 5
      invariant Multiple(C, r, P, Val(k[i + 1..]))
    {
      HighTop(k, i);
      var bb := 63;
      while bb >= 0
        invariant -1 <= bb <= 63
        invariant Multiple(C, r, P, High(k, i, bb + 1))
      {
        HighStep(k, i, bb);
        r := LadderBit(C, r, P, Bit(k, i, bb), High(k, i, bb + 1), b);
        bb := bb - 1;
      }
      HighBottom(k, i);
      i := i - 1;
    }
  }

  /** The ladder starts at infinity. */
  method LadderStart(C: MCtx, P: FePt, ghost b: int) returns (r: FePt)
    requires LadderReady(C, P, b)
    ensures Multiple(C, r, P, 0)
  {
    hide Val, Dec;
    r := ZeroPt(C);
  }
}
