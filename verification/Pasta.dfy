/** The Pasta curve arithmetic (a = 0): doubling, the three adders, equality and the affine form. */
module Pasta {
  import opened Congruence
  import opened PrimeField
  import opened FieldOps
  import opened AffineCurve
  import opened Jacobian

  /** The affine struct of the source; the identity is (0, 0). */
  datatype EpAffine = EpAffine(x: int, y: int)

  predicate IsIdentity(E: EpAffine) {
    E.x == 0 && E.y == 0
  }

  /** The point an affine struct stands for. */
  function PointOfAffine(E: EpAffine): Affine {
    if IsIdentity(E) then Inf else Pt(E.x, E.y)
  }

  /** A reduced affine struct on the curve; (0, 0) is excluded from the curve by b != 0. */
  ghost predicate ValidAffine(E: EpAffine, b: int, p: Modulus) {
    OnCurve(PointOfAffine(E), b, p)
  }

  function ToCurve(E: EpAffine): Jac {
    Jac(E.x, E.y, if IsIdentity(E) then 0 else 1)
  }

  function ToEpAffine(J: Jac, p: Modulus): EpAffine {
    var zi := Inv(J.z, p);
    var zi2 := FMul(zi, zi, p);
    var x := FMul(J.x, zi2, p);
    var zi3 := FMul(zi2, zi, p);
    var y := FMul(J.y, zi3, p);
    if zi == 0 then EpAffine(0, 0) else EpAffine(x, y)
  }

  function Double(P: Jac, p: Modulus): Jac {
    if P.z == 0 then Jac(0, 0, 0)
    else
      var a := FMul(P.x, P.x, p);
      var b := FMul(P.y, P.y, p);
      var c := FMul(b, b, p);
      var d := FourXB(P.x, b, a, c, p);
      var e := Triple(a, p);
      var zy := FMul(P.z, P.y, p);
      var x3 := FSub(FMul(e, e, p), FAdd(d, d, p), p);
      Jac(x3, FSub(FMul(e, FSub(d, x3, p), p), Octuple(c, p), p), FAdd(zy, zy, p))
  }

  /** The shared tail of the adders, from u1, s1, h, i = 4h^2, the difference s2 - s1 and z3. */
  function AddTail(u1: int, s1: int, h: int, i: int, r0: int, z3: int, p: Modulus): Jac {
    var j := FMul(h, i, p);
    var r := FAdd(r0, r0, p);
    var v := FMul(u1, i, p);
    var x3 := FSub(FSub(FSub(FMul(r, r, p), j, p), v, p), v, p);
    var sj := FMul(s1, j, p);
    Jac(x3, FSub(FMul(r, FSub(v, x3, p), p), FAdd(sj, sj, p), p), z3)
  }

  /** Jacobian + Jacobian. */
  function AddJac(P: Jac, Q: Jac, p: Modulus): Jac {
    if P.z == 0 then Q
    else if Q.z == 0 then P
    else
      var z1z1, z2z2 := FMul(P.z, P.z, p), FMul(Q.z, Q.z, p);
      var u1, u2 := FMul(P.x, z2z2, p), FMul(Q.x, z1z1, p);
      var s1, s2 := FMul(FMul(P.y, z2z2, p), Q.z, p), FMul(FMul(Q.y, z1z1, p), P.z, p);
      if u1 == u2 then if s1 == s2 then Double(P, p) else Jac(0, 0, 0)
      else
        var h := FSub(u2, u1, p);
        var hh := FAdd(h, h, p);
        var zz := FAdd(P.z, Q.z, p);
        var z3 := FMul(FSub(FSub(FMul(zz, zz, p), z1z1, p), z2z2, p), h, p);
        AddTail(u1, s1, h, FMul(hh, hh, p), FSub(s2, s1, p), z3, p)
  }

  /** Jacobian + affine. */
  function AddMixed(P: Jac, Q: EpAffine, p: Modulus): Jac {
    if P.z == 0 then ToCurve(Q)
    else if IsIdentity(Q) then P
    else
      var z1z1 := FMul(P.z, P.z, p);
      var u2 := FMul(Q.x, z1z1, p);
      var s2 := FMul(FMul(Q.y, z1z1, p), P.z, p);
      if P.x == u2 then if P.y == s2 then Double(P, p) else Jac(0, 0, 0)
      else
        var h := FSub(u2, P.x, p);
        var hh := FMul(h, h, p);
        var i := FAdd(hh, hh, p);
        var zh := FAdd(P.z, h, p);
        var z3 := FSub(FSub(FMul(zh, zh, p), z1z1, p), hh, p);
        AddTail(P.x, P.y, h, FAdd(i, i, p), FSub(s2, P.y, p), z3, p)
  }

  /** Affine + affine. */
  function AddAffine(P: EpAffine, Q: EpAffine, p: Modulus): Jac {
    if IsIdentity(P) then ToCurve(Q)
    else if IsIdentity(Q) then ToCurve(P)
    else if P.x == Q.x then if P.y == Q.y then Double(ToCurve(P), p) else Jac(0, 0, 0)
    else
      var h := FSub(Q.x, P.x, p);
      var hh := FMul(h, h, p);
      var i := FAdd(hh, hh, p);
      AddTail(P.x, P.y, h, FAdd(i, i, p), FSub(Q.y, P.y, p), FAdd(h, h, p), p)
  }

  /** Equality without inversion: cross-multiplied coordinates. */
  predicate CtEq(P: Jac, Q: Jac, p: Modulus) {
    var z := FMul(Q.z, Q.z, p);
    var x1 := FMul(P.x, z, p);
    var y1 := FMul(P.y, FMul(z, Q.z, p), p);
    var z' := FMul(P.z, P.z, p);
    var x2 := FMul(Q.x, z', p);
    var y2 := FMul(Q.y, FMul(z', P.z, p), p);
    (P.z == 0 && Q.z == 0) || (P.z != 0 && Q.z != 0 && x1 == x2 && y1 == y2)
  }

  // --------------------------------------------------------------- doubling

  lemma DoubleRep(P: Jac, A: Affine, b: int, p: int)
    requires IsPrime(p) && p > 2 && ReducedJac(P, p) && Rep(P, A, p) && OnCurve(A, b, p)
    ensures Rep(Double(P, p), AffAdd(A, A, p), p)
    ensures ReducedJac(Double(P, p), p)
  {
    hide Cong, IsPrime, FourXB, Triple, Octuple, Slope, ThirdPoint, FMul, FAdd, FSub, FNeg;
    ZeroC(P.z, p);
    CongRefl(0, p);
    if A.Pt? {
      var J := Double(P, p);
      DoubleZ(P, p);
      ZeroOrdinate(P, A, p);
      if P.y == 0 {
        assert P.y * P.z == 0;
        CongTrans(J.z, 2 * (P.y * P.z), 0, p);
      } else {
        DblFormulaRep(P, A, b, p);
        var K := DblFormula(P, p);
        DblFormulaZ(P, p);
        SameC(J.z, K.z, 2 * (P.y * P.z), p);
        assert J == K;
      }
    }
  }

  lemma DoubleZ(P: Jac, p: Modulus)
    ensures P.z != 0 ==> Cong(Double(P, p).z, 2 * (P.y * P.z), p)
  {
    hide Cong, FMul, FAdd;
    CongRefl(P.y, p);
    CongRefl(P.z, p);
    MulC(P.z, P.z, P.y, P.y, p);
    var zy := FMul(P.z, P.y, p);
    AddC(zy, P.z * P.y, zy, P.z * P.y, p);
    assert P.z * P.y + P.z * P.y == 2 * (P.y * P.z);
  }

  lemma DblFormulaZ(P: Jac, p: Modulus)
    ensures Cong(DblFormula(P, p).z, 2 * (P.y * P.z), p)
  {
    hide Cong, FMul, FAdd;
    CongRefl(P.y, p);
    CongRefl(P.z, p);
    AddC(P.y, P.y, P.y, P.y, p);
    MulC(FAdd(P.y, P.y, p), P.y + P.y, P.z, P.z, p);
    assert (P.y + P.y) * P.z == 2 * (P.y * P.z);
  }

  // --------------------------------------------------------------- addition

  lemma AddTailC(u1: int, s1: int, h: int, i: int, r0: int, z3: int, p: Modulus)
    ensures var R := AddTail(u1, s1, h, i, r0, z3, p);
            var j, r, v := FMul(h, i, p), FAdd(r0, r0, p), FMul(u1, i, p);
            && Cong(j, h * i, p) && Cong(v, u1 * i, p) && Cong(r, 2 * r0, p)
            && Cong(R.x, r * r - j - 2 * v, p) && Cong(R.y, r * (v - R.x) - 2 * (s1 * j), p)
  {
    hide Cong, FMul, FAdd, FSub;
    var R := AddTail(u1, s1, h, i, r0, z3, p);
    var j, r, v := FMul(h, i, p), FAdd(r0, r0, p), FMul(u1, i, p);
    CongRefl(h, p); CongRefl(i, p); CongRefl(u1, p); CongRefl(s1, p); CongRefl(r0, p);
    CongRefl(j, p); CongRefl(r, p); CongRefl(v, p); CongRefl(R.x, p);
    MulC(h, h, i, i, p);
    MulC(u1, u1, i, i, p);
    AddC(r0, r0, r0, r0, p);
    MulC(r, r, r, r, p);
    var t := FSub(FMul(r, r, p), j, p);
    SubC(FMul(r, r, p), r * r, j, j, p);
    SubC(t, r * r - j, v, v, p);
    SubC(FSub(t, v, p), r * r - j - v, v, v, p);
    var sj := FMul(s1, j, p);
    MulC(s1, s1, j, j, p);
    AddC(sj, s1 * j, sj, s1 * j, p);
    SubC(v, v, R.x, R.x, p);
    MulC(r, r, FSub(v, R.x, p), v - R.x, p);
    SubC(FMul(r, FSub(v, R.x, p), p), r * (v - R.x), FAdd(sj, sj, p), 2 * (s1 * j), p);
  }

  /** The tail at points with different x, over any common denominator w. */
  lemma AddTailRep(u1: int, s1: int, h: int, i: int, r0: int, z3: int, A: Affine, B: Affine, w: int, b: int, p: int)
    requires IsPrime(p) && p > 2 && !Cong(w, 0, p) && OnCurve(A, b, p) && OnCurve(B, b, p)
    requires A.Pt? && B.Pt? && A.x != B.x && 0 <= z3 < p
    requires Cong(u1, A.x * (w * w), p) && Cong(s1, A.y * (w * w * w), p)
    requires Cong(h, (B.x - A.x) * (w * w), p) && Cong(r0, (B.y - A.y) * (w * w * w), p)
    requires Cong(i, 4 * (h * h), p) && Cong(z3, 2 * (w * h), p)
    ensures Rep(AddTail(u1, s1, h, i, r0, z3, p), AffAdd(A, B, p), p)
    ensures ReducedJac(AddTail(u1, s1, h, i, r0, z3, p), p)
  {
    hide Cong, IsPrime, FMul, FAdd, FSub, FNeg, Slope, ThirdPoint;
    SlopeIsSlope(A, B, b, p);
    AddTailC(u1, s1, h, i, r0, z3, p);
    var r := FAdd(r0, r0, p);
    CongRefl(2, p);
    CongMul(2, 2, r0, (B.y - A.y) * (w * w * w), p);
    CongTrans(r, 2 * r0, 2 * ((B.y - A.y) * (w * w * w)), p);
    ChordRep(u1, s1, h, r, i, FMul(h, i, p), FMul(u1, i, p), AddTail(u1, s1, h, i, r0, z3, p),
             A.x, A.y, B.x, B.y, Slope(A.x, A.y, B.x, B.y, p), w, p);
  }

  lemma SquareOfDouble(h: int, p: Modulus)
    ensures Cong(FMul(FAdd(h, h, p), FAdd(h, h, p), p), 4 * (h * h), p)
    ensures Cong(FAdd(FAdd(FMul(h, h, p), FMul(h, h, p), p), FAdd(FMul(h, h, p), FMul(h, h, p), p), p), 4 * (h * h), p)
  {
    hide Cong, FMul, FAdd;
    CongRefl(h, p);
    var d := FAdd(h, h, p);
    AddC(h, h, h, h, p);
    MulC(d, h + h, d, h + h, p);
    assert (h + h) * (h + h) == 4 * (h * h);
    var q := FMul(h, h, p);
    MulC(h, h, h, h, p);
    AddC(q, h * h, q, h * h, p);
    var i := FAdd(q, q, p);
    AddC(i, 2 * (h * h), i, 2 * (h * h), p);
  }

  /** (a + c)^2 - a^2 - c^2 is 2ac. */
  lemma TwiceProduct(a: int, c: int, p: Modulus)
    ensures var s := FAdd(a, c, p);
            Cong(FSub(FSub(FMul(s, s, p), FMul(a, a, p), p), FMul(c, c, p), p), 2 * (a * c), p)
  {
    hide Cong, FMul, FAdd, FSub;
    CongRefl(a, p);
    CongRefl(c, p);
    var s := FAdd(a, c, p);
    AddC(a, a, c, c, p);
    MulC(s, a + c, s, a + c, p);
    MulC(a, a, a, a, p);
    MulC(c, c, c, c, p);
    SubC(FMul(s, s, p), (a + c) * (a + c), FMul(a, a, p), a * a, p);
    SubC(FSub(FMul(s, s, p), FMul(a, a, p), p), (a + c) * (a + c) - a * a, FMul(c, c, p), c * c, p);
    assert (a + c) * (a + c) - a * a - c * c == 2 * (a * c);
  }

  lemma JacobianZ3(z1: int, z2: int, w: int, h: int, p: Modulus)
    requires w == z1 * z2
    ensures var s := FAdd(z1, z2, p);
            Cong(FMul(FSub(FSub(FMul(s, s, p), FMul(z1, z1, p), p), FMul(z2, z2, p), p), h, p), 2 * (w * h), p)
  {
    hide Cong, FMul, FAdd, FSub;
    TwiceProduct(z1, z2, p);
    var s := FAdd(z1, z2, p);
    CongRefl(h, p);
    MulC(FSub(FSub(FMul(s, s, p), FMul(z1, z1, p), p), FMul(z2, z2, p), p), 2 * w, h, h, p);
    assert 2 * w * h == 2 * (w * h);
  }

  lemma AddJacRep(P: Jac, Q: Jac, A: Affine, B: Affine, b: int, p: int)
    requires IsPrime(p) && p > 2 && ReducedJac(P, p) && ReducedJac(Q, p)
    requires Rep(P, A, p) && Rep(Q, B, p) && OnCurve(A, b, p) && OnCurve(B, b, p)
    ensures Rep(AddJac(P, Q, p), AffAdd(A, B, p), p)
    ensures ReducedJac(AddJac(P, Q, p), p)
  {
    hide Cong, IsPrime, FMul, FAdd, FSub, AddTail, Double;
    ZeroC(P.z, p);
    ZeroC(Q.z, p);
    CongRefl(0, p);
    if A.Pt? && B.Pt? {
      CrossCases(P, Q, A, B, p);
      if A.x == B.x {
        SameAbscissa(A, B, b, p);
        if A.y == B.y { DoubleRep(P, A, b, p); }
      } else {
        var w := P.z * Q.z;
        var z1z1, z2z2 := FMul(P.z, P.z, p), FMul(Q.z, Q.z, p);
        var u1, u2 := FMul(P.x, z2z2, p), FMul(Q.x, z1z1, p);
        var s1, s2 := FMul(FMul(P.y, z2z2, p), Q.z, p), FMul(FMul(Q.y, z1z1, p), P.z, p);
        var h := FSub(u2, u1, p);
        Differences(u1, u2, A.x, B.x, w * w, p);
        Differences(s1, s2, A.y, B.y, w * w * w, p);
        SquareOfDouble(h, p);
        JacobianZ3(P.z, Q.z, w, h, p);
        var zz := FAdd(P.z, Q.z, p);
        var t := FSub(FSub(FMul(zz, zz, p), z1z1, p), z2z2, p);
        var hh := FAdd(h, h, p);
        AddTailRep(u1, s1, h, FMul(hh, hh, p), FSub(s2, s1, p), FMul(t, h, p), A, B, w, b, p);
      }
    }
  }

  /** An affine struct embedded with z = 1 stands for its point. */
  lemma ToCurveRep(E: EpAffine, b: int, p: int)
    requires IsPrime(p) && ValidAffine(E, b, p)
    ensures Rep(ToCurve(E), PointOfAffine(E), p) && ReducedJac(ToCurve(E), p)
  {
    hide Cong;
    CongRefl(0, p);
    CongRefl(E.x, p);
    CongRefl(E.y, p);
    NonzeroResidue(1, p);
  }

  /** With the second denominator 1 the comparisons use P's own coordinates. */
  lemma MixedCases(P: Jac, Q: EpAffine, A: Affine, p: int)
    requires IsPrime(p) && ReducedJac(P, p) && Rep(P, A, p) && A.Pt? && 0 <= Q.x < p && 0 <= Q.y < p
    ensures var w := P.z;
            var z1z1 := FMul(P.z, P.z, p);
            var u2, s2 := FMul(Q.x, z1z1, p), FMul(FMul(Q.y, z1z1, p), P.z, p);
            && !Cong(w, 0, p)
            && Cong(P.x, A.x * (w * w), p) && Cong(u2, Q.x * (w * w), p) && (P.x == u2 <==> A.x == Q.x)
            && Cong(P.y, A.y * (w * w * w), p) && Cong(s2, Q.y * (w * w * w), p) && (P.y == s2 <==> A.y == Q.y)
  {
    hide Cong, IsPrime, FMul;
    var w := P.z;
    CongRefl(Q.x, p);
    CongRefl(Q.y, p);
    assert Q.x * (1 * 1) == Q.x && Q.y * (1 * 1 * 1) == Q.y && w == 1 * w;
    ScaleX(Q.x, Q.x, 1, w, w, p);
    ScaleY(Q.y, Q.y, 1, w, w, p);
    ProductNonzero(w, w, p);
    ProductNonzero(w * w, w, p);
    var z1z1 := FMul(w, w, p);
    CrossEqual(P.x, FMul(Q.x, z1z1, p), A.x, Q.x, w * w, p);
    CrossEqual(P.y, FMul(FMul(Q.y, z1z1, p), w, p), A.y, Q.y, w * w * w, p);
  }

  lemma AddMixedRep(P: Jac, Q: EpAffine, A: Affine, b: int, p: int)
    requires IsPrime(p) && p > 2 && ReducedJac(P, p) && Rep(P, A, p) && OnCurve(A, b, p) && ValidAffine(Q, b, p)
    ensures Rep(AddMixed(P, Q, p), AffAdd(A, PointOfAffine(Q), p), p)
    ensures ReducedJac(AddMixed(P, Q, p), p)
  {
    hide Cong, IsPrime, FMul, FAdd, FSub, AddTail, Double;
    ZeroC(P.z, p);
    CongRefl(0, p);
    ToCurveRep(Q, b, p);
    var B := PointOfAffine(Q);
    if A.Pt? && B.Pt? {
      MixedCases(P, Q, A, p);
      if A.x == B.x {
        SameAbscissa(A, B, b, p);
        if A.y == B.y { DoubleRep(P, A, b, p); }
      } else {
        var w := P.z;
        var z1z1 := FMul(P.z, P.z, p);
        var u2, s2 := FMul(Q.x, z1z1, p), FMul(FMul(Q.y, z1z1, p), P.z, p);
        var h := FSub(u2, P.x, p);
        Differences(P.x, u2, A.x, B.x, w * w, p);
        Differences(P.y, s2, A.y, B.y, w * w * w, p);
        SquareOfDouble(h, p);
        TwiceProduct(P.z, h, p);
        var hh := FMul(h, h, p);
        var i := FAdd(hh, hh, p);
        var zh := FAdd(P.z, h, p);
        AddTailRep(P.x, P.y, h, FAdd(i, i, p), FSub(s2, P.y, p),
                   FSub(FSub(FMul(zh, zh, p), z1z1, p), hh, p), A, B, w, b, p);
      }
    }
  }

  lemma AddAffineRep(P: EpAffine, Q: EpAffine, b: int, p: int)
    requires IsPrime(p) && p > 2 && ValidAffine(P, b, p) && ValidAffine(Q, b, p)
    ensures Rep(AddAffine(P, Q, p), AffAdd(PointOfAffine(P), PointOfAffine(Q), p), p)
    ensures ReducedJac(AddAffine(P, Q, p), p)
  {
    hide Cong, IsPrime, FMul, FAdd, FSub, AddTail, Double;
    CongRefl(0, p);
    ToCurveRep(P, b, p);
    ToCurveRep(Q, b, p);
    var A, B := PointOfAffine(P), PointOfAffine(Q);
    if A.Pt? && B.Pt? {
      if A.x == B.x {
        SameAbscissa(A, B, b, p);
        if A.y == B.y { DoubleRep(ToCurve(P), A, b, p); }
      } else {
        var h := FSub(Q.x, P.x, p);
        NonzeroResidue(1, p);
        CongRefl(P.x, p);
        CongRefl(P.y, p);
        CongRefl(Q.x, p);
        CongRefl(Q.y, p);
        CongRefl(h, p);
        SubC(Q.x, Q.x, P.x, P.x, p);
        SubC(Q.y, Q.y, P.y, P.y, p);
        AddC(h, h, h, h, p);
        SquareOfDouble(h, p);
        var hh := FMul(h, h, p);
        var i := FAdd(hh, hh, p);
        UnitDenominator(P.x, P.y, Q.x - P.x, Q.y - P.y, h);
        AddTailRep(P.x, P.y, h, FAdd(i, i, p), FSub(Q.y, P.y, p), FAdd(h, h, p), A, B, 1, b, p);
      }
    }
  }

  lemma UnitDenominator(x: int, y: int, dx: int, dy: int, h: int)
    ensures x * (1 * 1) == x && y * (1 * 1 * 1) == y && dx * (1 * 1) == dx && dy * (1 * 1 * 1) == dy
    ensures 2 * (1 * h) == h + h
  {
  }

  // ------------------------------------------------------ equality, agreement

  lemma CtEqReassociate(y: int, z: int, p: Modulus)
    ensures FMul(y, FMul(FMul(z, z, p), z, p), p) == FMul(FMul(y, FMul(z, z, p), p), z, p)
  {
    hide Cong, FMul;
    CongRefl(y, p);
    CongRefl(z, p);
    var zz := FMul(z, z, p);
    CongRefl(zz, p);
    MulC(zz, zz, z, z, p);
    MulC(y, y, FMul(zz, z, p), zz * z, p);
    MulC(y, y, zz, zz, p);
    MulC(FMul(y, zz, p), y * zz, z, z, p);
    assert y * (zz * z) == y * zz * z;
    SameC(FMul(y, FMul(zz, z, p), p), FMul(FMul(y, zz, p), z, p), y * zz * z, p);
  }

  /** The comparison decides equality of the points. */
  lemma CtEqIsEquality(P: Jac, Q: Jac, p: int)
    requires IsPrime(p) && ReducedJac(P, p) && ReducedJac(Q, p)
    ensures CtEq(P, Q, p) <==> ToAffine(P, p) == ToAffine(Q, p)
  {
    hide Cong, IsPrime, FMul;
    RepToAffine(P, p);
    RepToAffine(Q, p);
    if P.z != 0 && Q.z != 0 {
      CrossCases(P, Q, ToAffine(P, p), ToAffine(Q, p), p);
      CtEqReassociate(P.y, Q.z, p);
      CtEqReassociate(Q.y, P.z, p);
    }
  }

  /** All three adders compute the affine law, and the result stays on the curve. */
  lemma AddersRefine(P: EpAffine, Q: EpAffine, J: Jac, K: Jac, b: int, p: int)
    requires IsPrime(p) && p > 2 && ValidAffine(P, b, p) && ValidAffine(Q, b, p)
    requires ReducedJac(J, p) && ToAffine(J, p) == PointOfAffine(P)
    requires ReducedJac(K, p) && ToAffine(K, p) == PointOfAffine(Q)
    ensures var S := AffAdd(PointOfAffine(P), PointOfAffine(Q), p);
            && ToAffine(AddJac(J, K, p), p) == S
            && ToAffine(AddMixed(J, Q, p), p) == S
            && ToAffine(AddAffine(P, Q, p), p) == S
            && OnCurve(S, b, p)
  {
    hide Cong, IsPrime, AddJac, AddMixed, AddAffine, AffAdd, ToAffine;
    var A, B := PointOfAffine(P), PointOfAffine(Q);
    RepToAffine(J, p);
    RepToAffine(K, p);
    AddOnCurve(A, B, b, p);
    AddJacRep(J, K, A, B, b, p);
    AddMixedRep(J, Q, A, b, p);
    AddAffineRep(P, Q, b, p);
    RepDecides(AddJac(J, K, p), AffAdd(A, B, p), b, p);
    RepDecides(AddMixed(J, Q, p), AffAdd(A, B, p), b, p);
    RepDecides(AddAffine(P, Q, p), AffAdd(A, B, p), b, p);
  }

  /** On any representatives of the same two points the three adders return equal points. */
  lemma AddersAgree(P: EpAffine, Q: EpAffine, J: Jac, K: Jac, b: int, p: int)
    requires IsPrime(p) && p > 2 && ValidAffine(P, b, p) && ValidAffine(Q, b, p)
    requires ReducedJac(J, p) && CtEq(J, ToCurve(P), p)
    requires ReducedJac(K, p) && CtEq(K, ToCurve(Q), p)
    ensures CtEq(AddJac(J, K, p), AddMixed(J, Q, p), p)
    ensures CtEq(AddMixed(J, Q, p), AddAffine(P, Q, p), p)
    ensures CtEq(AddJac(J, K, p), AddAffine(P, Q, p), p)
  {
    hide Cong, IsPrime, AddJac, AddMixed, AddAffine, AffAdd, ToAffine, CtEq;
    var A, B := PointOfAffine(P), PointOfAffine(Q);
    ToCurveRep(P, b, p);
    ToCurveRep(Q, b, p);
    RepDecides(ToCurve(P), A, b, p);
    RepDecides(ToCurve(Q), B, b, p);
    CtEqIsEquality(J, ToCurve(P), p);
    CtEqIsEquality(K, ToCurve(Q), p);
    RepToAffine(J, p);
    RepToAffine(K, p);
    AddersRefine(P, Q, J, K, b, p);
    AddJacRep(J, K, A, B, b, p);
    AddMixedRep(J, Q, A, b, p);
    AddAffineRep(P, Q, b, p);
    CtEqIsEquality(AddJac(J, K, p), AddMixed(J, Q, p), p);
    CtEqIsEquality(AddMixed(J, Q, p), AddAffine(P, Q, p), p);
    CtEqIsEquality(AddJac(J, K, p), AddAffine(P, Q, p), p);
  }

  /** Normalisation is ToAffine in the struct's encoding of infinity. */
  lemma ToEpAffineIs(J: Jac, p: int)
    requires IsPrime(p) && ReducedJac(J, p)
    ensures ToEpAffine(J, p) == match ToAffine(J, p) case Inf => EpAffine(0, 0) case Pt(x, y) => EpAffine(x, y)
  {
    hide Cong, IsPrime, FMul;
    ZeroC(J.z, p);
    if J.z != 0 { InvCorrect(J.z, p); } else { InvZero(p); }
  }

  /** to_affine undoes to_curve, and undoes any other choice of Z. */
  lemma ToCurveBack(E: EpAffine, J: Jac, p: int)
    requires IsPrime(p) && 0 <= E.x < p && 0 <= E.y < p && ReducedJac(J, p)
    requires J.x == E.x * (J.z * J.z) % p && J.y == E.y * (J.z * J.z * J.z) % p && J.z != 0
    ensures ToEpAffine(J, p) == E && ToEpAffine(ToCurve(E), p) == E
  {
    hide Cong, IsPrime, ToAffine, ToEpAffine;
    ToAffineScaled(E.x, E.y, J, p);
    ToEpAffineIs(J, p);
    var K := ToCurve(E);
    SmallMod(0, p);
    SmallMod(E.x, p);
    SmallMod(E.y, p);
    assert E.x * 1 == E.x && E.y * 1 == E.y;
    ToAffineScaled(E.x, E.y, K, p);
    ToEpAffineIs(K, p);
  }

  lemma InvZero(p: Modulus)
    ensures Inv(0, p) == 0
  {
    SmallMod(0, p);
  }
}
