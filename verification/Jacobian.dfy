/** Jacobian coordinates: which affine point a triple stands for, and the doubling and addition
    formulas of the derivation tool as refinements of the affine law. */
module Jacobian {
  import opened IntegerLaws
  import opened Congruence
  import opened PrimeField
  import opened FieldOps
  import opened AffineCurve

  datatype Jac = Jac(x: int, y: int, z: int)

  ghost predicate ReducedJac(J: Jac, p: Modulus) {
    0 <= J.x < p && 0 <= J.y < p && 0 <= J.z < p
  }

  /** (X, Y, Z) stands for (X/Z^2, Y/Z^3), and for infinity when Z = 0. */
  ghost predicate Rep(J: Jac, A: Affine, p: Modulus) {
    && Reduced(A, p)
    && (A.Inf? <==> Cong(J.z, 0, p))
    && (A.Pt? ==> Cong(J.x, A.x * (J.z * J.z), p) && Cong(J.y, A.y * (J.z * J.z * J.z), p))
  }

  function ToAffine(J: Jac, p: Modulus): Affine {
    if J.z == 0 then Inf else
    var zi := Inv(J.z, p);
    var zi2 := FMul(zi, zi, p);
    Pt(FMul(J.x, zi2, p), FMul(J.y, FMul(zi2, zi, p), p))
  }

  /** Y^2 = X^3 + b*Z^6, the curve equation in Jacobian coordinates. */
  ghost predicate OnCurveJac(J: Jac, b: int, p: Modulus) {
    Cong(J.y * J.y, J.x * J.x * J.x + b * (J.z * J.z * J.z * (J.z * J.z * J.z)), p)
  }

  // --------------------------------------------------------- representation

  lemma ScaleBack(v: int, u: int, i: int, p: Modulus)
    requires Cong(u * i, 1, p)
    ensures Cong(FMul(v, i, p) * u, v, p)
  {
    hide Cong;
    CongMod(v * i, p);
    CongRefl(u, p);
    CongMul(FMul(v, i, p), v * i, u, u, p);
    CongRefl(v, p);
    CongMul(v, v, u * i, 1, p);
    assert v * i * u == v * (u * i);
    CongTrans(FMul(v, i, p) * u, v * (u * i), v, p);
  }

  lemma InversePowers(z: int, p: int)
    requires IsPrime(p) && !Cong(z, 0, p)
    ensures var i := Inv(z, p); var i2 := FMul(i, i, p);
            Cong(z * z * i2, 1, p) && Cong(z * z * z * FMul(i2, i, p), 1, p)
  {
    hide Cong, IsPrime;
    InvCorrect(z, p);
    var i := Inv(z, p);
    var i2 := FMul(i, i, p);
    CongRefl(i, p);
    CongRefl(z * z, p);
    CongRefl(z * z * z, p);
    MulC(i, i, i, i, p);
    CongMul(z * z, z * z, i2, i * i, p);
    CongMul(z * i, 1, z * i, 1, p);
    Exchange(z, i, z, i);
    CongTrans(z * z * i2, (z * i) * (z * i), 1, p);
    MulC(i2, i2, i, i, p) by { CongRefl(i2, p); }
    CongMul(z * z * z, z * z * z, FMul(i2, i, p), i2 * i, p);
    CongMul(z * z * i2, 1, z * i, 1, p);
    Exchange(z * z, i2, z, i);
    CongTrans(z * z * z * FMul(i2, i, p), (z * z * i2) * (z * i), 1, p);
  }

  /** ToAffine yields the point that the triple stands for. */
  lemma RepToAffine(J: Jac, p: int)
    requires IsPrime(p) && ReducedJac(J, p)
    ensures Rep(J, ToAffine(J, p), p)
  {
    hide Cong, IsPrime;
    ZeroC(J.z, p);
    if J.z != 0 {
      InversePowers(J.z, p);
      var zi := Inv(J.z, p);
      var zi2 := FMul(zi, zi, p);
      var A := ToAffine(J, p);
      ScaleBack(J.x, J.z * J.z, zi2, p);
      CongSym(A.x * (J.z * J.z), J.x, p);
      ScaleBack(J.y, J.z * J.z * J.z, FMul(zi2, zi, p), p);
      CongSym(A.y * (J.z * J.z * J.z), J.y, p);
    }
  }

  /** A triple stands for one point only. */
  lemma RepUnique(J: Jac, A: Affine, B: Affine, p: int)
    requires IsPrime(p) && Rep(J, A, p) && Rep(J, B, p)
    ensures A == B
  {
    hide Cong, IsPrime;
    if A.Pt? {
      var z := J.z;
      ProductNonzero(z, z, p);
      ProductNonzero(z * z, z, p);
      SameMultiple(A.x, B.x, J.x, z * z, p);
      SameMultiple(A.y, B.y, J.y, z * z * z, p);
    }
  }

  /** (x*l^2, y*l^3, l) normalises to (x, y) for every nonzero l, and Z = 0 to infinity. */
  lemma ToAffineScaled(x: int, y: int, J: Jac, p: int)
    requires IsPrime(p) && 0 <= x < p && 0 <= y < p && ReducedJac(J, p)
    requires J.x == x * (J.z * J.z) % p && J.y == y * (J.z * J.z * J.z) % p
    ensures ToAffine(J, p) == if J.z == 0 then Inf else Pt(x, y)
  {
    hide Cong, IsPrime;
    ZeroC(J.z, p);
    if J.z != 0 {
      CongMod(x * (J.z * J.z), p);
      CongMod(y * (J.z * J.z * J.z), p);
      RepToAffine(J, p);
      RepUnique(J, ToAffine(J, p), Pt(x, y), p);
    }
  }

  lemma SameMultiple(a: int, b: int, v: int, k: int, p: int)
    requires IsPrime(p) && 0 <= a < p && 0 <= b < p && !Cong(k, 0, p)
    requires Cong(v, a * k, p) && Cong(v, b * k, p)
    ensures a == b
  {
    hide Cong, IsPrime;
    CongSym(v, a * k, p);
    CongTrans(a * k, v, b * k, p);
    assert a * k == k * a && b * k == k * b;
    Cancel(k, a, b, p);
    CongUnique(a, b, p);
  }

  /** The Jacobian curve equation is the affine one. */
  lemma RepOnCurve(J: Jac, A: Affine, b: int, p: int)
    requires IsPrime(p) && Rep(J, A, p) && A.Pt?
    ensures OnCurveJac(J, b, p) <==> OnCurve(A, b, p)
  {
    hide Cong, IsPrime;
    var z, u := J.z, J.z * J.z * J.z;
    var k := u * u;
    ProductNonzero(z, z, p);
    ProductNonzero(z * z, z, p);
    ProductNonzero(u, u, p);
    var l, r := A.y * A.y, A.x * A.x * A.x + b;
    CongMul(J.y, A.y * u, J.y, A.y * u, p);
    assert (A.y * u) * (A.y * u) == k * l;
    CongMul(J.x, A.x * (z * z), J.x, A.x * (z * z), p);
    CongMul(J.x * J.x, (A.x * (z * z)) * (A.x * (z * z)), J.x, A.x * (z * z), p);
    CubeScale(A.x, z, u);
    CongRefl(b * k, p);
    CongAdd(J.x * J.x * J.x, A.x * A.x * A.x * k, b * k, b * k, p);
    assert A.x * A.x * A.x * k + b * k == k * r;
    var jl, jr := J.y * J.y, J.x * J.x * J.x + b * k;
    if Cong(jl, jr, p) {
      CongSym(jl, k * l, p);
      CongTrans(k * l, jl, jr, p);
      CongTrans(k * l, jr, k * r, p);
      Cancel(k, l, r, p);
    }
    if Cong(l, r, p) {
      CongRefl(k, p);
      CongMul(k, k, l, r, p);
      CongSym(jr, k * r, p);
      CongTrans(jl, k * l, k * r, p);
      CongTrans(jl, k * r, jr, p);
    }
  }

  lemma CubeScale(x: int, z: int, u: int)
    requires u == z * z * z
    ensures (x * (z * z)) * (x * (z * z)) * (x * (z * z)) == x * x * x * (u * u)
  {
    var s := z * z;
    assert (x * s) * (x * s) * (x * s) == x * x * x * (s * s * s);
    assert s * s * s == u * u;
  }

  // ------------------------------------------------ from polynomials to points

  /** With Z3 = g: the numerators that make (X3, Y3, Z3) the third point of the line with slope l. */
  lemma ThirdPointRep(r: int, V: int, T: int, J: Jac, x1: int, y1: int, x2: int, l: int, g: int, p: int)
    requires IsPrime(p) && !Cong(g, 0, p)
    requires Cong(J.z, g, p) && Cong(r, l * g, p) && Cong(V, x1 * (g * g), p) && Cong(T, y1 * (g * g * g), p)
    requires Cong(J.x, (l * l - x1 - x2) * (g * g), p)
    requires Cong(J.y, r * (V - J.x) - T, p)
    ensures Rep(J, ThirdPoint(x1, y1, x2, l, p), p)
  {
    hide Cong;
    var A, s := ThirdPoint(x1, y1, x2, l, p), l * l - x1 - x2;
    ThirdPointC(x1, y1, x2, l, p);
    if Cong(J.z, 0, p) {
      CongSym(J.z, g, p);
      CongTrans(g, J.z, 0, p);
    }
    CongSub(V, x1 * (g * g), J.x, s * (g * g), p);
    CongMul(r, l * g, V - J.x, x1 * (g * g) - s * (g * g), p);
    CongSub(r * (V - J.x), (l * g) * (x1 * (g * g) - s * (g * g)), T, y1 * (g * g * g), p);
    LineScale(l, g, x1, s, y1);
    var t := l * (x1 - s) - y1;
    CongTrans(J.y, r * (V - J.x) - T, t * (g * g * g), p);
    CongMul(J.z, g, J.z, g, p);
    CongMul(J.z * J.z, g * g, J.z, g, p);
    Rescale(J.x, A.x, s, J.z * J.z, g * g, p);
    Rescale(J.y, A.y, t, J.z * J.z * J.z, g * g * g, p);
  }

  lemma LineScale(l: int, g: int, x1: int, s: int, y1: int)
    ensures (l * g) * (x1 * (g * g) - s * (g * g)) - y1 * (g * g * g) == (l * (x1 - s) - y1) * (g * g * g)
  {
    var k := g * g;
    assert x1 * k - s * k == (x1 - s) * k;
    assert (l * g) * ((x1 - s) * k) == (l * (x1 - s)) * (k * g);
  }

  lemma Rescale(v: int, a: int, a': int, k: int, k': int, p: Modulus)
    requires Cong(v, a' * k', p) && Cong(a, a', p) && Cong(k, k', p)
    ensures Cong(v, a * k, p)
  {
    hide Cong;
    CongMul(a, a', k, k', p);
    CongSym(a * k, a' * k', p);
    CongTrans(v, a' * k', a * k, p);
  }

  // --------------------------------------------------------------- addition

  /** The polynomial identities behind the addition formulas, with e = H and g = Z3. */
  lemma AddIdentities(d: int, w: int, e: int, g: int, x1: int, y1: int, l: int)
    requires e == d * (w * w) && g == 2 * (w * e)
    ensures x1 * (w * w) * (4 * (e * e)) == x1 * (g * g)
    ensures e * (4 * (e * e)) == d * (g * g)
    ensures 2 * (l * d * (w * w * w)) == l * g
    ensures 2 * (y1 * (w * w * w) * (d * (g * g))) == y1 * (g * g * g)
    ensures l * g * (l * g) - d * (g * g) - 2 * (x1 * (g * g)) == (l * l - x1 - (x1 + d)) * (g * g)
  {
    var k, c, ww := g * g, w * w * w, w * w;
    assert e == d * ww;
    ScaledSquare(w, e);
    assert k == 4 * ((w * w) * (e * e));
    SwapFirst(e, e, e);
    assert w * e == d * c by { SwapFirst(w, d, ww); }
    assert g == 2 * (d * c);
    Associate(x1, ww, 4 * (e * e));
    assert ww * (4 * (e * e)) == k;
    assert e * (4 * (e * e)) == d * k by { Associate(d, ww, 4 * (e * e)); }
    assert 2 * (l * d * c) == l * g by { Associate(l, d, c); }
    assert 2 * (y1 * c * (d * k)) == y1 * (g * k) by {
      Associate(y1, c, d * k);
      SwapFirst(c, d, k);
      Associate(d, c, k);
    }
    assert g * k == g * g * g;
    Exchange(l, g, l, g);
    LineSquare(l, x1, d, k);
  }

  lemma ScaledSquare(w: int, e: int)
    ensures 2 * (w * e) * (2 * (w * e)) == 4 * ((w * w) * (e * e))
  {
    Exchange(w, e, w, e);
  }

  lemma LineSquare(l: int, x1: int, d: int, k: int)
    ensures (l * l - x1 - (x1 + d)) * k == (l * l) * k - d * k - 2 * (x1 * k)
  {
    DistributeSub(k, l * l - x1, x1 + d);
    DistributeSub(k, l * l, x1);
    Distribute(k, x1, d);
  }

  /** Any evaluation of the addition formulas yields the third point of the chord. */
  lemma ChordRep(u1: int, s1: int, h: int, r: int, i: int, j: int, v: int, J: Jac,
                 x1: int, y1: int, x2: int, y2: int, l: int, w: int, p: int)
    requires IsPrime(p) && p > 2 && !Cong(w, 0, p)
    requires x1 != x2 && IsSlope(l, x1, y1, x2, y2, p)
    requires Cong(u1, x1 * (w * w), p) && Cong(s1, y1 * (w * w * w), p)
    requires Cong(h, (x2 - x1) * (w * w), p) && Cong(r, 2 * ((y2 - y1) * (w * w * w)), p)
    requires Cong(i, 4 * (h * h), p) && Cong(j, h * i, p) && Cong(v, u1 * i, p)
    requires Cong(J.x, r * r - j - 2 * v, p) && Cong(J.y, r * (v - J.x) - 2 * (s1 * j), p)
    requires Cong(J.z, 2 * (w * h), p)
    ensures Rep(J, ThirdPoint(x1, y1, x2, l, p), p)
  {
    hide Cong, IsPrime;
    var d := x2 - x1;
    var e := d * (w * w);
    var g := 2 * (w * e);
    var c := w * w * w;
    AddIdentities(d, w, e, g, x1, y1, l);
    // g is nonzero
    ProductNonzero(w, w, p);
    ProductNonzero(d, w * w, p);
    ProductNonzero(w, e, p);
    TwoNonzero(p);
    ProductNonzero(2, w * e, p);
    // Z3
    CongRefl(2, p);
    CongRefl(w, p);
    CongMul(w, w, h, e, p);
    CongMul(2, 2, w * h, w * e, p);
    CongTrans(J.z, 2 * (w * h), g, p);
    // i, j, v
    CongMul(h, e, h, e, p);
    CongRefl(4, p);
    CongMul(4, 4, h * h, e * e, p);
    CongTrans(i, 4 * (h * h), 4 * (e * e), p);
    CongMul(h, e, i, 4 * (e * e), p);
    CongTrans(j, h * i, d * (g * g), p);
    CongMul(u1, x1 * (w * w), i, 4 * (e * e), p);
    CongTrans(v, u1 * i, x1 * (g * g), p);
    // r
    CongSym(l * d, y2 - y1, p);
    CongRefl(c, p);
    CongMul(y2 - y1, l * d, c, c, p);
    CongMul(2, 2, (y2 - y1) * c, l * d * c, p);
    CongTrans(r, 2 * ((y2 - y1) * c), l * g, p);
    // X3
    CongMul(r, l * g, r, l * g, p);
    CongMul(2, 2, v, x1 * (g * g), p);
    CongSub(r * r, l * g * (l * g), j, d * (g * g), p);
    CongSub(r * r - j, l * g * (l * g) - d * (g * g), 2 * v, 2 * (x1 * (g * g)), p);
    CongTrans(J.x, r * r - j - 2 * v, (l * l - x1 - x2) * (g * g), p);
    // the subtrahend of Y3
    CongMul(s1, y1 * c, j, d * (g * g), p);
    CongMul(2, 2, s1 * j, y1 * c * (d * (g * g)), p);
    ThirdPointRep(r, v, 2 * (s1 * j), J, x1, y1, x2, l, g, p);
  }

  /** The x-numerator over the common denominator. */
  lemma ScaleX(X: int, x: int, z: int, z': int, w: int, p: Modulus)
    requires Cong(X, x * (z * z), p) && w == z * z'
    ensures Cong(FMul(X, FMul(z', z', p), p), x * (w * w), p)
  {
    hide Cong;
    CongRefl(z', p);
    MulC(z', z', z', z', p);
    MulC(X, x * (z * z), FMul(z', z', p), z' * z', p);
    assert x * (z * z) * (z' * z') == x * ((z * z') * (z * z'));
  }

  lemma ScaleY(Y: int, y: int, z: int, z': int, w: int, p: Modulus)
    requires Cong(Y, y * (z * z * z), p) && w == z * z'
    ensures Cong(FMul(FMul(Y, FMul(z', z', p), p), z', p), y * (w * w * w), p)
  {
    hide Cong;
    CongRefl(z', p);
    MulC(z', z', z', z', p);
    MulC(Y, y * (z * z * z), FMul(z', z', p), z' * z', p);
    MulC(FMul(Y, FMul(z', z', p), p), y * (z * z * z) * (z' * z'), z', z', p);
    var u := z * z';
    Exchange(z, z', z, z');
    Exchange(z * z, z' * z', z, z');
    Associate(z * z * z, z' * z', z');
    Associate(y, z * z * z, z' * z');
    Associate(y, (z * z * z) * (z' * z'), z');
  }

  /** Over a common nonzero factor, equal products are equal numbers. */
  lemma CrossEqual(U1: int, U2: int, x1: int, x2: int, k: int, p: int)
    requires IsPrime(p) && !Cong(k, 0, p)
    requires 0 <= U1 < p && 0 <= U2 < p && 0 <= x1 < p && 0 <= x2 < p
    requires Cong(U1, x1 * k, p) && Cong(U2, x2 * k, p)
    ensures U1 == U2 <==> x1 == x2
  {
    hide Cong, IsPrime;
    if U1 == U2 { SameMultiple(x1, x2, U1, k, p); }
    if x1 == x2 { SameC(U1, U2, x1 * k, p); }
  }

  // --------------------------------------------------------------- doubling

  lemma DoubleSquare(x: int, z: int, X: int, Y: int, g: int)
    requires X == x * (z * z) && g == 2 * (Y * z)
    ensures 4 * (X * (Y * Y)) == x * (g * g)
    ensures 3 * (X * X) == 3 * (x * x) * (z * z * z * z)
  {
    var s, q := z * z, Y * Y;
    ScaledSquare(Y, z);
    Associate(x, s, q);
    Exchange(x, s, x, s);
    Associate(s, z, z);
    Associate(3, x * x, s * s);
  }

  lemma DoubleCube(y: int, z: int, Y: int, g: int)
    requires Y == y * (z * z * z) && g == 2 * (Y * z)
    ensures 8 * ((Y * Y) * (Y * Y)) == y * (g * g * g)
  {
    var u, v := Y * z, z * z * z;
    DoubledCube(u);
    Exchange(Y, z, Y, z);
    Exchange(Y * Y, z * z, Y, z);
    SwapFirst(y, Y * Y * Y, v);
    Associate(Y * Y, Y, Y);
    assert y * (g * g * g) == 8 * (y * (u * u * u));
  }

  lemma DoubledCube(u: int)
    ensures 2 * u * (2 * u) * (2 * u) == 8 * (u * u * u)
  {
  }

  lemma DoubleSlope(x: int, y: int, z: int, Y: int, g: int, l: int)
    requires Y == y * (z * z * z) && g == 2 * (Y * z)
    ensures l * (y + y) * (z * z * z * z) == l * g
    ensures l * g * (l * g) - 2 * (x * (g * g)) == (l * l - x - x) * (g * g)
  {
    var v := z * z * z;
    assert y * v * z == y * (v * z);
    assert l * (y + y) * (v * z) == l * (2 * (y * (v * z)));
    var k := g * g;
    assert (l * g) * (l * g) == (l * l) * k;
    assert (l * l - x - x) * k == (l * l) * k - 2 * (x * k);
  }

  /** Any evaluation of the doubling formulas yields the third point of the tangent. */
  lemma TangentRep(X: int, Y: int, Z: int, b: int, c: int, d: int, e: int, J: Jac,
                   x: int, y: int, l: int, p: int)
    requires IsPrime(p) && p > 2 && !Cong(Z, 0, p) && IsSlope(l, x, y, x, y, p)
    requires Cong(X, x * (Z * Z), p) && Cong(Y, y * (Z * Z * Z), p)
    requires Cong(b, Y * Y, p) && Cong(c, b * b, p) && Cong(d, 4 * (X * b), p) && Cong(e, 3 * (X * X), p)
    requires Cong(J.x, e * e - 2 * d, p) && Cong(J.y, e * (d - J.x) - 8 * c, p) && Cong(J.z, 2 * (Y * Z), p)
    ensures Rep(J, ThirdPoint(x, y, x, l, p), p)
  {
    hide Cong, IsPrime;
    var X', Y' := x * (Z * Z), y * (Z * Z * Z);
    var g := 2 * (Y' * Z);
    DoubleSquare(x, Z, X', Y', g);
    DoubleCube(y, Z, Y', g);
    DoubleSlope(x, y, Z, Y', g, l);
    var f := Z * Z * Z * Z;
    CongRefl(2, p);
    CongRefl(3, p);
    CongRefl(4, p);
    CongRefl(8, p);
    CongRefl(Z, p);
    CongRefl(f, p);
    // g is nonzero
    ProductNonzero(Z, Z, p);
    ProductNonzero(Z * Z, Z, p);
    ProductNonzero(Z * Z * Z, Z, p);
    ProductNonzero(y + y, f, p);
    assert (y + y) * f == g by { assert Y' * Z == y * f; }
    // Z3
    CongMul(Y, Y', Z, Z, p);
    CongMul(2, 2, Y * Z, Y' * Z, p);
    CongTrans(J.z, 2 * (Y * Z), g, p);
    // b, c, d
    CongMul(Y, Y', Y, Y', p);
    CongTrans(b, Y * Y, Y' * Y', p);
    CongMul(b, Y' * Y', b, Y' * Y', p);
    CongTrans(c, b * b, (Y' * Y') * (Y' * Y'), p);
    CongMul(8, 8, c, (Y' * Y') * (Y' * Y'), p);
    CongMul(X, X', b, Y' * Y', p);
    CongMul(4, 4, X * b, X' * (Y' * Y'), p);
    CongTrans(d, 4 * (X * b), x * (g * g), p);
    // e
    CongMul(X, X', X, X', p);
    CongMul(3, 3, X * X, X' * X', p);
    CongSym(l * (y + y), 3 * (x * x), p);
    CongMul(3 * (x * x), l * (y + y), f, f, p);
    CongTrans(e, 3 * (X * X), 3 * (x * x) * f, p);
    CongTrans(e, 3 * (x * x) * f, l * g, p);
    // X3
    CongMul(e, l * g, e, l * g, p);
    CongMul(2, 2, d, x * (g * g), p);
    CongSub(e * e, l * g * (l * g), 2 * d, 2 * (x * (g * g)), p);
    CongTrans(J.x, e * e - 2 * d, (l * l - x - x) * (g * g), p);
    ThirdPointRep(e, d, 8 * c, J, x, y, x, l, g, p);
  }

  // -------------------------------------------------- the formulas of the tool

  /** 2[(X+B)^2 - A - C] is 4XB when A = X^2 and C = B^2. */
  function FourXB(X: int, B: int, A: int, C: int, p: Modulus): (r: int)
    ensures 0 <= r < p
  {
    var XB := FAdd(X, B, p);
    var D := FSub(FSub(FMul(XB, XB, p), A, p), C, p);
    FAdd(D, D, p)
  }

  lemma FourXBC(X: int, B: int, A: int, C: int, p: Modulus)
    requires A == FMul(X, X, p) && C == FMul(B, B, p)
    ensures Cong(FourXB(X, B, A, C, p), 4 * (X * B), p)
  {
    hide Cong;
    CongRefl(X, p);
    CongRefl(B, p);
    var XB := FAdd(X, B, p);
    AddC(X, X, B, B, p);
    MulC(XB, X + B, XB, X + B, p);
    MulC(X, X, X, X, p);
    MulC(B, B, B, B, p);
    SubC(FMul(XB, XB, p), (X + B) * (X + B), A, X * X, p);
    var D0 := FSub(FMul(XB, XB, p), A, p);
    SubC(D0, (X + B) * (X + B) - X * X, C, B * B, p);
    var D := FSub(D0, C, p);
    var s := (X + B) * (X + B) - X * X - B * B;
    AddC(D, s, D, s, p);
    assert s + s == 4 * (X * B);
  }

  function Triple(a: int, p: Modulus): (r: int)
    ensures 0 <= r < p
  {
    FAdd(FAdd(a, a, p), a, p)
  }

  function Octuple(c: int, p: Modulus): (r: int)
    ensures 0 <= r < p
  {
    var c2 := FAdd(c, c, p);
    var c4 := FAdd(c2, c2, p);
    FAdd(c4, c4, p)
  }

  lemma SmallMultiples(a: int, v: int, p: Modulus)
    requires Cong(a, v, p)
    ensures Cong(Triple(a, p), 3 * v, p) && Cong(Octuple(a, p), 8 * v, p)
  {
    hide Cong;
    AddC(a, v, a, v, p);
    AddC(FAdd(a, a, p), v + v, a, v, p);
    var c2 := FAdd(a, a, p);
    AddC(c2, 2 * v, c2, 2 * v, p);
    var c4 := FAdd(c2, c2, p);
    AddC(c4, 4 * v, c4, 4 * v, p);
  }

  function JacDbl(P: Jac, p: Modulus): Jac {
    if P.z == 0 || P.y == 0 then Jac(0, 0, 0) else DblFormula(P, p)
  }

  function DblFormula(P: Jac, p: Modulus): Jac {
    var A := FMul(P.x, P.x, p);
    var B := FMul(P.y, P.y, p);
    var C := FMul(B, B, p);
    var D := FourXB(P.x, B, A, C, p);
    var E := Triple(A, p);
    var X3 := FSub(FMul(E, E, p), FAdd(D, D, p), p);
    var Y3 := FSub(FMul(E, FSub(D, X3, p), p), Octuple(C, p), p);
    Jac(X3, Y3, FMul(FAdd(P.y, P.y, p), P.z, p))
  }

  /** The coordinates of the doubling formula as polynomials in its intermediate values. */
  lemma DblCoordinates(e: int, d: int, c8: int, c: int, X3: int, Y3: int, p: Modulus)
    requires X3 == FSub(FMul(e, e, p), FAdd(d, d, p), p)
    requires Y3 == FSub(FMul(e, FSub(d, X3, p), p), c8, p) && Cong(c8, 8 * c, p)
    ensures Cong(X3, e * e - 2 * d, p) && Cong(Y3, e * (d - X3) - 8 * c, p)
  {
    hide Cong;
    CongRefl(e, p);
    CongRefl(d, p);
    CongRefl(X3, p);
    MulC(e, e, e, e, p);
    AddC(d, d, d, d, p);
    SubC(FMul(e, e, p), e * e, FAdd(d, d, p), d + d, p);
    SubC(d, d, X3, X3, p);
    MulC(e, e, FSub(d, X3, p), d - X3, p);
    SubC(FMul(e, FSub(d, X3, p), p), e * (d - X3), c8, 8 * c, p);
  }

  lemma DblFormulaRep(P: Jac, A: Affine, b: int, p: int)
    requires IsPrime(p) && p > 2 && ReducedJac(P, p) && Rep(P, A, p) && A.Pt? && OnCurve(A, b, p)
    requires A.y != FNeg(A.y, p)
    ensures Rep(DblFormula(P, p), AffAdd(A, A, p), p)
    ensures ReducedJac(DblFormula(P, p), p)
  {
    hide Cong, IsPrime, FourXB, Triple, Octuple, Slope, ThirdPoint, FMul, FAdd, FSub;
    var J := DblFormula(P, p);
    SlopeIsSlope(A, A, b, p);
    CongRefl(P.x, p);
    CongRefl(P.y, p);
    CongRefl(P.z, p);
    var a, B := FMul(P.x, P.x, p), FMul(P.y, P.y, p);
    var C := FMul(B, B, p);
    CongRefl(B, p);
    CongRefl(C, p);
    MulC(P.x, P.x, P.x, P.x, p);
    MulC(P.y, P.y, P.y, P.y, p);
    MulC(B, B, B, B, p);
    FourXBC(P.x, B, a, C, p);
    SmallMultiples(a, P.x * P.x, p);
    SmallMultiples(C, C, p);
    DblCoordinates(Triple(a, p), FourXB(P.x, B, a, C, p), Octuple(C, p), C, J.x, J.y, p);
    AddC(P.y, P.y, P.y, P.y, p);
    MulC(FAdd(P.y, P.y, p), P.y + P.y, P.z, P.z, p);
    assert (P.y + P.y) * P.z == 2 * (P.y * P.z);
    TangentRep(P.x, P.y, P.z, B, C, FourXB(P.x, B, a, C, p), Triple(a, p), J, A.x, A.y, Slope(A.x, A.y, A.x, A.y, p), p);
  }

  /** y = 0 in Jacobian form is y = 0 in affine form, the points that are their own negatives. */
  lemma ZeroOrdinate(P: Jac, A: Affine, p: int)
    requires IsPrime(p) && p > 2 && ReducedJac(P, p) && Rep(P, A, p) && A.Pt?
    ensures P.y == 0 <==> A.y == 0
    ensures A.y == 0 <==> A.y == FNeg(A.y, p)
  {
    hide Cong, IsPrime;
    var u := P.z * P.z * P.z;
    ProductNonzero(P.z, P.z, p);
    ProductNonzero(P.z * P.z, P.z, p);
    CongRefl(0, p);
    if P.y == 0 {
      CongSym(P.y, A.y * u, p);
      NoZeroDivisors(A.y, u, p);
      ZeroC(A.y, p);
    }
    if A.y == 0 {
      assert A.y * u == 0;
      ZeroC(P.y, p);
      NegC(0, 0, p);
      ZeroC(FNeg(0, p), p);
    }
    if A.y == FNeg(A.y, p) && A.y != 0 {
      CongRefl(A.y, p);
      NegC(A.y, A.y, p);
      CongAdd(A.y, -A.y, A.y, A.y, p);
      assert A.y + A.y == 2 * A.y;
      TwoNonzero(p);
      NoZeroDivisors(2, A.y, p);
      ZeroC(A.y, p);
    }
  }

  /** Doubling refines the affine law at every point of the curve and at infinity. */
  lemma JacDblRep(P: Jac, A: Affine, b: int, p: int)
    requires IsPrime(p) && p > 2 && ReducedJac(P, p) && Rep(P, A, p) && OnCurve(A, b, p)
    ensures Rep(JacDbl(P, p), AffAdd(A, A, p), p)
    ensures ReducedJac(JacDbl(P, p), p)
  {
    hide Cong, IsPrime;
    CongRefl(0, p);
    ZeroC(P.z, p);
    if A.Pt? {
      ZeroOrdinate(P, A, p);
      if P.y != 0 { DblFormulaRep(P, A, b, p); }
    }
  }

  function JacAdd(P: Jac, Q: Jac, p: Modulus): Jac {
    if P.z == 0 then Q
    else if Q.z == 0 then P
    else
      var Z1, Z2 := FMul(P.z, P.z, p), FMul(Q.z, Q.z, p);
      var U1, U2 := FMul(P.x, Z2, p), FMul(Q.x, Z1, p);
      var S1, S2 := FMul(FMul(P.y, Z2, p), Q.z, p), FMul(FMul(Q.y, Z1, p), P.z, p);
      if U1 == U2 then if S1 == S2 then JacDbl(P, p) else Jac(0, 0, 0)
      else
        var H := FSub(U2, U1, p);
        AddFormula(U1, S1, H, FSub(S2, S1, p), FMul(FMul(FMul(P.z, Q.z, p), H, p), 2, p), p)
  }

  function AddFormula(U1: int, S1: int, H: int, r0: int, Z3: int, p: Modulus): Jac {
    var HH := FMul(H, H, p);
    var I0 := FAdd(HH, HH, p);
    var I := FAdd(I0, I0, p);
    var J := FMul(H, I, p);
    var rr := FAdd(r0, r0, p);
    var V := FMul(U1, I, p);
    var X3 := FSub(FSub(FMul(rr, rr, p), J, p), FAdd(V, V, p), p);
    var SJ := FAdd(FMul(S1, J, p), FMul(S1, J, p), p);
    Jac(X3, FSub(FMul(rr, FSub(V, X3, p), p), SJ, p), Z3)
  }

  /** The formula's coordinates are the polynomials that ChordRep asks for. */
  lemma AddFormulaC(U1: int, S1: int, H: int, r0: int, Z3: int, p: Modulus)
    ensures var R := AddFormula(U1, S1, H, r0, Z3, p);
            var HH := FMul(H, H, p);
            var I0 := FAdd(HH, HH, p);
            var I := FAdd(I0, I0, p);
            var J, rr, V := FMul(H, I, p), FAdd(r0, r0, p), FMul(U1, I, p);
            && Cong(I, 4 * (H * H), p) && Cong(J, H * I, p) && Cong(V, U1 * I, p) && Cong(rr, 2 * r0, p)
            && Cong(R.x, rr * rr - J - 2 * V, p) && Cong(R.y, rr * (V - R.x) - 2 * (S1 * J), p)
  {
    hide Cong;
    var HH := FMul(H, H, p);
    var I0 := FAdd(HH, HH, p);
    var I := FAdd(I0, I0, p);
    var J, rr, V := FMul(H, I, p), FAdd(r0, r0, p), FMul(U1, I, p);
    var R := AddFormula(U1, S1, H, r0, Z3, p);
    CongRefl(H, p); CongRefl(U1, p); CongRefl(S1, p); CongRefl(r0, p); CongRefl(I, p);
    CongRefl(J, p); CongRefl(V, p); CongRefl(rr, p); CongRefl(R.x, p);
    MulC(H, H, H, H, p);
    AddC(HH, H * H, HH, H * H, p);
    AddC(I0, 2 * (H * H), I0, 2 * (H * H), p);
    MulC(H, H, I, I, p);
    MulC(U1, U1, I, I, p);
    AddC(r0, r0, r0, r0, p);
    MulC(rr, rr, rr, rr, p);
    SubC(FMul(rr, rr, p), rr * rr, J, J, p);
    AddC(V, V, V, V, p);
    SubC(FSub(FMul(rr, rr, p), J, p), rr * rr - J, FAdd(V, V, p), V + V, p);
    MulC(S1, S1, J, J, p);
    AddC(FMul(S1, J, p), S1 * J, FMul(S1, J, p), S1 * J, p);
    SubC(V, V, R.x, R.x, p);
    MulC(rr, rr, FSub(V, R.x, p), V - R.x, p);
    SubC(FMul(rr, FSub(V, R.x, p), p), rr * (V - R.x), FAdd(FMul(S1, J, p), FMul(S1, J, p), p), 2 * (S1 * J), p);
  }

  /** The formula at points with different x, over any common denominator w. */
  lemma AddFormulaRep(U1: int, S1: int, H: int, r0: int, Z3: int, A: Affine, B: Affine, w: int, b: int, p: int)
    requires IsPrime(p) && p > 2 && !Cong(w, 0, p) && OnCurve(A, b, p) && OnCurve(B, b, p)
    requires A.Pt? && B.Pt? && A.x != B.x
    requires Cong(U1, A.x * (w * w), p) && Cong(S1, A.y * (w * w * w), p)
    requires Cong(H, (B.x - A.x) * (w * w), p) && Cong(r0, (B.y - A.y) * (w * w * w), p)
    requires Cong(Z3, 2 * (w * H), p)
    ensures Rep(AddFormula(U1, S1, H, r0, Z3, p), AffAdd(A, B, p), p)
  {
    hide Cong, IsPrime;
    SlopeIsSlope(A, B, b, p);
    AddFormulaC(U1, S1, H, r0, Z3, p);
    var HH := FMul(H, H, p);
    var I0 := FAdd(HH, HH, p);
    var I := FAdd(I0, I0, p);
    var rr := FAdd(r0, r0, p);
    CongRefl(2, p);
    CongMul(2, 2, r0, (B.y - A.y) * (w * w * w), p);
    CongTrans(rr, 2 * r0, 2 * ((B.y - A.y) * (w * w * w)), p);
    ChordRep(U1, S1, H, rr, I, FMul(H, I, p), FMul(U1, I, p), AddFormula(U1, S1, H, r0, Z3, p),
             A.x, A.y, B.x, B.y, Slope(A.x, A.y, B.x, B.y, p), w, p);
  }

  /** What the comparisons on cross-multiplied coordinates decide. */
  lemma CrossCases(P: Jac, Q: Jac, A: Affine, B: Affine, p: int)
    requires IsPrime(p) && ReducedJac(P, p) && ReducedJac(Q, p) && Rep(P, A, p) && Rep(Q, B, p) && A.Pt? && B.Pt?
    ensures var w := P.z * Q.z;
            var Z1, Z2 := FMul(P.z, P.z, p), FMul(Q.z, Q.z, p);
            var U1, U2 := FMul(P.x, Z2, p), FMul(Q.x, Z1, p);
            var S1, S2 := FMul(FMul(P.y, Z2, p), Q.z, p), FMul(FMul(Q.y, Z1, p), P.z, p);
            && !Cong(w, 0, p)
            && Cong(U1, A.x * (w * w), p) && Cong(U2, B.x * (w * w), p) && (U1 == U2 <==> A.x == B.x)
            && Cong(S1, A.y * (w * w * w), p) && Cong(S2, B.y * (w * w * w), p) && (S1 == S2 <==> A.y == B.y)
  {
    hide Cong, IsPrime;
    var w := P.z * Q.z;
    var Z1, Z2 := FMul(P.z, P.z, p), FMul(Q.z, Q.z, p);
    ProductNonzero(P.z, Q.z, p);
    ProductNonzero(w, w, p);
    ProductNonzero(w * w, w, p);
    ScaleX(P.x, A.x, P.z, Q.z, w, p);
    ScaleX(Q.x, B.x, Q.z, P.z, w, p);
    ScaleY(P.y, A.y, P.z, Q.z, w, p);
    ScaleY(Q.y, B.y, Q.z, P.z, w, p);
    CrossEqual(FMul(P.x, Z2, p), FMul(Q.x, Z1, p), A.x, B.x, w * w, p);
    CrossEqual(FMul(FMul(P.y, Z2, p), Q.z, p), FMul(FMul(Q.y, Z1, p), P.z, p), A.y, B.y, w * w * w, p);
  }

  lemma Differences(U1: int, U2: int, x1: int, x2: int, k: int, p: Modulus)
    requires Cong(U1, x1 * k, p) && Cong(U2, x2 * k, p)
    ensures Cong(FSub(U2, U1, p), (x2 - x1) * k, p)
  {
    hide Cong;
    SubC(U2, x2 * k, U1, x1 * k, p);
    assert x2 * k - x1 * k == (x2 - x1) * k;
  }

  /** Addition refines the affine law for every pair of curve points, infinity included. */
  lemma JacAddRep(P: Jac, Q: Jac, A: Affine, B: Affine, b: int, p: int)
    requires IsPrime(p) && p > 2 && ReducedJac(P, p) && ReducedJac(Q, p)
    requires Rep(P, A, p) && Rep(Q, B, p) && OnCurve(A, b, p) && OnCurve(B, b, p)
    ensures Rep(JacAdd(P, Q, p), AffAdd(A, B, p), p)
    ensures ReducedJac(JacAdd(P, Q, p), p)
  {
    hide Cong, IsPrime;
    ZeroC(P.z, p);
    ZeroC(Q.z, p);
    CongRefl(0, p);
    if A.Pt? && B.Pt? {
      CrossCases(P, Q, A, B, p);
      if A.x == B.x {
        SameAbscissa(A, B, b, p);
        if A.y == B.y {
          JacDblRep(P, A, b, p);
        }
      } else {
        var w := P.z * Q.z;
        var Z1, Z2 := FMul(P.z, P.z, p), FMul(Q.z, Q.z, p);
        var U1, U2 := FMul(P.x, Z2, p), FMul(Q.x, Z1, p);
        var S1, S2 := FMul(FMul(P.y, Z2, p), Q.z, p), FMul(FMul(Q.y, Z1, p), P.z, p);
        var H := FSub(U2, U1, p);
        Differences(U1, U2, A.x, B.x, w * w, p);
        Differences(S1, S2, A.y, B.y, w * w * w, p);
        CongRefl(P.z, p);
        CongRefl(Q.z, p);
        CongRefl(H, p);
        CongRefl(2, p);
        MulC(P.z, P.z, Q.z, Q.z, p);
        MulC(FMul(P.z, Q.z, p), w, H, H, p);
        MulC(FMul(FMul(P.z, Q.z, p), H, p), w * H, 2, 2, p);
        AddFormulaRep(U1, S1, H, FSub(S2, S1, p), FMul(FMul(FMul(P.z, Q.z, p), H, p), 2, p), A, B, w, b, p);
      }
    }
  }

  // ------------------------------------------------------------ refinement

  /** Both routines compute the affine law on the points their inputs stand for, and keep the
      curve equation Y^2 = X^3 + b*Z^6. */
  lemma JacobianRefines(P: Jac, Q: Jac, b: int, p: int)
    requires IsPrime(p) && p > 2 && ReducedJac(P, p) && ReducedJac(Q, p)
    requires OnCurve(ToAffine(P, p), b, p) && OnCurve(ToAffine(Q, p), b, p)
    ensures ToAffine(JacAdd(P, Q, p), p) == AffAdd(ToAffine(P, p), ToAffine(Q, p), p)
    ensures ToAffine(JacDbl(P, p), p) == AffAdd(ToAffine(P, p), ToAffine(P, p), p)
    ensures OnCurve(ToAffine(JacAdd(P, Q, p), p), b, p) && OnCurve(ToAffine(JacDbl(P, p), p), b, p)
    ensures JacAdd(P, Q, p).z != 0 ==> OnCurveJac(JacAdd(P, Q, p), b, p)
    ensures JacDbl(P, p).z != 0 ==> OnCurveJac(JacDbl(P, p), b, p)
  {
    hide Cong, IsPrime, JacAdd, JacDbl, AffAdd, ToAffine;
    var A, B := ToAffine(P, p), ToAffine(Q, p);
    RepToAffine(P, p);
    RepToAffine(Q, p);
    JacAddRep(P, Q, A, B, b, p);
    JacDblRep(P, A, b, p);
    AddOnCurve(A, B, b, p);
    AddOnCurve(A, A, b, p);
    RepDecides(JacAdd(P, Q, p), AffAdd(A, B, p), b, p);
    RepDecides(JacDbl(P, p), AffAdd(A, A, p), b, p);
  }

  /** A doubling or addition that ends at Z = 0 returns an operand or the triple (0, 0, 0). */
  lemma InfiniteResult(P: Jac, Q: Jac, p: int)
    requires IsPrime(p) && p > 2 && ReducedJac(P, p) && ReducedJac(Q, p)
    ensures JacDbl(P, p).z == 0 ==> JacDbl(P, p) == Jac(0, 0, 0)
    ensures JacAdd(P, Q, p).z == 0 ==> JacAdd(P, Q, p) in {P, Q, Jac(0, 0, 0)}
  {
    hide Cong, IsPrime, FMul, FSub, FAdd;
    InfiniteDouble(P, p);
    if P.z != 0 && Q.z != 0 {
      var U1, U2 := FMul(P.x, FMul(Q.z, Q.z, p), p), FMul(Q.x, FMul(P.z, P.z, p), p);
      if U1 != U2 { NonzeroZ(P.z, Q.z, FSub(U2, U1, p), U1, U2, p); }
    }
  }

  lemma InfiniteDouble(P: Jac, p: int)
    requires IsPrime(p) && p > 2 && ReducedJac(P, p)
    ensures JacDbl(P, p).z == 0 ==> JacDbl(P, p) == Jac(0, 0, 0)
  {
    hide Cong, IsPrime, FMul, FSub;
    if P.z != 0 && P.y != 0 {
      var s := FAdd(P.y, P.y, p);
      NonzeroResidue(P.y, p);
      NonzeroResidue(P.z, p);
      TwoNonzero(p);
      ProductNonzero(2, P.y, p);
      AddsToDouble(P.y, p);
      ResidueProduct(s, P.z, p);
    }
  }

  lemma AddsToDouble(y: int, p: Modulus)
    requires !Cong(2 * y, 0, p)
    ensures !Cong(FAdd(y, y, p), 0, p)
  {
    hide Cong;
    CongMod(y + y, p);
    if Cong(FAdd(y, y, p), 0, p) { CongTrans(y + y, FAdd(y, y, p), 0, p); }
  }

  lemma ResidueProduct(a: int, b: int, p: int)
    requires IsPrime(p) && !Cong(a, 0, p) && !Cong(b, 0, p)
    ensures !Cong(FMul(a, b, p), 0, p) && FMul(a, b, p) != 0
  {
    hide Cong;
    ProductNonzero(a, b, p);
    CongMod(a * b, p);
    if Cong(FMul(a, b, p), 0, p) { CongTrans(a * b, FMul(a, b, p), 0, p); }
    CongRefl(0, p);
  }

  /** The Z of a general addition, 2 * Z1 * Z2 * (U2 - U1). */
  lemma NonzeroZ(z1: int, z2: int, h: int, U1: int, U2: int, p: int)
    requires IsPrime(p) && p > 2 && 0 < z1 < p && 0 < z2 < p && 0 <= U1 < p && 0 <= U2 < p && U1 != U2 && h == FSub(U2, U1, p)
    ensures FMul(FMul(FMul(z1, z2, p), h, p), 2, p) != 0
  {
    hide Cong, IsPrime, FMul;
    NonzeroResidue(z1, p);
    NonzeroResidue(z2, p);
    TwoNonzero(p);
    EqualC(U2, U1, p);
    CongZeroSub(U2, U1, p);
    CongMod(U2 - U1, p);
    if Cong(h, 0, p) { CongTrans(U2 - U1, h, 0, p); }
    ResidueProduct(z1, z2, p);
    ResidueProduct(FMul(z1, z2, p), h, p);
    ResidueProduct(FMul(FMul(z1, z2, p), h, p), 2, p);
  }

  /** Operands that satisfy the Jacobian curve equation have results that do, infinity included. */
  lemma JacobianKeeps(P: Jac, Q: Jac, b: int, p: int)
    requires IsPrime(p) && p > 2 && ReducedJac(P, p) && ReducedJac(Q, p)
    requires OnCurveJac(P, b, p) && OnCurveJac(Q, b, p)
    ensures OnCurveJac(JacAdd(P, Q, p), b, p) && OnCurveJac(JacDbl(P, p), b, p)
  {
    hide Cong, IsPrime, JacAdd, JacDbl, ToAffine, OnCurveJac, OnCurve;
    AffineSide(P, b, p);
    AffineSide(Q, b, p);
    JacobianRefines(P, Q, b, p);
    InfiniteResult(P, Q, p);
    ZeroTriple(b, p);
  }

  lemma AffineSide(P: Jac, b: int, p: int)
    requires IsPrime(p) && ReducedJac(P, p) && OnCurveJac(P, b, p)
    ensures OnCurve(ToAffine(P, p), b, p)
  {
    hide Cong, IsPrime, OnCurveJac;
    RepToAffine(P, p);
    ZeroC(P.z, p);
    if P.z != 0 { RepOnCurve(P, ToAffine(P, p), b, p); }
  }

  lemma ZeroTriple(b: int, p: Modulus)
    ensures OnCurveJac(Jac(0, 0, 0), b, p)
  {
    hide Cong;
    CongRefl(0, p);
  }

  /** A representation of a curve point determines ToAffine and the Jacobian curve equation. */
  lemma RepDecides(J: Jac, A: Affine, b: int, p: int)
    requires IsPrime(p) && ReducedJac(J, p) && Rep(J, A, p) && OnCurve(A, b, p)
    ensures ToAffine(J, p) == A
    ensures J.z != 0 ==> OnCurveJac(J, b, p)
  {
    hide Cong, IsPrime, ToAffine;
    RepToAffine(J, p);
    RepUnique(J, A, ToAffine(J, p), p);
    ZeroC(J.z, p);
    if J.z != 0 { RepOnCurve(J, A, b, p); }
  }
}
