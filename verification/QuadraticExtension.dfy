/** Pairs a0 + a1*t with t^2 = beta over the field of q elements: the two towers of the bridge. */
module QuadraticExtension {
  import opened IntegerLaws
  import opened Congruence
  import opened PrimeField
  import opened FieldOps
  import opened SquareRoot

  datatype Fq2 = Fq2(c0: int, c1: int)

  const ONE := Fq2(1, 0)
  const ZERO := Fq2(0, 0)

  ghost predicate Reduced2(a: Fq2, q: Modulus) {
    0 <= a.c0 < q && 0 <= a.c1 < q
  }

  function SAdd(a: Fq2, b: Fq2, q: Modulus): (r: Fq2)
    ensures Reduced2(r, q)
  {
    Fq2((a.c0 + b.c0) % q, (a.c1 + b.c1) % q)
  }

  function SSub(a: Fq2, b: Fq2, q: Modulus): (r: Fq2)
    ensures Reduced2(r, q)
  {
    Fq2((a.c0 - b.c0) % q, (a.c1 - b.c1) % q)
  }

  function SMul(a: Fq2, b: Fq2, beta: int, q: Modulus): (r: Fq2)
    ensures Reduced2(r, q)
  {
    Fq2((a.c0 * b.c0 + beta * a.c1 * b.c1) % q, (a.c0 * b.c1 + a.c1 * b.c0) % q)
  }

  function Norm(a: Fq2, beta: int): int {
    a.c0 * a.c0 - beta * a.c1 * a.c1
  }

  /** The conjugate over the norm. Where the norm has no inverse the source raises; SInvCorrect
      says when that cannot happen. */
  function SInv(a: Fq2, beta: int, q: Modulus): (r: Fq2)
    ensures Reduced2(r, q)
  {
    var ni := Inv(Norm(a, beta) % q, q);
    Fq2(a.c0 * ni % q, -a.c1 * ni % q)
  }

  // ------------------------------------------------------------ congruence

  ghost predicate Cong2(a: Fq2, b: Fq2, q: Modulus) {
    Cong(a.c0, b.c0, q) && Cong(a.c1, b.c1, q)
  }

  /** The product before reduction. */
  function RMul(a: Fq2, b: Fq2, beta: int): Fq2 {
    Fq2(a.c0 * b.c0 + beta * a.c1 * b.c1, a.c0 * b.c1 + a.c1 * b.c0)
  }

  function RAdd(a: Fq2, b: Fq2): Fq2 {
    Fq2(a.c0 + b.c0, a.c1 + b.c1)
  }

  function RSub(a: Fq2, b: Fq2): Fq2 {
    Fq2(a.c0 - b.c0, a.c1 - b.c1)
  }

  lemma Refl2(a: Fq2, q: Modulus)
    ensures Cong2(a, a, q)
  {
    hide Cong;
    CongRefl(a.c0, q);
    CongRefl(a.c1, q);
  }

  /** Reduced pairs congruent to the same pair are equal. */
  lemma Same2(a: Fq2, b: Fq2, v: Fq2, q: Modulus)
    requires Reduced2(a, q) && Reduced2(b, q) && Cong2(a, v, q) && Cong2(b, v, q)
    ensures a == b
  {
    hide Cong;
    SameC(a.c0, b.c0, v.c0, q);
    SameC(a.c1, b.c1, v.c1, q);
  }

  lemma MulC2(a: Fq2, a': Fq2, b: Fq2, b': Fq2, beta: int, q: Modulus)
    requires Cong2(a, a', q) && Cong2(b, b', q)
    ensures Cong2(SMul(a, b, beta, q), RMul(a', b', beta), q)
  {
    hide Cong;
    ProductSum(a.c0, a'.c0, b.c0, b'.c0, beta * a.c1, beta * a'.c1, b.c1, b'.c1, q) by {
      CongRefl(beta, q);
      CongMul(beta, beta, a.c1, a'.c1, q);
    }
    ProductSum(a.c0, a'.c0, b.c1, b'.c1, a.c1, a'.c1, b.c0, b'.c0, q);
  }

  lemma ProductSum(a: int, a': int, b: int, b': int, c: int, c': int, d: int, d': int, q: Modulus)
    requires Cong(a, a', q) && Cong(b, b', q) && Cong(c, c', q) && Cong(d, d', q)
    ensures Cong((a * b + c * d) % q, a' * b' + c' * d', q)
  {
    hide Cong;
    CongMul(a, a', b, b', q);
    CongMul(c, c', d, d', q);
    CongAdd(a * b, a' * b', c * d, c' * d', q);
    CongMod(a * b + c * d, q);
    CongTrans((a * b + c * d) % q, a * b + c * d, a' * b' + c' * d', q);
  }

  lemma AddC2(a: Fq2, a': Fq2, b: Fq2, b': Fq2, q: Modulus)
    requires Cong2(a, a', q) && Cong2(b, b', q)
    ensures Cong2(SAdd(a, b, q), RAdd(a', b'), q)
  {
    hide Cong;
    AddC(a.c0, a'.c0, b.c0, b'.c0, q);
    AddC(a.c1, a'.c1, b.c1, b'.c1, q);
  }

  lemma SubC2(a: Fq2, a': Fq2, b: Fq2, b': Fq2, q: Modulus)
    requires Cong2(a, a', q) && Cong2(b, b', q)
    ensures Cong2(SSub(a, b, q), RSub(a', b'), q)
  {
    hide Cong;
    SubC(a.c0, a'.c0, b.c0, b'.c0, q);
    SubC(a.c1, a'.c1, b.c1, b'.c1, q);
  }

  // ------------------------------------------------------------- ring laws

  lemma SMulCommutes(a: Fq2, b: Fq2, beta: int, q: Modulus)
    ensures SMul(a, b, beta, q) == SMul(b, a, beta, q)
  {
    assert a.c0 * b.c0 == b.c0 * a.c0;
    assert beta * a.c1 * b.c1 == beta * b.c1 * a.c1;
  }

  /** The generator squares to beta, and first coordinates multiply as scalars; with SMulAdd this
      is every product. */
  lemma Generator(k: int, a: Fq2, beta: int, q: Modulus)
    ensures SMul(Fq2(0, 1), Fq2(0, 1), beta, q) == Fq2(beta % q, 0)
    ensures SMul(Fq2(k, 0), a, beta, q) == Fq2(k * a.c0 % q, k * a.c1 % q)
    ensures SMul(Fq2(0, 1), Fq2(k, 0), beta, q) == Fq2(0, k % q)
  {
    assert beta * 0 * a.c1 == 0 && 0 * a.c0 == 0 && beta * 1 * 1 == beta && beta * 1 * 0 == 0;
    SmallMod(0, q);
  }

  lemma Scaled(beta: int, r: int, t: int, u: int)
    ensures beta * r * t * u == beta * (r * (t * u))
  {
    Associate(beta * r, t, u);
    Associate(beta, r, t * u);
  }

  lemma FirstCoordinate(p: int, r: int, s: int, t: int, u: int, v: int, beta: int)
    ensures (p * s + beta * r * t) * u + beta * (p * t + r * s) * v == p * (s * u + beta * t * v) + beta * r * (s * v + t * u)
  {
    Distribute(u, p * s, beta * r * t);
    Associate(p, s, u);
    Scaled(beta, r, t, u);
    Associate(beta, p * t + r * s, v);
    Distribute(v, p * t, r * s);
    Associate(p, t, v);
    Associate(r, s, v);
    Distribute(beta, p * (t * v), r * (s * v));
    Distribute(p, s * u, beta * t * v);
    Associate(beta, t, v);
    SwapFirst(p, beta, t * v);
    Distribute(beta * r, s * v, t * u);
    Associate(beta, r, s * v);
    Associate(beta, r, t * u);
  }

  lemma SecondCoordinate(p: int, r: int, s: int, t: int, u: int, v: int, beta: int)
    ensures (p * s + beta * r * t) * v + (p * t + r * s) * u == p * (s * v + t * u) + r * (s * u + beta * t * v)
  {
    Distribute(v, p * s, beta * r * t);
    Associate(p, s, v);
    Scaled(beta, r, t, v);
    Distribute(u, p * t, r * s);
    Associate(p, t, u);
    Associate(r, s, u);
    Distribute(p, s * v, t * u);
    Distribute(r, s * u, beta * t * v);
    Associate(beta, t, v);
    SwapFirst(r, beta, t * v);
  }

  lemma RMulAssociates(a: Fq2, b: Fq2, c: Fq2, beta: int)
    ensures RMul(RMul(a, b, beta), c, beta) == RMul(a, RMul(b, c, beta), beta)
  {
    FirstCoordinate(a.c0, a.c1, b.c0, b.c1, c.c0, c.c1, beta);
    SecondCoordinate(a.c0, a.c1, b.c0, b.c1, c.c0, c.c1, beta);
  }

  lemma SMulAssociates(a: Fq2, b: Fq2, c: Fq2, beta: int, q: Modulus)
    ensures SMul(SMul(a, b, beta, q), c, beta, q) == SMul(a, SMul(b, c, beta, q), beta, q)
  {
    hide Cong2, SMul, RMul;
    Refl2(a, q);
    Refl2(b, q);
    Refl2(c, q);
    MulC2(a, a, b, b, beta, q);
    MulC2(b, b, c, c, beta, q);
    MulC2(SMul(a, b, beta, q), RMul(a, b, beta), c, c, beta, q);
    MulC2(a, a, SMul(b, c, beta, q), RMul(b, c, beta), beta, q);
    RMulAssociates(a, b, c, beta);
    Same2(SMul(SMul(a, b, beta, q), c, beta, q), SMul(a, SMul(b, c, beta, q), beta, q),
          RMul(a, RMul(b, c, beta), beta), q);
  }

  /** (ab)(cd) = (ac)(bd). */
  lemma SMulSwap(a: Fq2, b: Fq2, c: Fq2, d: Fq2, beta: int, q: Modulus)
    ensures SMul(SMul(a, b, beta, q), SMul(c, d, beta, q), beta, q) ==
            SMul(SMul(a, c, beta, q), SMul(b, d, beta, q), beta, q)
  {
    hide SMul;
    SMulAssociates(a, b, SMul(c, d, beta, q), beta, q);
    SMulAssociates(b, c, d, beta, q);
    SMulCommutes(b, c, beta, q);
    SMulAssociates(c, b, d, beta, q);
    SMulAssociates(a, c, SMul(b, d, beta, q), beta, q);
  }

  lemma SMulSub(a: Fq2, b: Fq2, c: Fq2, beta: int, q: Modulus)
    ensures SMul(SSub(a, b, q), c, beta, q) == SSub(SMul(a, c, beta, q), SMul(b, c, beta, q), q)
  {
    hide Cong2, SMul, SSub, RMul, RSub;
    Refl2(a, q);
    Refl2(b, q);
    Refl2(c, q);
    SubC2(a, a, b, b, q);
    MulC2(SSub(a, b, q), RSub(a, b), c, c, beta, q);
    MulC2(a, a, c, c, beta, q);
    MulC2(b, b, c, c, beta, q);
    SubC2(SMul(a, c, beta, q), RMul(a, c, beta), SMul(b, c, beta, q), RMul(b, c, beta), q);
    RMulSub(a, b, c, beta);
    Same2(SMul(SSub(a, b, q), c, beta, q), SSub(SMul(a, c, beta, q), SMul(b, c, beta, q), q),
          RMul(RSub(a, b), c, beta), q);
  }

  lemma RMulSub(a: Fq2, b: Fq2, c: Fq2, beta: int)
    ensures RMul(RSub(a, b), c, beta) == RSub(RMul(a, c, beta), RMul(b, c, beta))
    ensures RMul(RAdd(a, b), c, beta) == RAdd(RMul(a, c, beta), RMul(b, c, beta))
  {
    var d0, d1 := beta * a.c1, beta * b.c1;
    assert beta * (a.c1 - b.c1) == d0 - d1 && beta * (a.c1 + b.c1) == d0 + d1;
  }

  lemma SMulAdd(a: Fq2, b: Fq2, c: Fq2, beta: int, q: Modulus)
    ensures SMul(SAdd(a, b, q), c, beta, q) == SAdd(SMul(a, c, beta, q), SMul(b, c, beta, q), q)
  {
    hide Cong2, SMul, SAdd, RMul, RAdd;
    Refl2(a, q);
    Refl2(b, q);
    Refl2(c, q);
    AddC2(a, a, b, b, q);
    MulC2(SAdd(a, b, q), RAdd(a, b), c, c, beta, q);
    MulC2(a, a, c, c, beta, q);
    MulC2(b, b, c, c, beta, q);
    AddC2(SMul(a, c, beta, q), RMul(a, c, beta), SMul(b, c, beta, q), RMul(b, c, beta), q);
    RMulSub(a, b, c, beta);
    Same2(SMul(SAdd(a, b, q), c, beta, q), SAdd(SMul(a, c, beta, q), SMul(b, c, beta, q), q),
          RMul(RAdd(a, b), c, beta), q);
  }

  // ---------------------------------------------------------------- a field

  /** beta is a non-residue: what makes the tower a field. */
  ghost predicate IsTower(beta: int, q: int) {
    IsPrime(q) && q % 2 == 1 && !IsSquare(beta, q)
  }

  /** x^2 = beta * y^2 only for x = y = 0. */
  lemma NormNonzero(x: int, y: int, beta: int, q: int)
    requires IsTower(beta, q) && Cong(x * x - beta * y * y, 0, q)
    ensures Cong(x, 0, q) && Cong(y, 0, q)
  {
    hide Cong, IsSquare;
    if !Cong(y, 0, q) {
      InvCorrect(y, q);
      var i := Inv(y, q);
      QuotientSquare(x, y, i, beta, q);
      CongMod(x * i, q);
      CongMul((x * i) % q, x * i, (x * i) % q, x * i, q);
      CongTrans((x * i) % q * ((x * i) % q), (x * i) * (x * i), beta, q);
      RootFound((x * i) % q, beta, q);
    } else {
      CongMul(y, 0, y, 0, q);
      CongRefl(beta, q);
      CongMul(beta, beta, y * y, 0, q);
      assert beta * y * y == beta * (y * y);
      CongAdd(x * x - beta * y * y, 0, beta * y * y, beta * 0, q);
      NoZeroDivisors(x, x, q);
    }
  }

  lemma QuotientSquare(x: int, y: int, i: int, beta: int, q: Modulus)
    requires Cong(x * x - beta * y * y, 0, q) && Cong(y * i, 1, q)
    ensures Cong((x * i) * (x * i), beta, q)
  {
    hide Cong;
    CongRefl(i * i, q);
    CongRefl(beta, q);
    CongMul(x * x - beta * y * y, 0, i * i, i * i, q);
    CongMul(y * i, 1, y * i, 1, q);
    CongMul(beta, beta, (y * i) * (y * i), 1, q);
    assert beta * y * y == beta * (y * y);
    assert (x * x - beta * (y * y)) * (i * i) == (x * x) * (i * i) - beta * ((y * y) * (i * i));
    assert (y * y) * (i * i) == (y * i) * (y * i);
    assert (x * x) * (i * i) == (x * i) * (x * i);
    CongZeroSub((x * i) * (x * i), beta * ((y * i) * (y * i)), q);
    CongTrans((x * i) * (x * i), beta * ((y * i) * (y * i)), beta, q);
  }

  /** A nonzero element times its inverse is one. */
  lemma SInvCorrect(a: Fq2, beta: int, q: int)
    requires IsTower(beta, q) && Reduced2(a, q) && a != ZERO
    ensures Norm(a, beta) % q != 0 && SMul(a, SInv(a, beta, q), beta, q) == ONE
  {
    hide Cong, IsSquare, Inv, SInv, SMul, RMul;
    var n := Norm(a, beta);
    if Cong(n, 0, q) {
      NormNonzero(a.c0, a.c1, beta, q);
      ZeroC(a.c0, q);
      ZeroC(a.c1, q);
      assert false;
    }
    InverseValue(a, n, beta, q);
  }

  lemma InverseValue(a: Fq2, n: int, beta: int, q: int)
    requires IsPrime(q) && n == Norm(a, beta) && !Cong(n, 0, q)
    ensures n % q != 0 && SMul(a, SInv(a, beta, q), beta, q) == ONE
  {
    hide Cong, Inv, SMul;
    CongMod(n, q);
    var ni := Inv(n % q, q);
    if Cong(n % q, 0, q) { CongTrans(n, n % q, 0, q); }
    CongRefl(0, q);
    InvCorrect(n % q, q);
    CongRefl(ni, q);
    CongMul(n, n % q, ni, ni, q);
    CongTrans(n * ni, n % q * ni, 1, q);
    var b, v := SInv(a, beta, q), Fq2(a.c0 * ni, -a.c1 * ni);
    CongMod(a.c0 * ni, q);
    CongMod(-a.c1 * ni, q);
    Refl2(a, q);
    MulC2(a, a, b, v, beta, q);
    ConjugateProduct(a, n, ni, beta);
    SameC(SMul(a, b, beta, q).c0, 1, n * ni, q) by { CongSym(n * ni, 1, q); }
    SameC(SMul(a, b, beta, q).c1, 0, 0, q);
  }

  lemma ConjugateProduct(a: Fq2, n: int, ni: int, beta: int)
    requires n == Norm(a, beta)
    ensures RMul(a, Fq2(a.c0 * ni, -a.c1 * ni), beta) == Fq2(n * ni, 0)
  {
    var x, y := a.c0, a.c1;
    assert x * (x * ni) == (x * x) * ni;
    assert beta * y * (-y * ni) == -(beta * y * y) * ni;
    assert x * (-y * ni) + y * (x * ni) == 0;
  }

  /** Cancel a nonzero factor. */
  lemma Cancel2(a: Fq2, b: Fq2, d: Fq2, beta: int, q: int)
    requires IsTower(beta, q) && Reduced2(a, q) && Reduced2(b, q) && Reduced2(d, q) && d != ZERO
    requires SMul(a, d, beta, q) == SMul(b, d, beta, q)
    ensures a == b
  {
    hide SMul, SInv, IsTower, Norm;
    SInvCorrect(d, beta, q);
    var i := SInv(d, beta, q);
    SMulAssociates(a, d, i, beta, q);
    SMulAssociates(b, d, i, beta, q);
    SMulOne(a, beta, q);
    SMulOne(b, beta, q);
  }

  lemma SMulOne(a: Fq2, beta: int, q: Modulus)
    requires Reduced2(a, q)
    ensures SMul(a, ONE, beta, q) == a
  {
    assert a.c0 * 1 + beta * a.c1 * 0 == a.c0;
    SmallMod(a.c0, q);
    SmallMod(a.c1, q);
  }

  /** A product of nonzero elements is nonzero. */
  lemma SMulNonzero(a: Fq2, d: Fq2, beta: int, q: int)
    requires IsTower(beta, q) && Reduced2(a, q) && Reduced2(d, q) && a != ZERO && d != ZERO
    ensures SMul(a, d, beta, q) != ZERO
  {
    hide SMul, IsTower;
    if SMul(a, d, beta, q) == ZERO {
      ZeroTimes(d, beta, q);
      Cancel2(a, ZERO, d, beta, q);
    }
  }

  lemma ZeroTimes(d: Fq2, beta: int, q: Modulus)
    ensures SMul(ZERO, d, beta, q) == ZERO
  {
    assert 0 * d.c0 + beta * 0 * d.c1 == 0;
    assert 0 * d.c1 + 0 * d.c0 == 0;
    SmallMod(0, q);
  }
}
