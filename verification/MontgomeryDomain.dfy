/** The Montgomery domain: which residue an element stands for. */
module MontgomeryDomain {
  import opened Congruence
  import opened PrimeField
  import opened Bignum
  import opened MontgomeryContext

  /** 2^-384 modulo an odd m, as a power of (m + 1) / 2. */
  function InvRadix(m: Modulus): (r: int)
    ensures 0 <= r < m
  {
    PowMod((m + 1) / 2, 384, m)
  }

  /** The residue that a Montgomery element stands for. */
  function Dec(C: MCtx, x: Fe6): (v: int)
    requires Modulo(C) > 1
    ensures 0 <= v < Modulo(C)
  {
    Val(x) * InvRadix(Modulo(C)) % Modulo(C)
  }

  lemma InvRadixCorrect(L: Fe6, m: Modulus, e: nat)
    requires m % 2 == 1 && e == 384
    ensures Cong(Radix(L) * InvRadix(m), 1, m)
  {
    hide Cong, Radix, Shift, Pow;
    var h := (m + 1) / 2;
    CongIntro(2 * h, 1, 1, m);
    CongPow(2 * h, 1, e, m);
    PowOne(e);
    PowProduct(2, h, e);
    RadixPowers(L, e);
    CongMod(Pow(h, e), m);
    CongRefl(Radix(L), m);
    CongMul(Radix(L), Radix(L), InvRadix(m), Pow(h, e), m);
    CongTrans(Radix(L) * InvRadix(m), Radix(L) * Pow(h, e), 1, m);
  }

  lemma ValidOdd(C: MCtx)
    requires Valid(C)
    ensures Modulo(C) % 2 == 1
  {
    hide Val, Radix;
    LowLimbParity(C.m);
    if C.m[0] % 2 == 0 { EvenProduct(C.m[0], C.n0); }
  }

  /** A unit with inverse i cancels. */
  lemma CancelUnit(v: int, u: int, i: int, m: Modulus)
    requires Cong(u * i, 1, m)
    ensures Cong(v * u * i, v, m) && Cong(v, v * u * i, m)
  {
    hide Cong;
    CongRefl(v, m);
    CongMul(v, v, u * i, 1, m);
    assert v * (u * i) == v * u * i;
    CongSym(v * u * i, v, m);
  }

  /** Equal multiples of a unit are equal. */
  lemma CancelUnits(v: int, w: int, u: int, i: int, m: Modulus)
    requires Cong(u * i, 1, m) && Cong(v * u, w * u, m)
    ensures Cong(v, w, m)
  {
    hide Cong;
    CongRefl(i, m);
    CongMul(v * u, w * u, i, i, m);
    CancelUnit(v, u, i, m);
    CancelUnit(w, u, i, m);
    CongTrans(v, v * u * i, w * u * i, m);
    CongTrans(v, w * u * i, w, m);
  }

  /** x * i decodes x: it is the d with x = d * R. */
  lemma DecodeByInverse(x: int, d: int, R: int, i: int, m: Modulus)
    requires Cong(R * i, 1, m) && Cong(d, x * i, m)
    ensures Cong(x, d * R, m)
  {
    hide Cong;
    CongRefl(R, m);
    CongMul(d, x * i, R, R, m);
    CancelUnit(x, R, i, m);
    assert x * i * R == x * R * i;
    CongTrans(d * R, x * i * R, x, m);
    CongSym(d * R, x, m);
  }

  /** Dec is the decoding: Val(x) = Dec(x) * 2^384 modulo m, and only Dec(x) has that property. */
  lemma DecChar(C: MCtx, x: Fe6)
    requires Valid(C)
    ensures Cong(Val(x), Dec(C, x) * Radix(C.m), Modulo(C))
    ensures forall v :: 0 <= v < Modulo(C) && Cong(Val(x), v * Radix(C.m), Modulo(C)) ==> v == Dec(C, x)
  {
    hide Cong, Radix, Val, InvRadix;
    var m, R, i, d := Modulo(C), Radix(C.m), InvRadix(Modulo(C)), Dec(C, x);
    ValidOdd(C);
    InvRadixCorrect(C.m, m, 384);
    CongMod(Val(x) * i, m);
    DecodeByInverse(Val(x), d, R, i, m);
    forall v | 0 <= v < m && Cong(Val(x), v * R, m) ensures v == d {
      CongSym(Val(x), v * R, m);
      CongTrans(v * R, Val(x), d * R, m);
      CancelUnits(v, d, R, i, m);
      CongUnique(v, d, m);
    }
  }

  /** Decoding is injective on reduced elements, so limb equality tests compare residues. */
  lemma DecInjective(C: MCtx, x: Fe6, y: Fe6)
    requires Valid(C) && Val(x) < Modulo(C) && Val(y) < Modulo(C) && Dec(C, x) == Dec(C, y)
    ensures x == y
  {
    hide Cong, Radix, Val, Dec;
    DecChar(C, x);
    DecChar(C, y);
    CongSym(Val(y), Dec(C, y) * Radix(C.m), Modulo(C));
    CongTrans(Val(x), Dec(C, x) * Radix(C.m), Val(y), Modulo(C));
    CongUnique(Val(x), Val(y), Modulo(C));
    ValInjective(x, y);
  }

  /** What a number congruent to v * 2^384 decodes to. */
  lemma DecIs(C: MCtx, x: Fe6, v: int)
    requires Valid(C) && Cong(Val(x), v * Radix(C.m), Modulo(C))
    ensures Dec(C, x) == v % Modulo(C)
  {
    hide Cong, Radix, Val, Dec;
    var m := Modulo(C);
    DecChar(C, x);
    CongMod(v, m);
    CongRefl(Radix(C.m), m);
    CongMul(v, v % m, Radix(C.m), Radix(C.m), m);
    CongTrans(Val(x), v * Radix(C.m), v % m * Radix(C.m), m);
  }

  lemma ProductCong(r: int, a: int, b: int, x: int, y: int, R: int, i: int, m: Modulus)
    requires Cong(R * i, 1, m) && Cong(a, x * R, m) && Cong(b, y * R, m) && Cong(r * R, a * b, m)
    ensures Cong(r, x * y * R, m)
  {
    hide Cong;
    CongMul(a, x * R, b, y * R, m);
    CongTrans(r * R, a * b, (x * R) * (y * R), m);
    assert (x * R) * (y * R) == (x * y * R) * R;
    CancelUnits(r, x * y * R, R, i, m);
  }

  /** A product divided by the radix decodes to the product of the decodings. */
  lemma DecProduct(C: MCtx, a: Fe6, b: Fe6, r: Fe6)
    requires Valid(C) && Cong(Val(r) * Radix(C.m), Val(a) * Val(b), Modulo(C))
    ensures Dec(C, r) == Dec(C, a) * Dec(C, b) % Modulo(C)
  {
    hide Cong, Radix, Val, Dec, InvRadix;
    ValidOdd(C);
    InvRadixCorrect(C.m, Modulo(C), 384);
    DecChar(C, a);
    DecChar(C, b);
    ProductCong(Val(r), Val(a), Val(b), Dec(C, a), Dec(C, b), Radix(C.m), InvRadix(Modulo(C)), Modulo(C));
    DecIs(C, r, Dec(C, a) * Dec(C, b));
  }
}
