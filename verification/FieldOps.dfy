/** Arithmetic in the field of p elements on residues, and the step from a chain of field
    operations to the integer polynomial it computes. */
module FieldOps {
  import opened Congruence
  import opened PrimeField

  function FAdd(a: int, b: int, p: Modulus): (r: int)
    ensures 0 <= r < p
  {
    (a + b) % p
  }

  function FSub(a: int, b: int, p: Modulus): (r: int)
    ensures 0 <= r < p
  {
    (a - b) % p
  }

  function FMul(a: int, b: int, p: Modulus): (r: int)
    ensures 0 <= r < p
  {
    a * b % p
  }

  function FNeg(a: int, p: Modulus): (r: int)
    ensures 0 <= r < p
  {
    (-a) % p
  }

  lemma AddC(a: int, a': int, b: int, b': int, p: Modulus)
    requires Cong(a, a', p) && Cong(b, b', p)
    ensures Cong(FAdd(a, b, p), a' + b', p)
  {
    hide Cong;
    CongAdd(a, a', b, b', p);
    CongMod(a + b, p);
    CongTrans(FAdd(a, b, p), a + b, a' + b', p);
  }

  lemma SubC(a: int, a': int, b: int, b': int, p: Modulus)
    requires Cong(a, a', p) && Cong(b, b', p)
    ensures Cong(FSub(a, b, p), a' - b', p)
  {
    hide Cong;
    CongSub(a, a', b, b', p);
    CongMod(a - b, p);
    CongTrans(FSub(a, b, p), a - b, a' - b', p);
  }

  lemma MulC(a: int, a': int, b: int, b': int, p: Modulus)
    requires Cong(a, a', p) && Cong(b, b', p)
    ensures Cong(FMul(a, b, p), a' * b', p)
  {
    hide Cong;
    CongMul(a, a', b, b', p);
    CongMod(a * b, p);
    CongTrans(FMul(a, b, p), a * b, a' * b', p);
  }

  lemma NegC(a: int, a': int, p: Modulus)
    requires Cong(a, a', p)
    ensures Cong(FNeg(a, p), -a', p)
  {
    hide Cong;
    CongRefl(0, p);
    CongSub(0, 0, a, a', p);
    CongMod(-a, p);
    CongTrans(FNeg(a, p), -a, -a', p);
  }

  /** Field values congruent to the same number are equal. */
  lemma SameC(a: int, b: int, v: int, p: Modulus)
    requires 0 <= a < p && 0 <= b < p && Cong(a, v, p) && Cong(b, v, p)
    ensures a == b
  {
    hide Cong;
    CongSym(b, v, p);
    CongTrans(a, v, b, p);
    CongUnique(a, b, p);
  }

  lemma ZeroC(a: int, p: Modulus)
    requires 0 <= a < p
    ensures Cong(a, 0, p) <==> a == 0
  {
    hide Cong;
    CongRefl(0, p);
    if Cong(a, 0, p) { CongUnique(a, 0, p); }
  }

  lemma ProductNonzero(a: int, b: int, p: int)
    requires IsPrime(p) && !Cong(a, 0, p) && !Cong(b, 0, p)
    ensures !Cong(a * b, 0, p)
  {
    hide Cong;
    if Cong(a * b, 0, p) { NoZeroDivisors(a, b, p); }
  }

  /** 2 is a unit modulo an odd prime. */
  lemma TwoNonzero(p: int)
    requires p > 2
    ensures !Cong(2, 0, p)
  {
    NonzeroResidue(2, p);
  }

  lemma CongZeroSub(a: int, b: int, p: Modulus)
    ensures Cong(a - b, 0, p) <==> Cong(a, b, p)
  {
  }

  /** Equality of residues as congruence. */
  lemma EqualC(a: int, b: int, p: Modulus)
    requires 0 <= a < p && 0 <= b < p
    ensures a == b <==> Cong(a, b, p)
  {
    hide Cong;
    CongRefl(a, p);
    if Cong(a, b, p) { CongUnique(a, b, p); }
  }
}
