/** Congruence of integers modulo a positive number, the relation in which every
    modular computation of the system is specified. */
module Congruence {

  type Modulus = m: int | m > 0 witness 1

  ghost predicate Cong(a: int, b: int, m: Modulus) {
    (a - b) % m == 0
  }

  lemma MultipleBounds(k: int, m: Modulus)
    ensures k >= 1 ==> k * m >= m
    ensures k <= -1 ==> k * m + m <= 0
  {
  }

  lemma CongIntro(a: int, b: int, k: int, m: Modulus)
    requires a - b == k * m
    ensures Cong(a, b, m)
  {
    var q, r := (a - b) / m, (a - b) % m;
    assert (k - q) * m == r;
    MultipleBounds(k - q, m);
  }

  lemma CongElim(a: int, b: int, m: Modulus) returns (k: int)
    requires Cong(a, b, m)
    ensures a - b == k * m
  {
    k := (a - b) / m;
  }

  lemma CongRefl(a: int, m: Modulus)
    ensures Cong(a, a, m)
  {
    CongIntro(a, a, 0, m);
  }

  lemma CongSym(a: int, b: int, m: Modulus)
    requires Cong(a, b, m)
    ensures Cong(b, a, m)
  {
    var k := CongElim(a, b, m);
    CongIntro(b, a, -k, m);
  }

  lemma CongTrans(a: int, b: int, c: int, m: Modulus)
    requires Cong(a, b, m) && Cong(b, c, m)
    ensures Cong(a, c, m)
  {
    var k := CongElim(a, b, m);
    var l := CongElim(b, c, m);
    CongIntro(a, c, k + l, m);
  }

  lemma CongAdd(a: int, b: int, c: int, d: int, m: Modulus)
    requires Cong(a, b, m) && Cong(c, d, m)
    ensures Cong(a + c, b + d, m)
  {
    var k := CongElim(a, b, m);
    var l := CongElim(c, d, m);
    CongIntro(a + c, b + d, k + l, m);
  }

  lemma CongSub(a: int, b: int, c: int, d: int, m: Modulus)
    requires Cong(a, b, m) && Cong(c, d, m)
    ensures Cong(a - c, b - d, m)
  {
    var k := CongElim(a, b, m);
    var l := CongElim(c, d, m);
    CongIntro(a - c, b - d, k - l, m);
  }

  lemma CongMul(a: int, b: int, c: int, d: int, m: Modulus)
    requires Cong(a, b, m) && Cong(c, d, m)
    ensures Cong(a * c, b * d, m)
  {
    var k := CongElim(a, b, m);
    var l := CongElim(c, d, m);
    calc {
      a * c - b * d;
      (a - b) * c + b * (c - d);
      (k * m) * c + b * (l * m);
      (k * c + b * l) * m;
    }
    CongIntro(a * c, b * d, k * c + b * l, m);
  }

  /** Reducing modulo m stays in the congruence class. */
  lemma CongMod(a: int, m: Modulus)
    ensures Cong(a % m, a, m) && Cong(a, a % m, m)
  {
    CongIntro(a, a % m, a / m, m);
    CongSym(a, a % m, m);
  }

  /** A congruence class has one representative in [0, m). */
  lemma CongUnique(a: int, b: int, m: Modulus)
    requires Cong(a, b, m)
    requires 0 <= a < m && 0 <= b < m
    ensures a == b
  {
    var k := CongElim(a, b, m);
    MultipleBounds(k, m);
  }

  lemma NonzeroResidue(a: int, m: Modulus)
    requires 0 < a < m
    ensures !Cong(a, 0, m)
  {
    if Cong(a, 0, m) { CongUnique(a, 0, m); }
  }

  lemma CongToMod(a: int, b: int, m: Modulus)
    requires Cong(a, b, m)
    ensures a % m == b % m
  {
    CongMod(a, m);
    CongMod(b, m);
    CongTrans(a % m, a, b, m);
    CongTrans(a % m, b, b % m, m);
    CongUnique(a % m, b % m, m);
  }

  lemma ModToCong(a: int, b: int, m: Modulus)
    requires a % m == b % m
    ensures Cong(a, b, m)
  {
    CongMod(a, m);
    CongMod(b, m);
    CongTrans(a, a % m, b, m);
  }

  /** The residue of a congruent number already in [0, m) is that number. */
  lemma CongResidue(r: int, a: int, m: Modulus)
    requires Cong(r, a, m) && 0 <= r < m
    ensures r == a % m
  {
    CongMod(a, m);
    CongTrans(r, a, a % m, m);
    CongUnique(r, a % m, m);
  }

  /** A number in [0, m) is its own residue. */
  lemma SmallMod(a: int, m: Modulus)
    requires 0 <= a < m
    ensures a % m == a
  {
    CongRefl(a, m);
    CongResidue(a, a, m);
  }
}
