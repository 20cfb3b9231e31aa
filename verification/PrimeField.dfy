/** The integers modulo a prime: inverses, powers, Fermat's little theorem, the root
    bound for polynomials and the existence of a quadratic non-residue. */
module PrimeField {
  import opened IntegerLaws
  import opened Congruence

  predicate Divides(d: int, n: int)
    requires d > 0
  {
    n % d == 0
  }

  predicate IsPrime(p: int) {
    p >= 2 && forall d :: 2 <= d < p ==> !Divides(d, p)
  }

  lemma ElevenPrime()
    ensures IsPrime(11)
  {
    forall d | 2 <= d < 11 ensures !Divides(d, 11) {
      assert d == 2 || d == 3 || d == 4 || d == 5 || d == 6 || d == 7 || d == 8 || d == 9 || d == 10;
    }
  }

  // ---------------------------------------------------------------- inverses

  /** For 0 < a < p: writing p = q*a + r gives a^-1 = -q * r^-1, with 0 < r < a when p is prime. */
  function InvRec(a: int, p: int): int
    requires 0 < a < p
    decreases a
  {
    if a == 1 then 1
    else if p % a == 0 then 0
    else -(p / a) * InvRec(p % a, p)
  }

  /** The modular inverse, 0 when there is none to take. */
  function Inv(a: int, p: Modulus): (r: int)
    ensures 0 <= r < p
  {
    if a % p == 0 then 0 else InvRec(a % p, p) % p
  }

  lemma InverseStep(a: int, p: int, q: int, r: int, i: int, k: int)
    requires p == q * a + r && r * i - 1 == k * p
    ensures a * (-q * i) - 1 == (k - i) * p
  {
    calc {
      a * (-q * i) - 1;
      (r - p) * i - 1;
      r * i - 1 - i * p;
    }
  }

  lemma {:induction false} InvRecCorrect(a: int, p: int)
    requires IsPrime(p) && 0 < a < p
    ensures Cong(a * InvRec(a, p), 1, p)
    decreases a
  {
    if a == 1 {
      CongRefl(1, p);
    } else {
      assert !Divides(a, p);
      var q, r := p / a, p % a;
      InvRecCorrect(r, p);
      var i := InvRec(r, p);
      var k := CongElim(r * i, 1, p);
      InverseStep(a, p, q, r, i, k);
      CongIntro(a * InvRec(a, p), 1, k - i, p);
    }
  }

  lemma InvCorrect(a: int, p: int)
    requires IsPrime(p) && !Cong(a, 0, p)
    ensures Cong(a * Inv(a, p), 1, p)
    ensures 0 < Inv(a, p) < p
  {
    var b := a % p;
    CongMod(a, p);
    assert b != 0;
    InvRecCorrect(b, p);
    CongMod(InvRec(b, p), p);
    CongMul(a, b, Inv(a, p), InvRec(b, p), p);
    CongTrans(a * Inv(a, p), b * InvRec(b, p), 1, p);
    if Inv(a, p) == 0 {
      CongUnique(0, 1, p);
      assert false;
    }
  }

  /** b as a multiple of p, from a*i = 1 + k*p and a*b = l*p. */
  lemma DivisorIdentity(a: int, b: int, i: int, k: int, l: int, p: int)
    requires a * i - 1 == k * p && a * b == l * p
    ensures b == (l * i - k * b) * p
  {
    SwapLast(a, i, b);
    SwapLast(l, p, i);
    SwapLast(k, p, b);
    Distribute(b, 1, k * p);
    DistributeSub(p, l * i, k * b);
  }

  lemma NoZeroDivisors(a: int, b: int, p: int)
    requires IsPrime(p) && Cong(a * b, 0, p)
    ensures Cong(a, 0, p) || Cong(b, 0, p)
  {
    hide Cong, Inv, IsPrime;
    assert p > 0 by { PrimePositive(p); }
    if !Cong(a, 0, p) {
      InvCorrect(a, p);
      var i := Inv(a, p);
      var k := CongElim(a * i, 1, p);
      var l := CongElim(a * b, 0, p);
      DivisorIdentity(a, b, i, k, l, p);
      CongIntro(b, 0, l * i - k * b, p);
    }
  }

  lemma PrimePositive(p: int)
    requires IsPrime(p)
    ensures p > 1
  {
  }

  /** Cancel a nonzero factor. */
  lemma Cancel(c: int, a: int, b: int, p: int)
    requires IsPrime(p) && !Cong(c, 0, p)
    requires Cong(c * a, c * b, p)
    ensures Cong(a, b, p)
  {
    CongRefl(c * b, p);
    CongSub(c * a, c * b, c * b, c * b, p);
    assert c * (a - b) == c * a - c * b;
    NoZeroDivisors(c, a - b, p);
  }

  // ------------------------------------------------------------------ powers

  function Pow(b: int, e: nat): int {
    if e == 0 then 1 else b * Pow(b, e - 1)
  }

  lemma {:induction false} PowAdd(b: int, d: nat, e: nat)
    ensures Pow(b, d + e) == Pow(b, d) * Pow(b, e)
    decreases d
  {
    if d == 0 {
    } else {
      PowAdd(b, d - 1, e);
      calc {
        Pow(b, d + e);
        b * Pow(b, d - 1 + e);
        b * (Pow(b, d - 1) * Pow(b, e));
        (b * Pow(b, d - 1)) * Pow(b, e);
        Pow(b, d) * Pow(b, e);
      }
    }
  }

  lemma {:induction false} PowMul(b: int, d: nat, e: nat)
    ensures d * e >= 0 && Pow(b, d * e) == Pow(Pow(b, d), e)
    decreases e
  {
    if e == 0 {
    } else {
      PowMul(b, d, e - 1);
      assert d * e == d + d * (e - 1);
      PowAdd(b, d, d * (e - 1));
    }
  }

  lemma {:induction false} PowProduct(a: int, b: int, e: nat)
    ensures Pow(a * b, e) == Pow(a, e) * Pow(b, e)
  {
    if e > 0 {
      PowProduct(a, b, e - 1);
      calc {
        Pow(a * b, e);
        (a * b) * (Pow(a, e - 1) * Pow(b, e - 1));
        (a * Pow(a, e - 1)) * (b * Pow(b, e - 1));
      }
    }
  }

  lemma PowSquare(b: int, e: nat)
    ensures Pow(b, 2 * e) == Pow(b, e) * Pow(b, e)
  {
    PowAdd(b, e, e);
  }

  lemma {:induction false} PowOne(e: nat)
    ensures Pow(1, e) == 1
  {
    if e > 0 { PowOne(e - 1); }
  }

  lemma {:induction false} PowPositive(b: int, e: nat)
    requires b > 0
    ensures Pow(b, e) > 0
  {
    if e > 0 { PowPositive(b, e - 1); }
  }

  lemma {:induction false} CongPow(a: int, b: int, e: nat, m: Modulus)
    requires Cong(a, b, m)
    ensures Cong(Pow(a, e), Pow(b, e), m)
  {
    if e == 0 {
      CongRefl(1, m);
    } else {
      CongPow(a, b, e - 1, m);
      CongMul(a, b, Pow(a, e - 1), Pow(b, e - 1), m);
    }
  }

  /** Modular exponentiation as a value in [0, m). */
  function PowMod(b: int, e: nat, m: Modulus): (r: int)
    ensures 0 <= r < m
  {
    Pow(b, e) % m
  }

  // -------------------------------------------------- Fermat's little theorem

  /** The product of the members of s in 1..n. */
  function Prod(s: set<int>, n: nat): int {
    if n == 0 then 1 else (if n in s then n else 1) * Prod(s, n - 1)
  }

  lemma {:induction false} ProdRemove(s: set<int>, x: int, n: nat)
    requires x in s && 1 <= x <= n
    ensures Prod(s, n) == x * Prod(s - {x}, n)
  {
    if x == n {
      ProdSame(s, s - {x}, n - 1);
    } else {
      ProdRemove(s, x, n - 1);
      var f := if n in s then n else 1;
      assert f * (x * Prod(s - {x}, n - 1)) == x * (f * Prod(s - {x}, n - 1));
    }
  }

  lemma {:induction false} ProdSame(s: set<int>, t: set<int>, n: nat)
    requires forall i :: 1 <= i <= n ==> (i in s <==> i in t)
    ensures Prod(s, n) == Prod(t, n)
  {
    if n > 0 { ProdSame(s, t, n - 1); }
  }

  lemma {:induction false} ProdNonzero(s: set<int>, n: nat, p: int)
    requires IsPrime(p) && n < p
    ensures !Cong(Prod(s, n), 0, p)
  {
    if n == 0 {
      if Cong(1, 0, p) { CongUnique(1, 0, p); }
    } else {
      ProdNonzero(s, n - 1, p);
      var f := if n in s then n else 1;
      if Cong(f, 0, p) { CongUnique(f, 0, p); }
      if Cong(f * Prod(s, n - 1), 0, p) { NoZeroDivisors(f, Prod(s, n - 1), p); }
    }
  }

  /** The first k multiples of a, reduced. */
  ghost function Multiples(a: int, k: nat, p: Modulus): set<int> {
    set i | 1 <= i <= k :: a * i % p
  }

  lemma MultipleRange(a: int, i: int, p: int)
    requires IsPrime(p) && !Cong(a, 0, p) && 1 <= i < p
    ensures 1 <= a * i % p < p
  {
    if a * i % p == 0 {
      ModToCong(a * i, 0, p);
      NoZeroDivisors(a, i, p);
      CongUnique(i, 0, p);
    }
  }

  lemma MultiplesStep(a: int, k: int, p: int)
    requires IsPrime(p) && !Cong(a, 0, p) && 0 < k < p
    ensures a * k % p in Multiples(a, k, p)
    ensures Multiples(a, k, p) - {a * k % p} == Multiples(a, k - 1, p)
  {
    var s, s', x := Multiples(a, k, p), Multiples(a, k - 1, p), a * k % p;
    if x in s' {
      var i :| 1 <= i <= k - 1 && x == a * i % p;
      ModToCong(a * k, a * i, p);
      Cancel(a, k, i, p);
      CongUnique(k, i, p);
    }
    forall y | y in s - {x} ensures y in s' {
      var i :| 1 <= i <= k && y == a * i % p;
    }
  }

  lemma Regroup(a: int, k: int, w: int, f: int)
    ensures (a * k) * (w * f) == (a * w) * (k * f)
  {
  }

  lemma {:induction false} MultiplesProduct(a: int, k: nat, p: int)
    requires IsPrime(p) && !Cong(a, 0, p) && k < p
    ensures Cong(Prod(Multiples(a, k, p), p - 1), Pow(a, k) * Prod(Multiples(1, k, p), k), p)
  {
    var s := Multiples(a, k, p);
    if k == 0 {
      ProdSame(s, {}, p - 1);
      ProdEmpty(p - 1);
      CongRefl(1, p);
    } else {
      var s', x := Multiples(a, k - 1, p), a * k % p;
      MultiplesProduct(a, k - 1, p);
      MultipleRange(a, k, p);
      MultiplesStep(a, k, p);
      ProdRemove(s, x, p - 1);
      CongMod(a * k, p);
      var f, w := Prod(Multiples(1, k - 1, p), k - 1), Pow(a, k - 1);
      CongMul(x, a * k, Prod(s', p - 1), w * f, p);
      FactorialStep(k, p);
      Regroup(a, k, w, f);
    }
  }

  lemma {:induction false} ProdEmpty(n: nat)
    ensures Prod({}, n) == 1
  {
    if n > 0 { ProdEmpty(n - 1); }
  }

  lemma FactorialStep(k: nat, p: Modulus)
    requires 0 < k < p
    ensures Prod(Multiples(1, k, p), k) == k * Prod(Multiples(1, k - 1, p), k - 1)
  {
    assert 1 * k % p == k by { SmallMod(k, p); }
    assert k in Multiples(1, k, p);
    forall i | 1 <= i <= k - 1 ensures i in Multiples(1, k, p) && i in Multiples(1, k - 1, p) {
      SmallMod(i, p);
      assert 1 * i % p == i;
    }
    ProdSame(Multiples(1, k, p), Multiples(1, k - 1, p), k - 1);
  }

  /** Every nonzero residue is a multiple of a. */
  lemma EveryResidue(a: int, y: int, p: int)
    requires IsPrime(p) && p > 1 && !Cong(a, 0, p) && 1 <= y < p
    ensures y in Multiples(a, p - 1, p)
  {
    hide Cong, Inv, IsPrime, Multiples;
    InvCorrect(a, p);
    var i := Inv(a, p);
    var x := i * y % p;
    CongMod(i * y, p);
    CongRefl(a, p);
    CongMul(a, a, x, i * y, p);
    CongRefl(y, p);
    CongMul(a * i, 1, y, y, p);
    assert a * (i * y) == a * i * y;
    CongTrans(a * x, a * i * y, y, p);
    CongSym(a * x, y, p);
    CongResidue(y, a * x, p);
    MultipleOf(a, x, y, p);
  }

  lemma MultipleOf(a: int, x: int, y: int, p: Modulus)
    requires 0 <= x < p && y == a * x % p && y != 0
    ensures y in Multiples(a, p - 1, p)
  {
    if x == 0 {
      assert a * x == 0;
      SmallMod(0, p);
    }
  }

  /** Fermat: a^(p-1) = 1 for every a not divisible by p. */
  lemma Fermat(a: int, p: int)
    requires IsPrime(p) && !Cong(a, 0, p)
    ensures Cong(Pow(a, p - 1), 1, p)
  {
    hide Cong, Multiples, Prod, Pow;
    var n := p - 1;
    MultiplesProduct(a, n, p);
    NonzeroResidue(1, p);
    var one := Multiples(1, n, p);
    forall y | 1 <= y <= n ensures y in Multiples(a, n, p) && y in one {
      EveryResidue(a, y, p);
      EveryResidue(1, y, p);
    }
    ProdSame(Multiples(a, n, p), one, n);
    ProdNonzero(one, n, p);
    var f := Prod(one, n);
    CongSym(f, Pow(a, n) * f, p);
    assert f * Pow(a, n) == Pow(a, n) * f;
    Cancel(f, Pow(a, n), 1, p);
  }

  // -------------------------------------------- polynomials and non-residues

  /** The value at x of the polynomial with the given coefficients, constant term first. */
  function Eval(c: seq<int>, x: int): int {
    if c == [] then 0 else c[0] + x * Eval(c[1..], x)
  }

  /** The quotient of a polynomial by x - r. */
  function Quotient(c: seq<int>, r: int): (q: seq<int>)
    ensures c != [] ==> |q| == |c| - 1
  {
    if |c| <= 1 then [] else [Eval(c[1..], r)] + Quotient(c[1..], r)
  }

  lemma {:induction false} QuotientEval(c: seq<int>, r: int, x: int)
    ensures Eval(c, x) == Eval(c, r) + (x - r) * Eval(Quotient(c, r), x)
  {
    if |c| <= 1 {
      assert c != [] ==> Eval(c[1..], x) == 0 == Eval(c[1..], r);
      assert (x - r) * Eval([], x) == 0;
    } else {
      QuotientEval(c[1..], r, x);
      var u, v, w := Eval(c[1..], x), Eval(c[1..], r), Eval(Quotient(c[1..], r), x);
      assert Quotient(c, r)[1..] == Quotient(c[1..], r);
      QuotientStep(x, r, u, v, w);
    }
  }

  lemma QuotientStep(x: int, r: int, u: int, v: int, w: int)
    requires u == v + (x - r) * w
    ensures x * u - r * v == (x - r) * (v + x * w)
  {
    var d := x - r;
    assert x * (d * w) == d * (x * w);
    assert d * (v + x * w) == d * v + d * (x * w);
  }

  /** A polynomial of length n with the n roots 1..n vanishes everywhere. */
  lemma {:induction false} RootBound(c: seq<int>, x: int, p: int)
    requires IsPrime(p) && |c| < p
    requires forall i :: 1 <= i <= |c| ==> Cong(Eval(c, i), 0, p)
    ensures Cong(Eval(c, x), 0, p)
    decreases |c|
  {
    if c == [] {
      CongRefl(0, p);
    } else {
      var r := |c|;
      var q := Quotient(c, r);
      forall i | 1 <= i <= |q| ensures Cong(Eval(q, i), 0, p) {
        QuotientEval(c, r, i);
        CongSub(Eval(c, i), 0, Eval(c, r), 0, p);
        NoZeroDivisors(i - r, Eval(q, i), p);
        if Cong(i - r, 0, p) { CongUnique(i, r, p); }
      }
      RootBound(q, x, p);
      QuotientEval(c, r, x);
      CongRefl(x - r, p);
      CongMul(x - r, x - r, Eval(q, x), 0, p);
      CongAdd(Eval(c, r), 0, (x - r) * Eval(q, x), (x - r) * 0, p);
    }
  }

  function Monomial(e: nat): (c: seq<int>)
    ensures |c| == e + 1
  {
    if e == 0 then [1] else [0] + Monomial(e - 1)
  }

  lemma {:induction false} MonomialEval(e: nat, x: int)
    ensures Eval(Monomial(e), x) == Pow(x, e)
  {
    if e == 0 {
      assert Monomial(0)[1..] == [];
    } else {
      MonomialEval(e - 1, x);
      assert Monomial(e)[1..] == Monomial(e - 1);
    }
  }

  /** x^2 = 1 has only the roots 1 and -1. */
  lemma SquareRootsOfOne(x: int, p: int)
    requires IsPrime(p) && Cong(x * x, 1, p)
    ensures Cong(x, 1, p) || Cong(x, -1, p)
  {
    CongRefl(1, p);
    CongSub(x * x, 1, 1, 1, p);
    assert (x - 1) * (x + 1) == x * x - 1;
    NoZeroDivisors(x - 1, x + 1, p);
  }

  /** Every unit raised to (p-1)/2 is 1 or -1. */
  lemma HalfPower(a: int, p: int)
    requires IsPrime(p) && p % 2 == 1 && !Cong(a, 0, p)
    ensures Cong(Pow(a, (p - 1) / 2), 1, p) || Cong(Pow(a, (p - 1) / 2), -1, p)
  {
    var h := (p - 1) / 2;
    assert 2 * h == p - 1;
    PowSquare(a, h);
    Fermat(a, p);
    SquareRootsOfOne(Pow(a, h), p);
  }

  /** A polynomial shorter than p that does not vanish at 0 has a non-root among 1..|c|. */
  lemma SomeNonRoot(c: seq<int>, p: int)
    requires IsPrime(p) && |c| < p && !Cong(Eval(c, 0), 0, p)
    ensures exists i :: 1 <= i <= |c| && !Cong(Eval(c, i), 0, p)
  {
    if forall i :: 1 <= i <= |c| ==> Cong(Eval(c, i), 0, p) { RootBound(c, 0, p); }
  }

  /** Some number below p has (p-1)/2-th power -1. */
  lemma NonResidueExists(p: int) returns (z: int)
    requires IsPrime(p) && p % 2 == 1
    ensures 2 <= z < p && Cong(Pow(z, (p - 1) / 2), -1, p)
  {
    hide Cong;
    var h := (p - 1) / 2;
    var c := [-1] + Monomial(h - 1);
    assert c[1..] == Monomial(h - 1);
    NonzeroResidue(1, p);
    MinusOneNonzero(p);
    SomeNonRoot(c, p);
    z :| 1 <= z <= |c| && !Cong(Eval(c, z), 0, p);
    MonomialEval(h - 1, z);
    assert Eval(c, z) == Pow(z, h) - 1;
    NonzeroResidue(z, p);
    HalfPower(z, p);
    PowerApart(Pow(z, h), p);
    PowOne(h);
    CongRefl(1, p);
  }

  lemma MinusOneNonzero(p: int)
    requires p > 1
    ensures !Cong(-1, 0, p)
  {
    if Cong(-1, 0, p) {
      CongSym(-1, 0, p);
      CongIntro(p - 1, -1, 1, p);
      CongTrans(p - 1, -1, 0, p);
      CongUnique(p - 1, 0, p);
    }
  }

  lemma PowerApart(v: int, p: Modulus)
    requires !Cong(v - 1, 0, p)
    ensures !Cong(v, 1, p)
  {
  }
}
