/** Reading limb strings bit by bit from the top, and the bit-serial reductions built on it. */
module BitScan {
  import opened IntegerLaws
  import opened Congruence
  import opened PrimeField
  import opened Bignum

  /** Bit k of limb i. */
  function Bit(x: seq<u64>, i: nat, k: nat): (b: u64)
    requires i < |x|
    ensures b <= 1
  {
    PowPositive(2, k);
    x[i] / Pow(2, k) % 2
  }

  /** The number formed by the bits of x from bit k of limb i upwards; k = 64 stands for limb i + 1. */
  function High(x: seq<u64>, i: nat, k: nat): nat
    requires i < |x| && k <= 64
  {
    PowPositive(2, k);
    PowPositive(2, 64 - k);
    Val(x[i + 1..]) * Pow(2, 64 - k) + x[i] / Pow(2, k)
  }

  lemma {:induction false} PowTwo64()
    ensures Pow(2, 64) == BASE
  {
    assert Pow(2, 8) == 256;
    PowSquare(2, 8);
    PowSquare(2, 16);
    PowSquare(2, 32);
  }

  lemma HalveQuotient(x: nat, p: int)
    requires p > 0
    ensures x / p == 2 * (x / (2 * p)) + x / p % 2
  {
    var q, r := x / p, x % p;
    assert q == 2 * (q / 2) + q % 2;
    assert x == (2 * p) * (q / 2) + (q % 2 * p + r);
    QuotientUnique(x, 2 * p, q / 2, q % 2 * p + r);
  }

  /** Two divisions with remainder of one number agree. */
  lemma SameQuotient(d: int, q: int, r: int, q': int, r': int)
    requires 0 <= r < d && 0 <= r' < d && d * q + r == d * q' + r'
    ensures q == q'
  {
    DistributeSub(d, q', q);
    MultipleBounds(q' - q, d);
  }

  lemma QuotientUnique(x: int, d: int, q: int, r: int)
    requires d > 0 && 0 <= r < d && x == d * q + r
    ensures x / d == q
  {
    assert x == d * (x / d) + x % d;
    SameQuotient(d, q, r, x / d, x % d);
  }

  /** Scanning one bit further down doubles the number read so far and adds the bit. */
  lemma HighStep(x: seq<u64>, i: nat, k: nat)
    requires i < |x| && k < 64
    ensures High(x, i, k) == 2 * High(x, i, k + 1) + Bit(x, i, k)
  {
    PowPositive(2, k);
    PowPositive(2, 63 - k);
    HalveQuotient(x[i], Pow(2, k));
    var v, p := Val(x[i + 1..]), Pow(2, 63 - k);
    assert v * (2 * p) == 2 * (v * p);
  }

  /** At the top of limb i the number read is the limbs above it. */
  lemma HighTop(x: seq<u64>, i: nat)
    requires i < |x|
    ensures High(x, i, 64) == Val(x[i + 1..])
  {
    PowTwo64();
    assert x[i] / BASE == 0;
  }

  /** At the bottom of limb i the number read includes the whole limb. */
  lemma HighBottom(x: seq<u64>, i: nat)
    requires i < |x|
    ensures High(x, i, 0) == Val(x[i..])
  {
    PowTwo64();
    assert x[i..][1..] == x[i + 1..];
  }

  /** The residue after reading one more bit: double, add, subtract the modulus at most once. */
  lemma ResidueStep(v: nat, h: nat, bit: nat, m: Modulus)
    requires v == h % m && bit <= 1
    ensures 2 * v + bit < 2 * m
    ensures (2 * h + bit) % m == if 2 * v + bit < m then 2 * v + bit else 2 * v + bit - m
  {
    var q := h / m;
    assert h == m * q + v;
    var s := 2 * v + bit;
    if s < m {
      assert 2 * h + bit - s == (2 * q) * m;
      CongIntro(2 * h + bit, s, 2 * q, m);
      CongSym(2 * h + bit, s, m);
      CongResidue(s, 2 * h + bit, m);
    } else {
      assert 2 * h + bit - (s - m) == (2 * q + 1) * m;
      CongIntro(2 * h + bit, s - m, 2 * q + 1, m);
      CongSym(2 * h + bit, s - m, m);
      CongResidue(s - m, 2 * h + bit, m);
    }
  }

  /** The number read once only the low j bits of x remain. */
  function Scanned(x: seq<u64>, j: nat): nat
    requires j <= |x| * 64
  {
    if j == |x| * 64 then 0 else High(x, j / 64, j % 64)
  }

  lemma ScannedStep(x: seq<u64>, j: nat)
    requires j < |x| * 64
    ensures Scanned(x, j) == 2 * Scanned(x, j + 1) + Bit(x, j / 64, j % 64)
  {
    HighStep(x, j / 64, j % 64);
    if j % 64 == 63 {
      HighTop(x, j / 64);
      if j + 1 == |x| * 64 {
        assert x[j / 64 + 1..] == [];
      } else {
        HighBottom(x, j / 64 + 1);
      }
    }
  }

  lemma ScannedNone(x: seq<u64>)
    ensures Scanned(x, |x| * 64) == 0
  {
  }

  lemma ScannedAll(x: seq<u64>)
    ensures Scanned(x, 0) == Val(x)
  {
    if x != [] {
      HighBottom(x, 0);
      assert x[0..] == x;
    }
  }

  ghost predicate IsResidue(v: nat, h: nat, m: Modulus) {
    v == h % m
  }

  lemma ResidueDoubled(v: nat, h: nat, bit: nat, m: Modulus)
    requires IsResidue(v, h, m) && bit <= 1
    ensures 2 * v + bit < 2 * m
    ensures IsResidue(if 2 * v + bit < m then 2 * v + bit else 2 * v + bit - m, 2 * h + bit, m)
  {
    ResidueStep(v, h, bit, m);
  }

  /** One bit: the residue is doubled, takes the bit and loses m when a carry left the limbs or it is
      not below m; the carry is then spent. */
  method TakeBit(r: array<u64>, m: Fe6, bit: u64, hi: bool, ghost h: nat) returns (hi': bool)
    requires r.Length == 6 && bit <= 1 && !hi && Val(m) > 0 && IsResidue(Val(r[..]), h, Val(m))
    modifies r
    ensures !hi' && IsResidue(Val(r[..]), 2 * h + bit, Val(m))
  {
    hide Val, Shift, IsResidue;
    ghost var v := Val(r[..]);
    ResidueDoubled(v, h, bit, Val(m));
    var c := DoubleIn(r, bit);
    hi' := hi || c != 0;
    ReduceOnce(r, m, if hi' then 1 else 0);
    hi' := false;
  }

  /** The residue goes back into the low limbs. */
  method CopyLow(x: array<u64>, r: array<u64>)
    requires r.Length == 6 <= x.Length && x != r
    modifies x
    ensures x[..6] == old(r[..])
  {
    for j := 0 to 6
      invariant r[..] == old(r[..])
      invariant forall l :: 0 <= l < j ==> x[l] == r[l]
    {
      x[j] := r[j];
    }
    assert x[..6] == r[..];
  }

  /** Shift-subtract reduction: the low six limbs of x become x mod m. The flag hi is the bit
      that left the six-limb accumulator; it is spent in the same iteration. */
  method BnMod(x: array<u64>, n: nat, m: Fe6)
    requires 6 <= n == x.Length && Val(m) > 0
    modifies x
    ensures Val(x[..6]) == old(Val(x[..])) % Val(m)
  {
    hide Val;
    hide Scanned;
    var r := new u64[6](_ => 0);
    ValZero(r[..]);
    var hi := false;
    ghost var x0 := x[..];
    ScannedNone(x0);
    SmallMod(0, Val(m));
    var i := n * 64 - 1;
    while i >= 0
      invariant -1 <= i < n * 64 && !hi
      invariant x[..] == x0
      invariant Val(r[..]) == Scanned(x0, i + 1) % Val(m)
    {
      var bit := Bit(x[..], i / 64, i % 64);
      ScannedStep(x0, i);
      hi := TakeBit(r, m, bit, hi, Scanned(x0, i + 1));
      i := i - 1;
    }
    ScannedAll(x0);
    assert x0 == old(x[..]);
    CopyLow(x, r);
  }

  /** v = 1 doubled e times modulo m. The modulus 1 is the one case the loop cannot reduce:
      it starts at 1 and never goes below it. */
  method Pow2Mod(m: Fe6, e: nat) returns (v: Fe6)
    requires Val(m) > 1
    ensures Val(v) == Pow(2, e) % Val(m)
  {
    hide Val;
    var r := new u64[6](i => if i == 0 then 1 else 0);
    assert r[..] == [1] + [0, 0, 0, 0, 0];
    ValAppend([1], [0, 0, 0, 0, 0], 1);
    ValSingle(1);
    ValZero([0, 0, 0, 0, 0]);
    ShiftZero(1);
    SmallMod(1, Val(m));
    for i := 0 to e
      invariant Val(r[..]) == Pow(2, i) % Val(m)
    {
      PowPositive(2, i);
      ResidueStep(Val(r[..]), Pow(2, i), 0, Val(m));
      var c := DoubleIn(r, 0);
      ReduceOnce(r, m, c);
    }
    v := r[..];
  }
}
