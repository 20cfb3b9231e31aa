/** Little-endian 64-bit limb arithmetic, updated in place with carry and borrow loops.
    Values are kept linear: a quantity carried to limb n is Shift(x, n) = x * BASE^n. */
module Bignum {
  import opened IntegerLaws

  const BASE: int := 0x1_0000_0000_0000_0000
  const BASE_SQUARED: int := 0x1_0000_0000_0000_0000_0000_0000_0000_0000
  const TOP_BIT: int := 0x8000_0000_0000_0000

  type u64 = x: int | 0 <= x < 0x1_0000_0000_0000_0000

  /** The six-limb field element of the source. */
  type Fe6 = s: seq<u64> | |s| == 6 witness [0, 0, 0, 0, 0, 0]

  /** x moved up by n limbs. */
  function Shift(x: int, n: nat): int {
    if n == 0 then x else BASE * Shift(x, n - 1)
  }

  /** The number a limb string stands for, least significant limb first. */
  function Val(s: seq<u64>): nat {
    if s == [] then 0 else s[0] + BASE * Val(s[1..])
  }

  // ------------------------------------------------------------------ shifts

  lemma {:induction false} ShiftAdd(x: int, y: int, n: nat)
    ensures Shift(x + y, n) == Shift(x, n) + Shift(y, n)
  {
    if n > 0 { ShiftAdd(x, y, n - 1); }
  }

  lemma {:induction false} ShiftBase(x: int, n: nat)
    ensures Shift(BASE * x, n) == BASE * Shift(x, n)
  {
    if n > 0 { ShiftBase(x, n - 1); }
  }

  lemma {:induction false} ShiftShift(x: int, m: nat, n: nat)
    ensures Shift(Shift(x, m), n) == Shift(x, m + n)
  {
    if n > 0 { ShiftShift(x, m, n - 1); }
  }

  lemma {:induction false} ShiftScale(x: int, y: int, n: nat)
    ensures Shift(x * y, n) == Shift(x, n) * y
  {
    if n > 0 {
      ShiftScale(x, y, n - 1);
      Associate(BASE, Shift(x, n - 1), y);
    }
  }

  lemma {:induction false} ShiftMonotone(x: int, y: int, n: nat)
    requires x <= y
    ensures Shift(x, n) <= Shift(y, n)
    ensures x < y ==> Shift(x, n) < Shift(y, n)
  {
    if n > 0 { ShiftMonotone(x, y, n - 1); }
  }

  lemma ShiftNone(x: int)
    ensures Shift(x, 0) == x
  {
  }

  lemma {:induction false} ShiftZero(n: nat)
    ensures Shift(0, n) == 0
  {
    if n > 0 { ShiftZero(n - 1); }
  }

  // ------------------------------------------------------------ limb strings

  lemma {:induction false} ValAppend(s: seq<u64>, t: seq<u64>, n: nat)
    requires n == |s|
    ensures Val(s + t) == Val(s) + Shift(Val(t), n)
    decreases s
  {
    if s == [] {
      assert s + t == t;
    } else {
      ValAppend(s[1..], t, n - 1);
      assert (s + t)[1..] == s[1..] + t;
    }
  }

  lemma ValEmpty()
    ensures Val([]) == 0
  {
  }

  lemma ValCons(s: seq<u64>)
    requires s != []
    ensures Val(s) == s[0] + BASE * Val(s[1..])
  {
  }

  lemma ValSingle(x: u64)
    ensures Val([x]) == x
  {
    assert [x][1..] == [];
  }

  lemma ValSnoc(s: seq<u64>, x: u64, n: nat)
    requires n == |s|
    ensures Val(s + [x]) == Val(s) + Shift(x, n)
  {
    ValAppend(s, [x], n);
    ValSingle(x);
  }

  /** The prefix one limb longer. */
  lemma ValPrefix(s: seq<u64>, i: nat)
    requires i < |s|
    ensures Val(s[..i + 1]) == Val(s[..i]) + Shift(s[i], i)
  {
    assert s[..i + 1] == s[..i] + [s[i]];
    ValSnoc(s[..i], s[i], i);
  }

  lemma {:induction false} ValBound(s: seq<u64>, n: nat)
    requires n == |s|
    ensures Val(s) < Shift(1, n)
    decreases s
  {
    if s != [] { ValBound(s[1..], n - 1); }
  }

  lemma {:induction false} ValZero(s: seq<u64>)
    ensures Val(s) == 0 <==> forall i :: 0 <= i < |s| ==> s[i] == 0
  {
    if s != [] {
      ValZero(s[1..]);
      assert forall i :: 0 <= i < |s| - 1 ==> s[1..][i] == s[i + 1];
      assert forall i :: 1 <= i < |s| ==> s[i] == s[1..][i - 1];
    }
  }

  /** Equal-length limb strings with equal values are the same string. */
  lemma {:induction false} ValInjective(s: seq<u64>, t: seq<u64>)
    requires |s| == |t| && Val(s) == Val(t)
    ensures s == t
  {
    if s != [] {
      assert s[0] == t[0] && Val(s[1..]) == Val(t[1..]);
      ValInjective(s[1..], t[1..]);
      assert s == [s[0]] + s[1..] && t == [t[0]] + t[1..];
    }
  }

  /** A limb string around its limb i. */
  lemma SplitAt(a: seq<u64>, i: nat, x: u64, high: seq<u64>)
    requires i < |a| && x == a[i] && high == a[i + 1..]
    ensures Val(a) == Val(a[..i]) + Shift(x, i) + Shift(Val(high), i + 1)
  {
    assert a == a[..i] + [x] + high;
    ValAppend(a[..i] + [x], high, i + 1);
    ValSnoc(a[..i], x, i);
  }

  /** One limb of a carry chain, moved to limb i: the digit and the carry out make up the sum. */
  lemma AddLimb(digit: int, c': int, x: int, y: int, c: int, i: nat)
    requires digit + BASE * c' == x + y + c
    ensures Shift(digit, i) + Shift(c', i + 1) == Shift(x, i) + Shift(y, i) + Shift(c, i)
  {
    ShiftAdd(x + y, c, i);
    ShiftAdd(x, y, i);
    ShiftAdd(digit, BASE * c', i);
    ShiftBase(c', i);
  }

  // ------------------------------------------------------------- comparisons

  lemma CompareHigh(a: seq<u64>, b: seq<u64>, i: nat)
    requires |a| == |b| && i < |a| && a[i + 1..] == b[i + 1..] && a[i] < b[i]
    ensures Val(a) < Val(b)
  {
    hide Val;
    var high := a[i + 1..];
    SplitAt(a, i, a[i], high);
    SplitAt(b, i, b[i], high);
    ValBound(a[..i], i);
    ShiftAdd(a[i], 1, i);
    ShiftMonotone(a[i] + 1, b[i], i);
  }

  /** Compares from the most significant limb down: -1, 0 or 1. */
  method BnCmp(a: seq<u64>, b: seq<u64>, n: nat) returns (r: int)
    requires |a| == |b| == n
    ensures r == if Val(a) < Val(b) then -1 else if Val(a) == Val(b) then 0 else 1
  {
    var i := n - 1;
    while i >= 0
      invariant -1 <= i < n
      invariant forall k :: i < k < n ==> a[k] == b[k]
    {
      if a[i] != b[i] {
        assert a[i + 1..] == b[i + 1..];
        if a[i] < b[i] {
          CompareHigh(a, b, i);
          return -1;
        } else {
          CompareHigh(b, a, i);
          return 1;
        }
      }
      i := i - 1;
    }
    assert a == b;
    r := 0;
  }

  method BnIsZero(a: seq<u64>, n: nat) returns (r: bool)
    requires |a| == n
    ensures r <==> Val(a) == 0
  {
    ValZero(a);
    for i := 0 to n
      invariant forall k :: 0 <= k < i ==> a[k] == 0
    {
      if a[i] != 0 { return false; }
    }
    r := true;
  }

  // --------------------------------------------------- addition, subtraction

  method BnAdd(d: array<u64>, s: seq<u64>, n: nat) returns (c: u64)
    requires n <= d.Length && |s| == n
    modifies d
    ensures Val(d[..n]) + Shift(c, n) == old(Val(d[..n])) + Val(s)
    ensures c <= 1
    ensures forall k :: n <= k < d.Length ==> d[k] == old(d[k])
  {
    hide Val;
    ValEmpty();
    ghost var d0 := d[..n];
    c := 0;
    for i := 0 to n
      invariant c <= 1
      invariant forall k :: i <= k < d.Length ==> d[k] == old(d[k])
      invariant Val(d[..i]) + Shift(c, i) == Val(d0[..i]) + Val(s[..i])
    {
      ghost var low, c0 := d[..i], c;
      var t := d[i] + s[i] + c;
      d[i] := t % BASE;
      c := t / BASE;
      assert d[..i + 1] == low + [d[i]];
      ValSnoc(low, d[i], i);
      ValPrefix(d0, i);
      ValPrefix(s, i);
      AddLimb(d[i], c, d0[i], s[i], c0, i);
    }
    assert s[..n] == s && d0[..n] == d0;
  }

  /** The wrapped 128-bit difference of limbs splits into the digit and, at bit 64, the borrow. */
  lemma BorrowLimb(x: u64, y: u64, b: u64)
    requires b <= 1
    ensures var t := (x - y - b) % BASE_SQUARED;
            x + BASE * (t / BASE % 2) == t % BASE + y + b && t / BASE % 2 <= 1
  {
    var t := x - y - b;
    if t < 0 {
      assert t % BASE_SQUARED == t + BASE_SQUARED;
      assert (t + BASE_SQUARED) / BASE == BASE - 1;
    } else {
      assert t % BASE_SQUARED == t;
      assert t / BASE == 0;
    }
  }

  /** The borrow is bit 64 of the 128-bit wrapped difference. */
  method BnSub(d: array<u64>, s: seq<u64>, n: nat) returns (br: u64)
    requires n <= d.Length && |s| == n
    modifies d
    ensures Val(d[..n]) == old(Val(d[..n])) - Val(s) + Shift(br, n)
    ensures br <= 1
    ensures forall k :: n <= k < d.Length ==> d[k] == old(d[k])
  {
    hide Val;
    ValEmpty();
    ghost var d0 := d[..n];
    br := 0;
    for i := 0 to n
      invariant br <= 1
      invariant forall k :: i <= k < d.Length ==> d[k] == old(d[k])
      invariant Val(d[..i]) + Val(s[..i]) == Val(d0[..i]) + Shift(br, i)
    {
      ghost var low, br0 := d[..i], br;
      var t := (d[i] - s[i] - br) % BASE_SQUARED;
      d[i] := t % BASE;
      br := (t / BASE) % 2;
      BorrowLimb(d0[i], s[i], br0);
      assert d[..i + 1] == low + [d[i]];
      ValSnoc(low, d[i], i);
      ValPrefix(d0, i);
      ValPrefix(s, i);
      AddLimb(d0[i], br, d[i], s[i], br0, i);
    }
    assert s[..n] == s && d0[..n] == d0;
  }

  /** Subtract m once when the value, with its carry out of the buffer, reaches m. */
  method ReduceOnce(r: array<u64>, m: seq<u64>, carry: u64)
    requires r.Length == |m| && carry <= 1
    requires Val(r[..]) + Shift(carry, |m|) < 2 * Val(m)
    modifies r
    ensures var v := old(Val(r[..])) + Shift(carry, |m|);
            Val(r[..]) == if v < Val(m) then v else v - Val(m)
    ensures Val(r[..]) < Val(m)
  {
    var n := |m|;
    assert r[..n] == r[..];
    ValBound(m, n);
    ShiftZero(n);
    var c := BnCmp(r[..], m, n);
    if carry != 0 || c >= 0 {
      var br := BnSub(r, m, n);
      assert r[..n] == r[..];
      ValBound(r[..], n);
    }
  }

  /** r := 2 * r + bit, the bit shifted out being returned. */
  method DoubleIn(r: array<u64>, bit: u64) returns (c: u64)
    requires bit <= 1 && r.Length > 0
    modifies r
    ensures Val(r[..]) + Shift(c, r.Length) == 2 * old(Val(r[..])) + bit
    ensures c <= 1
  {
    ghost var r0, n := r[..], r.Length;
    c := 0;
    for k := 0 to r.Length
      invariant c <= 1 && (k == 0 ==> c == 0)
      invariant forall j :: k <= j < n ==> r[j] == r0[j]
      invariant Val(r[..k]) + Shift(c, k) == 2 * Val(r0[..k]) + (if k == 0 then 0 else bit)
    {
      ghost var low, c0 := r[..k], c;
      var t := 2 * r[k] + (if k == 0 then bit else 0) + c;
      r[k] := t % BASE;
      c := t / BASE;
      assert r[..k + 1] == low + [r[k]];
      ValSnoc(low, r[k], k);
      ValPrefix(r0, k);
      if k > 0 { AddLimb(r[k], c, r0[k], r0[k], c0, k); }
    }
    assert r[..n] == r[..] && r0[..n] == r0;
  }

  // -------------------------------------------------- shifts, small division

  /** One limb of a right shift: the low bit of the limb above becomes the top bit. */
  lemma HalveLimb(x: u64, next: nat, digit: int, i: nat)
    requires digit == x / 2 + (next % 2) * TOP_BIT
    ensures Shift((x + BASE * next) / 2, i) == Shift(digit, i) + Shift(next / 2, i + 1)
  {
    assert (x + BASE * next) / 2 == digit + BASE * (next / 2);
    ShiftAdd(digit, BASE * (next / 2), i);
    ShiftBase(next / 2, i);
  }

  method BnShr1(d: array<u64>, n: nat)
    requires 0 < n == d.Length
    modifies d
    ensures Val(d[..]) == old(Val(d[..])) / 2
  {
    hide Val;
    ValEmpty();
    ghost var d0 := d[..];
    assert d0[0..] == d0;
    for i := 0 to n - 1
      invariant forall k :: i <= k < n ==> d[k] == d0[k]
      invariant Val(d[..i]) + Shift(Val(d0[i..]) / 2, i) == Val(d0) / 2
    {
      ghost var low, next := d[..i], d0[i + 1..];
      assert d0[i..][1..] == next;
      ValCons(d0[i..]);
      ValCons(next);
      assert Val(next) % 2 == d0[i + 1] % 2;
      d[i] := d[i] / 2 + d[i + 1] % 2 * TOP_BIT;
      assert d[..i + 1] == low + [d[i]];
      ValSnoc(low, d[i], i);
      HalveLimb(d0[i], Val(next), d[i], i);
    }
    ghost var low := d[..n - 1];
    assert d0[n - 1..] == [d0[n - 1]];
    ValSingle(d0[n - 1]);
    d[n - 1] := d[n - 1] / 2;
    assert d[..] == low + [d[n - 1]];
    ValSnoc(low, d[n - 1], n - 1);
  }

  lemma DigitFits(r: int, x: u64, d: int)
    requires 0 <= r < d
    ensures 0 <= (r * BASE + x) / d < BASE
    ensures r * BASE + x == (r * BASE + x) / d * d + (r * BASE + x) % d
  {
    var q := (r * BASE + x) / d;
    assert r * BASE + x == q * d + (r * BASE + x) % d;
    assert q >= BASE ==> q * d >= BASE * d;
    assert q < 0 ==> q * d <= -d;
  }

  lemma DivLimb(v0: int, v: int, d: int, r: int, x0: int, x: int, r': int)
    requires v0 == v * d + r && r * BASE + x0 == x * d + r'
    ensures x0 + BASE * v0 == (x + BASE * v) * d + r'
  {
    Distribute(d, x, BASE * v);
    Associate(BASE, v, d);
  }

  /** One limb of the division, on the values. */
  lemma DivStep(high0: seq<u64>, high: seq<u64>, d: int, r: int, x0: u64, x: u64, r': int)
    requires Val(high0) == Val(high) * d + r && r * BASE + x0 == x * d + r'
    ensures Val([x0] + high0) == Val([x] + high) * d + r'
  {
    hide Val;
    ValCons([x0] + high0);
    ValCons([x] + high);
    assert ([x0] + high0)[1..] == high0 && ([x] + high)[1..] == high;
    DivLimb(Val(high0), Val(high), d, r, x0, x, r');
  }

  /** Schoolbook division by one limb, from the top: quotient in place, remainder returned. */
  method BnDivSmall(x: array<u64>, n: nat, d: u64) returns (r: u64)
    requires n == x.Length && d > 0
    modifies x
    ensures old(Val(x[..])) == Val(x[..]) * d + r && r < d
  {
    hide Val;
    ValEmpty();
    ghost var x0 := x[..];
    r := 0;
    var i := n - 1;
    assert x0[n..] == x[n..] == [];
    while i >= 0
      invariant -1 <= i < n && r < d
      invariant forall k :: 0 <= k <= i ==> x[k] == x0[k]
      invariant Val(x0[i + 1..]) == Val(x[i + 1..]) * d + r
    {
      ghost var high, high0, r0 := x[i + 1..], x0[i + 1..], r;
      var t := r * BASE + x[i];
      DigitFits(r, x[i], d);
      r := t % d;
      x[i] := t / d;
      assert x[i..] == [x[i]] + high && x0[i..] == [x0[i]] + high0;
      DivStep(high0, high, d, r0, x0[i], x[i], r);
      i := i - 1;
    }
    assert x0[0..] == x0 && x[0..] == x[..];
  }

  /** Increment, wrapping at n limbs. */
  method BnInc(d: array<u64>, n: nat)
    requires n == d.Length
    modifies d
    ensures Val(d[..]) == if old(Val(d[..])) + 1 == Shift(1, n) then 0 else old(Val(d[..])) + 1
  {
    hide Val;
    ValEmpty();
    ghost var d0 := d[..];
    for i := 0 to n
      invariant forall k :: i <= k < n ==> d[k] == d0[k]
      invariant forall k :: 0 <= k < i ==> d[k] == 0
      invariant Val(d0[..i]) + 1 == Shift(1, i)
    {
      ghost var low, high := d[..i], d0[i + 1..];
      ValZero(low);
      ShiftAdd(d0[i], 1, i);
      ShiftBase(1, i);
      d[i] := (d[i] + 1) % BASE;
      if d[i] != 0 {
        assert d[..][..i] == low && d[..][i + 1..] == high;
        SplitAt(d0, i, d0[i], high);
        SplitAt(d[..], i, d[i], high);
        ValBound(d[..], n);
        return;
      }
      ValPrefix(d0, i);
    }
    assert d0[..n] == d0;
    ValZero(d[..]);
  }

  // ---------------------------------------------------------- multiplication

  lemma MulMonotone(x: nat, X: nat, y: nat, Y: nat)
    requires x <= X && y <= Y
    ensures 0 <= x * y <= X * Y
  {
    assert x * y <= X * y;
    assert X * y <= X * Y;
  }

  lemma ProductFits(x: u64, y: u64)
    ensures 0 <= x * y <= (BASE - 1) * (BASE - 1)
  {
    MulMonotone(x, BASE - 1, y, BASE - 1);
  }

  /** One limb of a row a * x: the running product of the prefix grows by limb a at weight j. */
  lemma RowLimb(va: int, a: int, x: int, j: nat)
    ensures (va + Shift(a, j)) * x == va * x + Shift(a * x, j)
  {
    ShiftScale(a, x, j);
    Distribute(x, va, Shift(a, j));
  }

  /** Splitting a limb sum into digit and carry. */
  lemma LimbSum(t: u64, y: int, c: u64)
    requires 0 <= y <= (BASE - 1) * (BASE - 1)
    ensures var s := t + y + c; 0 <= s / BASE < BASE && s == s % BASE + BASE * (s / BASE)
  {
  }

  /** One limb of a row, on the values. */
  lemma RowStep(low: seq<u64>, digit: u64, t: seq<u64>, a: seq<u64>, x: u64, j: nat, c: u64, c': u64, cin: u64)
    requires j == |low| && j < |t| && j < |a| && digit + BASE * c' == t[j] + a[j] * x + c
    requires Val(low) + Shift(c, j) == Val(t[..j]) + Val(a[..j]) * x + cin
    ensures Val(low + [digit]) + Shift(c', j + 1) == Val(t[..j + 1]) + Val(a[..j + 1]) * x + cin
  {
    hide Val, Shift;
    ValSnoc(low, digit, j);
    ValPrefix(t, j);
    ValPrefix(a, j);
    RowLimb(Val(a[..j]), a[j], x, j);
    AddLimb(digit, c', t[j], a[j] * x, c, j);
  }

  /** Adds a * x + cin into the window of T starting at off; the carry leaves on the right. */
  method AccumulateRow(T: array<u64>, off: nat, a: seq<u64>, x: u64, cin: u64) returns (cy: u64)
    requires off + |a| <= T.Length
    modifies T
    ensures Val(T[off..off + |a|]) + Shift(cy, |a|) == old(Val(T[off..off + |a|])) + Val(a) * x + cin
    ensures forall k :: 0 <= k < T.Length && !(off <= k < off + |a|) ==> T[k] == old(T[k])
  {
    hide Val, Shift;
    ValEmpty();
    ShiftNone(cin);
    var n := |a|;
    ghost var T0 := T[off..off + n];
    cy := cin;
    assert T[off..off + 0] == T0[..0] == a[..0] == [];
    for j := 0 to n
      invariant forall k :: 0 <= k < T.Length && !(off <= k < off + j) ==> T[k] == old(T[k])
      invariant Val(T[off..off + j]) + Shift(cy, j) == Val(T0[..j]) + Val(a[..j]) * x + cin
    {
      ghost var low, c0 := T[off..off + j], cy;
      ProductFits(a[j], x);
      LimbSum(T[off + j], a[j] * x, cy);
      var t := T[off + j] + a[j] * x + cy;
      T[off + j] := t % BASE;
      cy := t / BASE;
      assert T[off..off + j + 1] == low + [T[off + j]];
      RowStep(low, T[off + j], T0, a, x, j, c0, cy, cin);
    }
    assert a[..n] == a && T0[..n] == T0;
  }

  /** One limb of a rippling carry, on the values. */
  lemma CarryStep(low: seq<u64>, digit: u64, t: seq<u64>, j: nat, c: u64, c': u64, cin: u64)
    requires j == |low| && j < |t| && digit + BASE * c' == t[j] + c
    requires Val(low) + Shift(c, j) == Val(t[..j]) + cin
    ensures Val(low + [digit]) + Shift(c', j + 1) == Val(t[..j + 1]) + cin
  {
    hide Val, Shift;
    ValSnoc(low, digit, j);
    ValPrefix(t, j);
    AddLimb(digit, c', t[j], 0, c, j);
    ShiftZero(j);
  }

  /** A carry that is spent, or has left the buffer, leaves the limbs above as they were. */
  lemma CarryEnd(low: seq<u64>, low0: seq<u64>, high: seq<u64>, n: nat, m: nat, cin: u64, cy: u64)
    requires n == |low| == |low0| && m == n + |high| && (cy == 0 || high == [])
    requires Val(low) + Shift(cy, n) == Val(low0) + cin
    ensures Val(low + high) + Shift(cy, m) == Val(low0 + high) + cin
  {
    hide Val, Shift;
    ValAppend(low, high, n);
    ValAppend(low0, high, n);
    ShiftZero(n);
    ShiftZero(m);
  }

  /** Ripples a carry into T from limb k up; what leaves the buffer is returned. */
  method PropagateCarry(T: array<u64>, from: nat, cin: u64) returns (cy: u64)
    requires from <= T.Length
    modifies T
    ensures Val(T[from..]) + Shift(cy, T.Length - from) == old(Val(T[from..])) + cin
    ensures forall k :: 0 <= k < from ==> T[k] == old(T[k])
  {
    hide Val, Shift;
    ValEmpty();
    ShiftNone(cin);
    ghost var T0 := T[from..];
    assert T[from..from] == T0[..0] == [];
    var k := from;
    cy := cin;
    while cy != 0 && k < T.Length
      invariant from <= k <= T.Length
      invariant forall i :: 0 <= i < T.Length && !(from <= i < k) ==> T[i] == old(T[i])
      invariant Val(T[from..k]) + Shift(cy, k - from) == Val(T0[..k - from]) + cin
      decreases T.Length - k
    {
      ghost var low, c0 := T[from..k], cy;
      LimbSum(T[k], 0, cy);
      var t := T[k] + cy;
      T[k] := t % BASE;
      cy := t / BASE;
      assert T[from..k + 1] == low + [T[k]];
      CarryStep(low, T[k], T0, k - from, c0, cy, cin);
      k := k + 1;
    }
    ghost var n := k - from;
    assert T[from..] == T[from..k] + T[k..] && T0 == T0[..n] + T[k..];
    CarryEnd(T[from..k], T0[..n], T[k..], n, T.Length - from, cin, cy);
  }

  /** A row of the product a * b moved to limb i. */
  lemma ProductLimb(va: int, vb: int, x: int, vb': int, i: nat)
    requires vb' == vb + Shift(x, i)
    ensures va * vb' == va * vb + Shift(va * x, i)
  {
    ShiftScale(x, va, i);
    assert va * x == x * va;
    assert va * (vb + Shift(x, i)) == va * vb + Shift(x, i) * va;
  }

  /** The row added at offset i and its carry in the limb above extend the product by b[i]. */
  lemma RowExtendsProduct(low: seq<u64>, win: seq<u64>, win': seq<u64>, cy: u64, a: seq<u64>, b: seq<u64>, i: nat)
    requires i < |b| && |low| == i && |win| == |win'| == |a|
    requires Val(low + win) == Val(a) * Val(b[..i])
    requires Val(win') + Shift(cy, |a|) == Val(win) + Val(a) * b[i]
    ensures Val(low + (win' + [cy])) == Val(a) * Val(b[..i + 1])
  {
    hide Val;
    ValAppend(low, win, i);
    ValAppend(low, win' + [cy], i);
    ValSnoc(win', cy, |a|);
    ValPrefix(b, i);
    ProductLimb(Val(a), Val(b[..i]), b[i], Val(b[..i + 1]), i);
    ShiftAdd(Val(win), Val(a) * b[i], i);
  }

  /** One pass of the schoolbook outer loop over a buffer that is still zero above the row. */
  method MulRow(T: array<u64>, i: nat, a: seq<u64>, b: seq<u64>)
    requires i < |b| && |a| + i < T.Length
    requires Val(T[..i + |a|]) == Val(a) * Val(b[..i])
    requires forall k :: i + |a| <= k < T.Length ==> T[k] == 0
    modifies T
    ensures Val(T[..i + 1 + |a|]) == Val(a) * Val(b[..i + 1])
    ensures forall k :: i + 1 + |a| <= k < T.Length ==> T[k] == 0
  {
    hide Val;
    var n := |a|;
    ghost var low, win := T[..i], T[i..i + n];
    assert T[..i + n] == low + win;
    var cy := AccumulateRow(T, i, a, b[i], 0);
    ghost var win' := T[i..i + n];
    T[i + n] := T[i + n] + cy;
    assert T[..i + 1 + n] == low + (win' + [cy]);
    RowExtendsProduct(low, win, win', cy, a, b, i);
  }

  /** The same pass with the carry rippled upwards until it is spent. */
  method MulRowRipple(T: array<u64>, i: nat, a: seq<u64>, b: seq<u64>)
    requires i < |b| && |a| + i < T.Length
    requires Val(T[..i + |a|]) == Val(a) * Val(b[..i])
    requires forall k :: i + |a| <= k < T.Length ==> T[k] == 0
    modifies T
    ensures Val(T[..i + 1 + |a|]) == Val(a) * Val(b[..i + 1])
    ensures forall k :: i + 1 + |a| <= k < T.Length ==> T[k] == 0
  {
    hide Val;
    var n := |a|;
    ghost var low, win := T[..i], T[i..i + n];
    assert T[..i + n] == low + win;
    var cy := AccumulateRow(T, i, a, b[i], 0);
    ghost var win' := T[i..i + n];
    var k, c := i + n, cy;
    while c != 0
      invariant (k == i + n && c == cy && T[k] == 0) || (c == 0 && T[i + n] == cy)
      invariant T[i..i + n] == win' && T[..i] == low
      invariant forall j :: i + n < j < T.Length ==> T[j] == 0
      decreases c
    {
      var t := T[k] + c;
      T[k] := t % BASE;
      c := t / BASE;
      k := k + 1;
    }
    assert T[..i + 1 + n] == low + (win' + [cy]);
    RowExtendsProduct(low, win, win', cy, a, b, i);
  }

  /** The schoolbook product of two limb strings into a cleared buffer. */
  method BnMul(a: seq<u64>, b: seq<u64>, c: array<u64>)
    requires c.Length == |a| + |b|
    modifies c
    ensures Val(c[..]) == Val(a) * Val(b)
  {
    hide Val;
    ValEmpty();
    for k := 0 to c.Length
      invariant forall j :: 0 <= j < k ==> c[j] == 0
    {
      c[k] := 0;
    }
    ValZero(c[..|b|]);
    assert a[..0] == [];
    for i := 0 to |a|
      invariant Val(c[..i + |b|]) == Val(b) * Val(a[..i])
      invariant forall k :: i + |b| <= k < c.Length ==> c[k] == 0
    {
      MulRowRipple(c, i, b, a);
    }
    assert a[..|a|] == a && c[..|a| + |b|] == c[..];
  }
}
