/** The Montgomery product: schoolbook multiplication into a twelve-limb buffer, then six
    reduction passes that each clear one limb, then one conditional subtraction. */
module MontgomeryProduct {
  import opened Congruence
  import opened FieldOps
  import opened Bignum
  import opened MontgomeryContext
  import opened MontgomeryDomain

  /** With n0 = -1/m0 mod BASE the multiple mi of the modulus clears the low limb exactly. */
  lemma LowLimbCleared(t: u64, m0: u64, n0: u64, mi: u64)
    requires m0 * n0 % BASE == BASE - 1 && mi == t * n0 % BASE
    ensures (t + mi * m0) % BASE == 0
  {
    hide Cong;
    CongMod(t * n0, BASE);
    CongRefl(m0, BASE);
    CongMul(mi, t * n0, m0, m0, BASE);
    SmallMod(BASE - 1, BASE);
    ModToCong(m0 * n0, BASE - 1, BASE);
    CongRefl(t, BASE);
    CongMul(t, t, m0 * n0, BASE - 1, BASE);
    assert (t * n0) * m0 == t * (m0 * n0);
    CongTrans(mi * m0, t * (m0 * n0), t * (BASE - 1), BASE);
    CongAdd(t, t, mi * m0, t * (BASE - 1), BASE);
    assert t + t * (BASE - 1) == t * BASE;
    CongIntro(t * BASE, 0, t, BASE);
    CongTrans(t + mi * m0, t * BASE, 0, BASE);
    SmallMod(0, BASE);
    CongToMod(t + mi * m0, 0, BASE);
  }

  /** One reduction pass as an equation on the three parts of the live window. */
  lemma RedcWindow(t: int, m0: int, mi: int, cr: int, mid: int, mid': int, mtail: int, cr': int,
                   high: int, high': int, c: int, n: int, n': int, m: int, k: nat)
    requires t + mi * m0 == BASE * cr
    requires mid' + Shift(cr', 5) == mid + mtail * mi + cr
    requires high' + Shift(c, k) == high + cr'
    requires n == t + BASE * (mid + Shift(high, 5)) && n' == mid' + Shift(high', 5)
    requires m == m0 + BASE * mtail
    ensures BASE * (n' + Shift(c, k + 5)) == n + mi * m
  {
    hide Shift;
    ShiftAdd(high', Shift(c, k), 5);
    ShiftAdd(high, cr', 5);
    ShiftShift(c, k, 5);
    assert mi * (m0 + BASE * mtail) == mi * m0 + BASE * (mtail * mi);
  }

  lemma WindowSplit(T: seq<u64>, i: nat)
    requires |T| == 12 && i < 6
    ensures Val(T[i..]) == T[i] + BASE * Val(T[i + 1..])
    ensures Val(T[i + 1..]) == Val(T[i + 1..i + 6]) + Shift(Val(T[i + 6..]), 5)
  {
    hide Val;
    ValCons(T[i..]);
    assert T[i..][1..] == T[i + 1..];
    assert T[i + 1..] == T[i + 1..i + 6] + T[i + 6..];
    ValAppend(T[i + 1..i + 6], T[i + 6..], 5);
  }

  /** One pass of the reduction loop: the window above limb i becomes (window at i + mi*m) / BASE.
      The carry c out of the twelve limbs, which the source drops, is returned as a ghost. */
  method RedcStep(T: array<u64>, i: nat, m: Fe6, n0: u64) returns (ghost mi: u64, ghost c: u64)
    requires T.Length == 12 && i < 6
    requires m[0] * n0 % BASE == BASE - 1
    modifies T
    ensures BASE * (Val(T[i + 1..]) + Shift(c, 11 - i)) == old(Val(T[i..])) + mi * Val(m)
  {
    hide Val, Shift;
    ghost var T0 := T[..];
    WindowSplit(T0, i);
    assert T0[i..] == T[i..];
    var q: u64 := T[i] * n0 % BASE;
    LowLimbCleared(T[i], m[0], n0, q);
    ProductFits(q, m[0]);
    var cu := T[i] + q * m[0];
    var cr: u64 := cu / BASE;
    assert cu == BASE * cr;
    ghost var cr0 := cr;
    cr := AccumulateRow(T, i + 1, m[1..], q, cr);
    ghost var T1, cr1 := T[..], cr;
    assert T1[i + 6..] == T0[i + 6..];
    cr := PropagateCarry(T, i + 6, cr);
    ghost var T2 := T[..];
    assert T2[i + 1..i + 6] == T1[i + 1..i + 6] && T2[i + 1..] == T[i + 1..];
    assert T1[i + 1..i + 1 + 5] == T1[i + 1..i + 6] && T0[i + 1..i + 1 + 5] == T0[i + 1..i + 6];
    WindowSplit(T2, i);
    ValCons(m);
    mi, c := q, cr;
    RedcWindow(T0[i], m[0], mi, cr0, Val(T0[i + 1..i + 6]), Val(T2[i + 1..i + 6]), Val(m[1..]), cr1,
               Val(T0[i + 6..]), Val(T2[i + 6..]), c, Val(T0[i..]), Val(T2[i + 1..]), Val(m), 6 - i);
  }

  /** How far the reduction has come before pass i, for the product P and modulus m. */
  ghost predicate Reducing(window: nat, i: nat, P: nat, m: nat, q: nat) {
    Shift(window, i) == P + q * m && q < Shift(1, i)
  }

  /** The quotient stays below BASE^(i+1). */
  lemma QuotientGrows(q: nat, mi: u64, i: nat)
    requires q < Shift(1, i)
    ensures 0 <= q + Shift(mi, i) < Shift(1, i + 1)
  {
    hide Shift;
    ShiftMonotone(mi, BASE - 1, i);
    ShiftMonotone(0, mi, i);
    ShiftZero(i);
    ShiftAdd(BASE - 1, 1, i);
    ShiftBase(1, i);
    ShiftStep(1, i);
  }

  lemma WindowEquation(w: nat, W: int, i: nat, P: nat, m: nat, q: nat, mi: u64)
    requires Shift(w, i) == P + q * m && BASE * W == w + mi * m
    ensures Shift(W, i + 1) == P + (q + Shift(mi, i)) * m
  {
    hide Shift;
    ShiftBase(W, i);
    ShiftStep(W, i);
    ShiftAdd(w, mi * m, i);
    ShiftScale(mi, m, i);
    assert (q + Shift(mi, i)) * m == q * m + Shift(mi, i) * m;
  }

  lemma TotalBelow(P: nat, q: nat, m: nat, R: nat)
    requires P < m * R && q < R && 2 * m < R
    ensures P + q * m < R * R
  {
    assert q * m <= R * m;
    assert R * (2 * m) <= R * R;
  }

  /** A carry leaving the buffer would make the total at least BASE^12. */
  lemma NoEscape(w': nat, c: u64, i: nat, total: int)
    requires i < 6 && Shift(w' + Shift(c, 11 - i), i + 1) == total
    requires total < Shift(1, 11 - i + (i + 1))
    ensures c == 0
  {
    hide Shift;
    ShiftAdd(w', Shift(c, 11 - i), i + 1);
    ShiftShift(c, 11 - i, i + 1);
    ShiftMonotone(0, w', i + 1);
    ShiftZero(i + 1);
    if c > 0 { ShiftMonotone(1, c, 11 - i + (i + 1)); }
  }

  /** A pass keeps the equation, and no carry leaves the buffer: the total stays below BASE^12. */
  lemma ReducingStep(w: nat, w': nat, i: nat, P: nat, m: nat, q: nat, mi: u64, c: u64, L: Fe6)
    returns (q': nat)
    requires i < 6 && Reducing(w, i, P, m, q)
    requires BASE * (w' + Shift(c, 11 - i)) == w + mi * m
    requires P < m * Radix(L) && 2 * m < Radix(L)
    ensures c == 0 && Reducing(w', i + 1, P, m, q')
  {
    hide Shift, Radix;
    QuotientGrows(q, mi, i);
    q' := q + Shift(mi, i);
    WindowEquation(w, w' + Shift(c, 11 - i), i, P, m, q, mi);
    ShiftUpTo(i + 1, |L|);
    RadixIsShift(L, |L|);
    TotalBelow(P, q', m, Radix(L));
    RadixSquared(L, 11 - i + (i + 1));
    NoEscape(w', c, i, P + q' * m);
    ShiftZero(11 - i);
  }

  lemma ShiftStep(x: int, i: nat)
    ensures Shift(x, i + 1) == BASE * Shift(x, i)
  {
  }

  lemma {:induction false} ShiftUpTo(i: nat, j: nat)
    requires i <= j
    ensures 0 < Shift(1, i) <= Shift(1, j)
    decreases j
  {
    if j > i { ShiftUpTo(i, j - 1); } else if i > 0 { ShiftUpTo(i - 1, i - 1); }
  }

  lemma RadixSquared(L: Fe6, n: nat)
    requires n == 2 * |L|
    ensures Shift(1, n) == Radix(L) * Radix(L)
  {
    hide Shift, Radix;
    RadixIsShift(L, |L|);
    ShiftShift(1, |L|, |L|);
    ShiftScale(1, Shift(1, |L|), |L|);
    assert 1 * Shift(1, |L|) == Shift(1, |L|);
  }

  /** After n passes the window is the product divided by R = BASE^n, below twice the modulus. */
  lemma ReducingDone(w: nat, P: nat, m: Modulus, q: nat, n: nat, R: int)
    requires Reducing(w, n, P, m, q) && R == Shift(1, n) && P < m * R
    ensures w < 2 * m && Cong(w * R, P, m)
  {
    hide Shift;
    ShiftScale(1, w, n);
    assert 1 * w == w;
    assert w * R == P + q * m;
    assert q * m < R * m;
    if w >= 2 * m { assert w * R >= 2 * m * R; }
    CongIntro(w * R, P, q, m);
  }

  /** Subtracting the modulus keeps the congruence. */
  lemma ReducedProduct(w: nat, r: nat, P: nat, m: Modulus, R: int)
    requires Cong(w * R, P, m) && (r == w || r == w - m)
    ensures Cong(r * R, P, m)
  {
    hide Cong;
    CongIntro(w, r, if r == w then 0 else 1, m);
    CongSym(w, r, m);
    CongRefl(R, m);
    CongMul(r, w, R, R, m);
    CongTrans(r * R, w * R, P, m);
  }

  /** The Montgomery product a * b / 2^384 mod m, by schoolbook product and six reduction passes. */
  method Mmul(C: MCtx, a: Fe6, b: Fe6) returns (r: Fe6)
    requires Valid(C)
    requires Val(a) < Modulo(C) || Val(b) < Modulo(C)
    ensures Val(r) < Modulo(C)
    ensures Cong(Val(r) * Radix(C.m), Val(a) * Val(b), Modulo(C))
    ensures Dec(C, r) == FMul(Dec(C, a), Dec(C, b), Modulo(C))
  {
    hide Val, Shift, Radix, Reducing, Dec, Cong;
    var T := new u64[12](_ => 0);
    ghost var P := Val(a) * Val(b);
    assert a[..6] == a && b[..6] == b;
    ValZero(T[..6]);
    ValEmpty();
    assert b[..0] == [];
    for i := 0 to 6
      invariant Val(T[..i + 6]) == Val(a) * Val(b[..i])
      invariant forall k :: i + 6 <= k < 12 ==> T[k] == 0
    {
      MulRow(T, i, a, b);
    }
    assert T[..12] == T[0..];
    ghost var q := 0;
    ReducingStart(Val(T[0..]), P, Modulo(C));
    ProductBelow(C, a, b);
    for i := 0 to 6
      invariant q >= 0 && Reducing(Val(T[i..]), i, P, Modulo(C), q)
    {
      ghost var w := Val(T[i..]);
      ghost var mi, c := RedcStep(T, i, C.m, C.n0);
      q := ReducingStep(w, Val(T[i + 1..]), i, P, Modulo(C), q, mi, c, C.m);
    }
    var res := new u64[6](i requires 0 <= i < 6 reads T => T[i + 6]);
    assert res[..] == T[6..];
    ghost var w := Val(res[..]);
    RadixIsShift(C.m, 6);
    ReducingDone(w, P, Modulo(C), q, 6, Radix(C.m));
    ShiftZero(6);
    ReduceOnce(res, C.m, 0);
    r := res[..];
    ReducedProduct(w, Val(r), P, Modulo(C), Radix(C.m));
    DecProduct(C, a, b, r);
  }

  lemma ReducingStart(w: nat, P: nat, m: nat)
    requires w == P
    ensures Reducing(w, 0, P, m, 0)
  {
    assert 0 * m == 0;
  }

  lemma ProductBelow(C: MCtx, a: Fe6, b: Fe6)
    requires Val(a) < Modulo(C) || Val(b) < Modulo(C)
    ensures Val(a) * Val(b) < Modulo(C) * Radix(C.m)
  {
    hide Val, Radix, Shift;
    ValBound(a, |C.m|);
    ValBound(b, |C.m|);
    RadixIsShift(C.m, |C.m|);
    if Val(a) < Modulo(C) {
      StrictProduct(Val(a), Modulo(C), Val(b), Radix(C.m));
    } else {
      StrictProduct(Val(b), Modulo(C), Val(a), Radix(C.m));
    }
  }

  lemma StrictProduct(x: nat, X: nat, y: nat, Y: nat)
    requires x < X && y < Y
    ensures x * y < X * Y && y * x < X * Y
  {
    assert x * y <= x * Y;
    assert x * Y < X * Y;
  }
}
