/** The saturating 127-bit accumulator with its counters, and the ties-to-even requantiser. */
module Scratch127 {
  import opened SquareRoot

  const LO_BOUND := -0x4000_0000_0000_0000_0000_0000_0000_0000
  const HI_BOUND := 0x3fff_ffff_ffff_ffff_ffff_ffff_ffff_ffff

  /** The range of a signed 128-bit integer. */
  const I128_MIN := -0x8000_0000_0000_0000_0000_0000_0000_0000
  const I128_MAX := 0x7fff_ffff_ffff_ffff_ffff_ffff_ffff_ffff

  const WORD := 0x1_0000_0000_0000_0000

  type i128 = x: int | I128_MIN <= x <= I128_MAX
  type i64 = x: int | -0x8000_0000_0000_0000 <= x <= 0x7fff_ffff_ffff_ffff
  type i32 = x: int | -0x8000_0000 <= x <= 0x7fff_ffff

  // ------------------------------------------------------------ accumulation

  function Clamp(x: int): (y: int)
    ensures LO_BOUND <= y <= HI_BOUND
  {
    if x > HI_BOUND then HI_BOUND else if x < LO_BOUND then LO_BOUND else x
  }

  /** The nearest point of the domain: no point of the domain is closer to x, and points of the domain
      stay. */
  lemma ClampNearest(x: int, y: int)
    requires LO_BOUND <= y <= HI_BOUND
    ensures LO_BOUND <= Clamp(x) <= HI_BOUND
    ensures (if x < Clamp(x) then Clamp(x) - x else x - Clamp(x)) <= (if x < y then y - x else x - y)
    ensures x == y ==> Clamp(x) == y
  {
  }

  /** The domain is [-2^126, 2^126 - 1] inside the 128-bit range [-2^127, 2^127 - 1]. */
  lemma BoundsArePowers()
    ensures LO_BOUND + TwoPow(126) == 0 && HI_BOUND + 1 == TwoPow(126)
    ensures I128_MIN + TwoPow(127) == 0 && I128_MAX + 1 == TwoPow(127)
  {
    hide TwoPow;
    TwoPowStep(126);
    TwoPowAdd(63, 63);
    TwoPowAdd(31, 32);
    TwoPowStep(31);
    TwoPowAdd(16, 15);
    TwoPowStep(15);
    TwoPowAdd(8, 7);
    TwoPowStep(7);
    SmallTwoPow();
  }

  lemma SmallTwoPow()
    ensures TwoPow(7) == 128
  {
  }

  /** What one step reports. */
  datatype Event = Exact | ClampHi | ClampLo | Overflow

  function EventOf(v: int, product: int): Event {
    if !(I128_MIN <= v + product <= I128_MAX) then Overflow
    else if v + product > HI_BOUND then ClampHi
    else if v + product < LO_BOUND then ClampLo
    else Exact
  }

  /** The counters of the run, each modulo 2^64. */
  class SatCounters {
    var satEvents: nat
    var clampHi: nat
    var clampLo: nat
    var scratchOverflow: nat

    constructor ()
      ensures satEvents == clampHi == clampLo == scratchOverflow == 0
    {
      satEvents, clampHi, clampLo, scratchOverflow := 0, 0, 0, 0;
    }
  }

  class ScratchAcc {
    var v: int

    ghost predicate Valid()
      reads this
    {
      LO_BOUND <= v <= HI_BOUND
    }

    constructor ()
      ensures Valid() && v == 0
    {
      v := 0;
    }

    /** One step: the wrapping addition first, then the clamps, each outcome counted once. */
    method Accumulate(product: i128, sc: SatCounters)
      requires Valid()
      modifies this, sc
      ensures Valid() && v == Clamp(old(v) + product)
      ensures var sum := old(v) + product;
              v == if sum > 0x3fff_ffff_ffff_ffff_ffff_ffff_ffff_ffff then 0x3fff_ffff_ffff_ffff_ffff_ffff_ffff_ffff
                   else if sum < -0x4000_0000_0000_0000_0000_0000_0000_0000 then -0x4000_0000_0000_0000_0000_0000_0000_0000
                   else sum
      ensures var sum := old(v) + product;
              && (I128_MAX < sum || sum < I128_MIN ==>
                    sc.scratchOverflow == (old(sc.scratchOverflow) + 1) % WORD
                    && sc.clampHi == old(sc.clampHi) && sc.clampLo == old(sc.clampLo))
              && (HI_BOUND < sum <= I128_MAX ==>
                    sc.clampHi == (old(sc.clampHi) + 1) % WORD
                    && sc.clampLo == old(sc.clampLo) && sc.scratchOverflow == old(sc.scratchOverflow))
              && (I128_MIN <= sum < LO_BOUND ==>
                    sc.clampLo == (old(sc.clampLo) + 1) % WORD
                    && sc.clampHi == old(sc.clampHi) && sc.scratchOverflow == old(sc.scratchOverflow))
              && (LO_BOUND <= sum <= HI_BOUND ==>
                    sc.clampHi == old(sc.clampHi) && sc.clampLo == old(sc.clampLo)
                    && sc.scratchOverflow == old(sc.scratchOverflow))
      ensures var e := EventOf(old(v), product);
              && sc.clampHi == (if e == ClampHi then (old(sc.clampHi) + 1) % WORD else old(sc.clampHi))
              && sc.clampLo == (if e == ClampLo then (old(sc.clampLo) + 1) % WORD else old(sc.clampLo))
              && sc.scratchOverflow == (if e == Overflow then (old(sc.scratchOverflow) + 1) % WORD else old(sc.scratchOverflow))
              && sc.satEvents == old(sc.satEvents)
    {
      var sum := v + product;
      if sum < I128_MIN || sum > I128_MAX {
        sc.scratchOverflow := (sc.scratchOverflow + 1) % WORD;
        v := if product >= 0 then HI_BOUND else LO_BOUND;
        return;
      }
      v := sum;
      if v > HI_BOUND {
        sc.clampHi := (sc.clampHi + 1) % WORD;
        v := HI_BOUND;
      } else if v < LO_BOUND {
        sc.clampLo := (sc.clampLo + 1) % WORD;
        v := LO_BOUND;
      }
    }
  }

  /** The value after a run: a fold of clamped additions. */
  function ClampFold(v: int, ps: seq<int>): int
    decreases |ps|
  {
    if ps == [] then v else Clamp(ClampFold(v, ps[..|ps| - 1]) + ps[|ps| - 1])
  }

  /** How many steps of the run report the event. */
  function Count(e: Event, v: int, ps: seq<int>): (n: nat)
    ensures n <= |ps|
    decreases |ps|
  {
    if ps == [] then 0
    else
      var k := |ps| - 1;
      Count(e, v, ps[..k]) + if EventOf(ClampFold(v, ps[..k]), ps[k]) == e then 1 else 0
  }

  function Sum(ps: seq<int>): int
    decreases |ps|
  {
    if ps == [] then 0 else Sum(ps[..|ps| - 1]) + ps[|ps| - 1]
  }

  lemma RunSnoc(v: int, ps: seq<int>, x: int)
    ensures ClampFold(v, ps + [x]) == Clamp(ClampFold(v, ps) + x)
    ensures Sum(ps + [x]) == Sum(ps) + x
    ensures forall e :: Count(e, v, ps + [x]) == Count(e, v, ps) + if EventOf(ClampFold(v, ps), x) == e then 1 else 0
  {
    assert (ps + [x])[..|ps|] == ps;
  }

  predicate Products(ps: seq<int>) {
    forall i :: 0 <= i < |ps| ==> I128_MIN <= ps[i] <= I128_MAX
  }

  /** The counter stands n events after base, modulo 2^64. */
  ghost predicate Counted(c: nat, base: nat, n: nat) {
    c == (base + n) % WORD
  }

  lemma CountedNone(c: nat)
    requires c < WORD
    ensures Counted(c, c, 0)
  {
  }

  lemma CountedStep(c: nat, base: nat, n: nat, hit: bool)
    requires Counted(c, base, n)
    ensures Counted(if hit then (c + 1) % WORD else c, base, n + if hit then 1 else 0)
  {
  }

  /** A run of steps: the fold of clamps, and the counters advanced by the number of each event. */
  method AccumulateAll(acc: ScratchAcc, sc: SatCounters, ps: seq<int>)
    requires acc.Valid() && Products(ps)
    requires sc.clampHi < WORD && sc.clampLo < WORD && sc.scratchOverflow < WORD
    modifies acc, sc
    ensures acc.Valid() && acc.v == ClampFold(old(acc.v), ps)
    ensures Counted(sc.clampHi, old(sc.clampHi), Count(ClampHi, old(acc.v), ps))
    ensures Counted(sc.clampLo, old(sc.clampLo), Count(ClampLo, old(acc.v), ps))
    ensures Counted(sc.scratchOverflow, old(sc.scratchOverflow), Count(Overflow, old(acc.v), ps))
  {
    hide EventOf, Clamp, Counted, Count, ClampFold;
    ghost var v0, hi, lo, ov := acc.v, sc.clampHi, sc.clampLo, sc.scratchOverflow;
    CountedNone(hi);
    CountedNone(lo);
    CountedNone(ov);
    NoSteps(v0);
    for i := 0 to |ps|
      invariant acc.Valid() && acc.v == ClampFold(v0, ps[..i])
      invariant Counted(sc.clampHi, hi, Count(ClampHi, v0, ps[..i]))
      invariant Counted(sc.clampLo, lo, Count(ClampLo, v0, ps[..i]))
      invariant Counted(sc.scratchOverflow, ov, Count(Overflow, v0, ps[..i]))
    {
      RunSnoc(v0, ps[..i], ps[i]);
      assert ps[..i + 1] == ps[..i] + [ps[i]];
      ghost var e := EventOf(acc.v, ps[i]);
      CountedStep(sc.clampHi, hi, Count(ClampHi, v0, ps[..i]), e == ClampHi);
      CountedStep(sc.clampLo, lo, Count(ClampLo, v0, ps[..i]), e == ClampLo);
      CountedStep(sc.scratchOverflow, ov, Count(Overflow, v0, ps[..i]), e == Overflow);
      acc.Accumulate(ps[i], sc);
    }
    assert ps[..|ps|] == ps;
  }

  lemma NoSteps(v: int)
    ensures ClampFold(v, []) == v && forall e :: Count(e, v, []) == 0
  {
  }

  /** No event was reported: neither clamp nor overflow. */
  predicate Silent(v: int, ps: seq<int>) {
    Count(ClampHi, v, ps) == 0 && Count(ClampLo, v, ps) == 0 && Count(Overflow, v, ps) == 0
  }

  /** Every partial sum stays in the legal domain. */
  predicate InDomain(v: int, ps: seq<int>) {
    forall k :: 0 <= k <= |ps| ==> LO_BOUND <= v + Sum(ps[..k]) <= HI_BOUND
  }

  /** The counters stay silent exactly when no partial sum leaves the domain, and then the run is the
      plain sum. */
  lemma {:induction false} SilentIffExact(v: int, ps: seq<int>)
    requires LO_BOUND <= v <= HI_BOUND
    ensures Silent(v, ps) <==> InDomain(v, ps)
    ensures Silent(v, ps) ==> ClampFold(v, ps) == v + Sum(ps)
    decreases |ps|
  {
    if ps == [] {
      assert Sum(ps[..0]) == 0;
    } else {
      var k, init := |ps| - 1, ps[..|ps| - 1];
      SilentIffExact(v, init);
      assert ps == init + [ps[k]];
      RunSnoc(v, init, ps[k]);
      InDomainSnoc(v, init, ps[k]);
    }
  }

  lemma InDomainSnoc(v: int, ps: seq<int>, x: int)
    ensures InDomain(v, ps + [x]) <==> InDomain(v, ps) && LO_BOUND <= v + Sum(ps) + x <= HI_BOUND
  {
    var qs := ps + [x];
    RunSnoc(v, ps, x);
    assert forall k :: 0 <= k <= |ps| ==> qs[..k] == ps[..k];
    assert qs[..|qs|] == qs && Sum(qs) == Sum(ps) + x;
    if InDomain(v, qs) {
      forall k | 0 <= k <= |ps| ensures LO_BOUND <= v + Sum(ps[..k]) <= HI_BOUND {
        assert Sum(qs[..k]) == Sum(ps[..k]);
      }
      assert LO_BOUND <= v + Sum(qs[..|qs|]) <= HI_BOUND;
    }
    if InDomain(v, ps) && LO_BOUND <= v + Sum(ps) + x <= HI_BOUND {
      forall k | 0 <= k <= |qs| ensures LO_BOUND <= v + Sum(qs[..k]) <= HI_BOUND {
        if k <= |ps| { assert LO_BOUND <= v + Sum(ps[..k]) <= HI_BOUND; }
      }
    }
  }

  // ------------------------------------------------------------- dot products

  /** 2^94, the largest magnitude of an int64 times an int32: reached by (-2^63) * (-2^31). */
  const TERM_BOUND := 0x4000_0000_0000_0000_0000_0000

  lemma TermBound(w: i64, a: i32)
    ensures -TERM_BOUND <= w * a <= TERM_BOUND
  {
    MagnitudeBound(w, a, 0x8000_0000_0000_0000, 0x8000_0000);
  }

  /** The documented bound, below 2^94, fails at one pair of factors and at no other. */
  lemma TermReaches(w: i64, a: i32)
    ensures w * a == TERM_BOUND <==> w == -0x8000_0000_0000_0000 && a == -0x8000_0000
  {
    var W, A := 0x8000_0000_0000_0000, 0x8000_0000;
    if w != -W || a != -A {
      if w > -W {
        MagnitudeBound(w, a, W - 1, A);
      } else {
        MagnitudeBound(w, a, W, A - 1);
      }
    }
  }

  lemma MagnitudeBound(w: int, a: int, W: int, A: int)
    requires -W <= w <= W && -A <= a <= A
    ensures -(W * A) <= w * a <= W * A
  {
    if w >= 0 { ScaleBound(w, a, W, A); } else { ScaleBound(-w, a, W, A); }
  }

  lemma ScaleBound(w: int, a: int, W: int, A: int)
    requires 0 <= w <= W && -A <= a <= A
    ensures -(W * A) <= w * a <= W * A
    ensures (-w) * a == -(w * a)
  {
    assert (W - w) * A >= 0 && w * (A - a) >= 0 && w * (A + a) >= 0;
    assert W * A == w * A + (W - w) * A;
    assert w * (A - a) == w * A - w * a && w * (A + a) == w * A + w * a;
  }

  function Terms(ws: seq<i64>, xs: seq<i32>): (ps: seq<int>)
    requires |ws| == |xs|
    ensures |ps| == |ws|
  {
    seq(|ws|, i requires 0 <= i < |ws| => ws[i] * xs[i])
  }

  /** One more pair adds its product. */
  lemma DotSnoc(ws: seq<i64>, xs: seq<i32>, w: i64, x: i32)
    requires |ws| == |xs|
    ensures Sum(Terms([], [])) == 0
    ensures Sum(Terms(ws + [w], xs + [x])) == Sum(Terms(ws, xs)) + w * x
  {
    assert Terms(ws + [w], xs + [x]) == Terms(ws, xs) + [w * x];
    RunSnoc(0, Terms(ws, xs), w * x);
  }

  ghost predicate TermsBounded(ps: seq<int>) {
    forall i :: 0 <= i < |ps| ==> -TERM_BOUND <= ps[i] <= TERM_BOUND
  }

  lemma {:induction false} SumBounded(ps: seq<int>)
    requires TermsBounded(ps)
    ensures -(|ps| * TERM_BOUND) <= Sum(ps) <= |ps| * TERM_BOUND
    decreases |ps|
  {
    if ps != [] { SumBounded(ps[..|ps| - 1]); }
  }

  /** Fewer than 2^32 products never clamp, so the accumulator holds the exact dot product. */
  lemma DotExact(ps: seq<int>)
    requires TermsBounded(ps) && |ps| < 0x1_0000_0000
    ensures Silent(0, ps) && ClampFold(0, ps) == Sum(ps)
  {
    forall k | 0 <= k <= |ps| ensures LO_BOUND <= 0 + Sum(ps[..k]) <= HI_BOUND {
      SumBounded(ps[..k]);
      assert k * TERM_BOUND <= 0xffff_ffff * TERM_BOUND;
    }
    SilentIffExact(0, ps);
  }

  /** 2^32 or more extreme products reach 2^126, one more than the domain holds. */
  lemma DotSharp(ps: seq<int>)
    requires |ps| >= 0x1_0000_0000 && forall i :: 0 <= i < |ps| ==> ps[i] == TERM_BOUND
    ensures !Silent(0, ps)
  {
    EqualSum(ps, TERM_BOUND);
    assert ps[..|ps|] == ps;
    assert |ps| * TERM_BOUND >= 0x1_0000_0000 * TERM_BOUND;
    SilentIffExact(0, ps);
  }

  lemma {:induction false} EqualSum(ps: seq<int>, x: int)
    requires forall i :: 0 <= i < |ps| ==> ps[i] == x
    ensures Sum(ps) == |ps| * x
    decreases |ps|
  {
    if ps != [] { EqualSum(ps[..|ps| - 1], x); }
  }

  /** Every dot product of n pairs is accumulated without an event exactly when n is below 2^32. */
  lemma DotExactIff(n: nat)
    ensures (forall ws: seq<i64>, xs: seq<i32> :: |ws| == n && |xs| == n ==> Silent(0, Terms(ws, xs))) <==> n < 0x1_0000_0000
  {
    hide Silent;
    if n < 0x1_0000_0000 {
      forall ws: seq<i64>, xs: seq<i32> | |ws| == n && |xs| == n ensures Silent(0, Terms(ws, xs)) {
        TermsAreBounded(ws, xs);
        DotExact(Terms(ws, xs));
      }
    } else {
      var ws: seq<i64> := seq(n, _ => -0x8000_0000_0000_0000);
      var xs: seq<i32> := seq(n, _ => -0x8000_0000);
      TermReaches(-0x8000_0000_0000_0000, -0x8000_0000);
      DotSharp(Terms(ws, xs));
    }
  }

  lemma TermsAreBounded(ws: seq<i64>, xs: seq<i32>)
    requires |ws| == |xs|
    ensures TermsBounded(Terms(ws, xs))
  {
    forall i | 0 <= i < |ws| ensures -TERM_BOUND <= Terms(ws, xs)[i] <= TERM_BOUND { TermBound(ws[i], xs[i]); }
  }

  /** The dot product of fewer than 2^32 pairs, accumulated from zero: exact, with silent counters. */
  method DotProduct(ws: seq<i64>, xs: seq<i32>) returns (acc: ScratchAcc, sc: SatCounters)
    requires |ws| == |xs| < 0x1_0000_0000
    ensures fresh(acc) && fresh(sc) && acc.Valid() && acc.v == Sum(Terms(ws, xs))
    ensures sc.clampHi == sc.clampLo == sc.scratchOverflow == 0
  {
    ghost var ps := Terms(ws, xs);
    TermsAreBounded(ws, xs);
    DotExact(ps);
    acc := new ScratchAcc();
    sc := new SatCounters();
    SilentPrefix(ps, 0);
    for i := 0 to |ws|
      invariant fresh(acc) && fresh(sc) && acc.Valid() && acc.v == Sum(ps[..i])
      invariant sc.clampHi == sc.clampLo == sc.scratchOverflow == 0
    {
      SilentPrefix(ps, i);
      SilentPrefix(ps, i + 1);
      assert ps[..i + 1] == ps[..i] + [ps[i]];
      RunSnoc(0, ps[..i], ps[i]);
      acc.Accumulate(ws[i] * xs[i], sc);
    }
    assert ps[..|ws|] == ps;
  }

  lemma SilentPrefix(ps: seq<int>, k: nat)
    requires TermsBounded(ps) && k <= |ps| < 0x1_0000_0000
    ensures Silent(0, ps[..k]) && ClampFold(0, ps[..k]) == Sum(ps[..k]) && LO_BOUND <= Sum(ps[..k]) <= HI_BOUND
  {
    DotExact(ps[..k]);
    SilentIffExact(0, ps[..k]);
    assert ps[..k][..k] == ps[..k];
  }

  // ------------------------------------------------------------- requantisation

  const SAT := 2147483647

  datatype Requant32 = Requant32(value: i32, saturated: bool)

  /** Shift right by s with ties to even, then saturate symmetrically. */
  method RnteShift32(mag: nat, neg: bool, s: nat) returns (r: Requant32)
    requires 1 <= s <= 63 && mag < 0x8000_0000_0000_0000_0000_0000_0000_0000
    ensures r == Requantised(mag, neg, s)
  {
    hide TwoPow, IsNearestEven;
    var half := TwoPow(s - 1);
    var d := TwoPow(s);
    var q := mag / d;
    var rem := mag % d;
    var gt, eq, odd := rem > half, rem == half, q % 2 != 0;
    TwoPowStep(s - 1);
    q := q + if gt || (eq && odd) then 1 else 0;
    assert q == HalfEven(mag, d);
    if q > SAT { return Requant32(if neg then -2147483647 else 2147483647, true); }
    r := Requant32(if neg then -q else q, false);
  }

  /** q is the quotient of mag by d rounded to nearest, a tie going to the even neighbour
      (roundTiesToEven, section 4.3.1 of IEEE 754-2019). */
  ghost predicate IsNearestEven(q: int, mag: int, d: int) {
    var e := 2 * (mag - q * d);
    -d <= e <= d && (e == d || e == -d ==> q % 2 == 0)
  }

  lemma NearestUnique(q: int, q': int, mag: int, d: int)
    requires d > 0 && IsNearestEven(q, mag, d) && IsNearestEven(q', mag, d)
    ensures q == q'
  {
    if q < q' { NearestBelow(q, q', mag, mag, d); } else if q' < q { NearestBelow(q', q, mag, mag, d); }
  }

  /** Rounded values that decrease come from arguments that decrease. */
  lemma NearestBelow(q: int, q': int, mag: int, mag': int, d: int)
    requires d > 0 && IsNearestEven(q, mag, d) && IsNearestEven(q', mag', d) && q < q'
    ensures mag < mag'
  {
    var k := q' - q;
    assert q' * d == q * d + k * d;
    assert (k - 1) * d >= 0;
    assert k * d == (k - 1) * d + d;
  }

  /** Half-even division, the unique nearest value. */
  function HalfEven(mag: nat, d: nat): (q: nat)
    requires d > 0 && d % 2 == 0
    ensures IsNearestEven(q, mag, d)
  {
    NearestStep(mag, d, d / 2);
    mag / d + if mag % d > d / 2 || (mag % d == d / 2 && (mag / d) % 2 != 0) then 1 else 0
  }

  lemma NearestStep(mag: nat, d: nat, half: nat)
    requires d > 0 && d == 2 * half
    ensures var q, rem := mag / d, mag % d;
            var up := if rem > half || (rem == half && q % 2 != 0) then 1 else 0;
            IsNearestEven(q + up, mag, d)
  {
    var q, rem := mag / d, mag % d;
    assert mag == q * d + rem;
    assert (q + 1) * d == q * d + d;
  }

  /** The saturated, signed result. */
  ghost function Requantised(mag: nat, neg: bool, s: nat): Requant32
    requires s >= 1
  {
    TwoPowStep(s - 1);
    var q: int := HalfEven(mag, TwoPow(s));
    if q > SAT then Requant32(if neg then -2147483647 else 2147483647, true)
    else Requant32(if neg then -q else q, false)
  }

  /** The result is the nearest-even quotient, or the bound of its sign when that does not fit;
      nothing else satisfies this. */
  lemma RequantisedMeaning(mag: nat, neg: bool, s: nat, q: int)
    requires s >= 1 && IsNearestEven(q, mag, TwoPow(s))
    ensures var r := Requantised(mag, neg, s);
            && (r.saturated <==> q > 0x7fff_ffff)
            && r.value == (if neg then -1 else 1) * (if q > 0x7fff_ffff then 0x7fff_ffff else q)
  {
    hide TwoPow;
    TwoPowStep(s - 1);
    NearestUnique(q, HalfEven(mag, TwoPow(s)), mag, TwoPow(s));
  }

  /** A magnitude closer to q * 2^s than half a step goes to q; one exactly between 2q and 2q + 1, or
      between 2q - 1 and 2q, goes to the even neighbour 2q. */
  lemma RoundsToNearest(mag: nat, s: nat, q: nat)
    requires s >= 1 && q <= SAT
    ensures q * TwoPow(s) < mag + TwoPow(s - 1) && mag < q * TwoPow(s) + TwoPow(s - 1) ==> Requantised(mag, false, s) == Requant32(q, false)
    ensures q % 2 == 0 && mag == q * TwoPow(s) + TwoPow(s - 1) ==> Requantised(mag, false, s) == Requant32(q, false)
    ensures q % 2 == 0 && mag + TwoPow(s - 1) == q * TwoPow(s) ==> Requantised(mag, false, s) == Requant32(q, false)
  {
    hide TwoPow, HalfEven;
    TwoPowStep(s - 1);
    var d: int, h: int := TwoPow(s), TwoPow(s - 1);
    var e := mag - q * d;
    if -h < e < h || (q % 2 == 0 && (e == h || e == -h)) {
      assert IsNearestEven(q, mag, d);
      NearestUnique(q, HalfEven(mag, d), mag, d);
    }
  }

  /** Changing the sign changes the sign of the result and nothing else. */
  lemma OddSymmetric(mag: nat, s: nat)
    requires s >= 1
    ensures Requantised(mag, true, s).value == -Requantised(mag, false, s).value
    ensures Requantised(mag, true, s).saturated == Requantised(mag, false, s).saturated
  {
  }

  /** The requantised value of a signed number. */
  ghost function Requant(x: int, s: nat): int
    requires s >= 1
  {
    Requantised(if x < 0 then -x else x, x < 0, s).value
  }

  /** Requantisation is monotone over all signed inputs. */
  lemma Monotone(x: int, y: int, s: nat)
    requires s >= 1 && x <= y
    ensures Requant(x, s) <= Requant(y, s)
  {
    hide TwoPow;
    TwoPowStep(s - 1);
    var d := TwoPow(s);
    var a, b := if x < 0 then -x else x, if y < 0 then -y else y;
    if x >= 0 {
      HalfEvenMonotone(a, b, d);
    } else if y < 0 {
      HalfEvenMonotone(b, a, d);
    }
  }

  lemma HalfEvenMonotone(a: nat, b: nat, d: nat)
    requires d > 0 && d % 2 == 0 && a <= b
    ensures HalfEven(a, d) <= HalfEven(b, d)
  {
    if HalfEven(b, d) < HalfEven(a, d) { NearestBelow(HalfEven(b, d), HalfEven(a, d), b, a, d); }
  }

  /** Accumulate, then requantise: the nearest-even quotient of the exact dot product, saturated. */
  method DotRequant(ws: seq<i64>, xs: seq<i32>, s: nat) returns (r: Requant32)
    requires |ws| == |xs| < 0x1_0000_0000 && 1 <= s <= 63
    ensures var dot := Sum(Terms(ws, xs));
            r == Requantised(if dot < 0 then -dot else dot, dot < 0, s)
  {
    var acc, sc := DotProduct(ws, xs);
    var v := acc.v;
    r := RnteShift32(if v < 0 then -v else v, v < 0, s);
  }
}
