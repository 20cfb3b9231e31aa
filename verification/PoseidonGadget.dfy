/** The circuit of the attic's constraint gadget for the permutation, and what a run of it computes. */
module PoseidonGadget {
  import opened Congruence
  import opened PrimeField
  import opened R1cs
  import opened ConstraintBuilder
  import opened Poseidon

  // ------------------------------------------------------------- the circuit

  /** One lane: constant, then fifth power; the result is wire n + 3. */
  function LaneGates(cur: nat, c: int, n: nat): (g: seq<Gate>)
    ensures |g| == 4
  {
    [Linear([(cur, 1), (0, c)])] + SboxGates(n, n + 1)
  }

  function LanesGates(cur: seq<nat>, rc: seq<int>, k: nat, n: nat, l: nat): (g: seq<Gate>)
    requires |cur| == 3 && l <= 3 && k + 3 <= |rc|
    ensures |g| == 4 * l
  {
    if l == 0 then [] else LanesGates(cur, rc, k, n, l - 1) + LaneGates(cur[l - 1], rc[k + l - 1], n + 4 * (l - 1))
  }

  function MixTerms(u: seq<nat>, m: seq<int>): (f: seq<Term>)
    requires |u| == 3 && |m| == 3
    ensures |f| == 3
  {
    [(u[0], m[0]), (u[1], m[1]), (u[2], m[2])]
  }

  /** The first i mix rows of a full round. */
  function MixGates(u: seq<nat>, M: seq<seq<int>>, i: nat): (g: seq<Gate>)
    requires |u| == 3 && IsTable(M) && i <= 3
    ensures |g| == i
  {
    if i == 0 then [] else MixGates(u, M, i - 1) + [Linear(MixTerms(u, M[i - 1]))]
  }

  function FullGates(cur: seq<nat>, rc: seq<int>, k: nat, M: seq<seq<int>>, n: nat): (g: seq<Gate>)
    requires |cur| == 3 && k + 3 <= |rc| && IsTable(M)
    ensures |g| == 15
  {
    LanesGates(cur, rc, k, n, 3) + MixGates([n + 3, n + 7, n + 11], M, 3)
  }

  /** cur after its first i entries were overwritten by the wires n, n + 1, ... */
  function Overwritten(cur: seq<nat>, n: nat, i: nat): (c: seq<nat>)
    requires |cur| == 3
    ensures |c| == 3
  {
    seq(3, j requires 0 <= j < 3 => if j < i then n + j else cur[j])
  }

  /** The first i mix rows of a partial round. Lanes 1 and 2 are read from cur, which the loop is
      overwriting: the third row reads the new lane 1. */
  function PartialMixGates(sb: nat, cur: seq<nat>, M: seq<seq<int>>, n: nat, i: nat): (g: seq<Gate>)
    requires |cur| == 3 && IsTable(M) && i <= 3
    ensures |g| == i
  {
    if i == 0 then []
    else
      var c := Overwritten(cur, n, i - 1);
      PartialMixGates(sb, cur, M, n, i - 1) + [Linear(MixTerms([sb, c[1], c[2]], M[i - 1]))]
  }

  function PartialGates(cur: seq<nat>, c: int, M: seq<seq<int>>, n: nat): (g: seq<Gate>)
    requires |cur| == 3 && IsTable(M)
    ensures |g| == 7
  {
    LaneGates(cur[0], c, n) + PartialMixGates(n + 3, cur, M, n + 4, 3)
  }

  /** Where the state is after r full rounds that started at wire n. */
  function FullWires(cur: seq<nat>, n: nat, r: nat): (c: seq<nat>)
    requires |cur| == 3
    ensures |c| == 3
  {
    if r == 0 then cur else var m := n + 15 * (r - 1) + 12; [m, m + 1, m + 2]
  }

  function FullRoundsGates(cur: seq<nat>, rc: seq<int>, k: nat, M: seq<seq<int>>, n: nat, r: nat): (g: seq<Gate>)
    requires |cur| == 3 && k + 3 * r <= |rc| && IsTable(M)
    ensures |g| == 15 * r
    decreases r
  {
    if r == 0 then []
    else
      FullRoundsGates(cur, rc, k, M, n, r - 1)
      + FullGates(FullWires(cur, n, r - 1), rc, k + 3 * (r - 1), M, n + 15 * (r - 1))
  }

  function PartialWires(cur: seq<nat>, n: nat, r: nat): (c: seq<nat>)
    requires |cur| == 3
    ensures |c| == 3
  {
    if r == 0 then cur else var m := n + 7 * (r - 1) + 4; [m, m + 1, m + 2]
  }

  function PartialRoundsGates(cur: seq<nat>, rc: seq<int>, k: nat, M: seq<seq<int>>, n: nat, r: nat): (g: seq<Gate>)
    requires |cur| == 3 && k + r <= |rc| && IsTable(M)
    ensures |g| == 7 * r
    decreases r
  {
    if r == 0 then []
    else
      PartialRoundsGates(cur, rc, k, M, n, r - 1)
      + PartialGates(PartialWires(cur, n, r - 1), rc[k + r - 1], M, n + 7 * (r - 1))
  }

  // ----------------------------------------------------- what the wires carry

  predicate WiresBelow(cur: seq<nat>, n: nat) {
    |cur| == 3 && cur[0] < n && cur[1] < n && cur[2] < n
  }

  function StateAt(w: seq<int>, cur: seq<nat>): State3
    requires WiresBelow(cur, |w|)
  {
    State3(w[cur[0]], w[cur[1]], w[cur[2]])
  }

  /** x * (x^2)^2 is x^5. */
  lemma SboxValue(t: int, x2: int, x4: int, p: Modulus)
    requires x2 == t * t % p && x4 == x2 * x2 % p
    ensures t * x4 % p == Sbox(t, p)
  {
    hide Cong;
    CongMod(t * t, p);
    CongMod(x2 * x2, p);
    CongMul(x2, t * t, x2, t * t, p);
    CongTrans(x4, x2 * x2, (t * t) * (t * t), p);
    CongRefl(t, p);
    CongMul(t, t, x4, (t * t) * (t * t), p);
    CongToMod(t * x4, t * ((t * t) * (t * t)), p);
    FifthPower(t);
  }

  lemma FifthPower(t: int)
    ensures Pow(t, 5) == t * ((t * t) * (t * t))
  {
    assert Pow(t, 1) == t * Pow(t, 0) && Pow(t, 2) == t * Pow(t, 1);
    assert Pow(t, 3) == t * Pow(t, 2) && Pow(t, 4) == t * Pow(t, 3);
    assert Pow(t, 4) == (t * t) * (t * t);
  }

  lemma LaneOrdered(cur: nat, c: int, n: nat)
    requires cur < n
    ensures Ordered(LaneGates(cur, c, n), n)
  {
    var g := LaneGates(cur, c, n);
    assert g[0] == Linear([(cur, 1), (0, c)]) && g[1] == Product(n, n);
    assert g[2] == Product(n + 1, n + 1) && g[3] == Product(n, n + 2);
  }

  lemma SboxRun(w: seq<int>, n: nat, p: Modulus)
    requires |w| == n + 1
    ensures Ordered(SboxGates(n, n + 1), n + 1)
    ensures var w' := Run(w, SboxGates(n, n + 1), p); w'[n + 3] == Sbox(w[n], p)
  {
    hide GateWithin, GateValue, Sbox, Run;
    var x2 := w[n] * w[n] % p;
    var x4 := x2 * x2 % p;
    var y := w + [x2];
    var v := y + [x4];
    ThreeProducts(w, n, p);
    SboxValue(w[n], x2, x4, p);
  }

  lemma ThreeProducts(w: seq<int>, n: nat, p: Modulus)
    requires |w| == n + 1
    ensures Ordered(SboxGates(n, n + 1), n + 1)
    ensures var x2 := w[n] * w[n] % p; var x4 := x2 * x2 % p;
            Run(w, SboxGates(n, n + 1), p) == w + [x2] + [x4] + [w[n] * x4 % p]
  {
    var x2 := w[n] * w[n] % p;
    var x4 := x2 * x2 % p;
    RunFirst(w, Product(n, n), [Product(n + 1, n + 1), Product(n, n + 2)], p);
    RunFirst(w + [x2], Product(n + 1, n + 1), [Product(n, n + 2)], p);
    RunOne(w + [x2] + [x4], Product(n, n + 2), p);
    assert SboxGates(n, n + 1) == [Product(n, n)] + [Product(n + 1, n + 1), Product(n, n + 2)];
    assert [Product(n + 1, n + 1), Product(n, n + 2)] == [Product(n + 1, n + 1)] + [Product(n, n + 2)];
  }

  lemma RunFirst(w: seq<int>, g: Gate, rest: seq<Gate>, p: Modulus)
    requires GateWithin(g, |w|) && Ordered(rest, |w| + 1)
    ensures Ordered([g] + rest, |w|) && Run(w, [g] + rest, p) == Run(w + [GateValue(g, w, p)], rest, p)
  {
    OrderedConcat([g], rest, |w|);
    assert ([g] + rest)[1..] == rest;
  }

  /** A lane ends in the fifth power of its input plus the constant. */
  lemma LaneRun(w: seq<int>, cur: nat, c: int, n: nat, p: Modulus)
    requires n == |w| && cur < n && w[0] == 1
    ensures Ordered(LaneGates(cur, c, n), n)
    ensures Run(w, LaneGates(cur, c, n), p)[n + 3] == Sbox((w[cur] + c) % p, p)
  {
    hide Sbox, Run;
    LaneOrdered(cur, c, n);
    ArkValue(w, cur, c);
    var g := Linear([(cur, 1), (0, c)]);
    var t := (w[cur] + c) % p;
    SboxRun(w + [t], n, p);
    RunFirst(w, g, SboxGates(n, n + 1), p);
  }

  /** Earlier wires keep their value through a run. */
  lemma RunKeeps(w: seq<int>, g: seq<Gate>, cur: seq<nat>, p: Modulus)
    requires Ordered(g, |w|) && WiresBelow(cur, |w|)
    ensures StateAt(Run(w, g, p), cur) == StateAt(w, cur)
    ensures w != [] ==> Run(w, g, p)[0] == w[0]
  {
    hide Run;
    var w' := Run(w, g, p);
    assert forall i :: 0 <= i < |w| ==> w'[i] == w'[..|w|][i];
  }

  lemma LanesRun(w: seq<int>, cur: seq<nat>, rc: seq<int>, k: nat, n: nat, p: Modulus)
    requires n == |w| && WiresBelow(cur, n) && k + 3 <= |rc| && n > 0 && w[0] == 1
    ensures Ordered(LanesGates(cur, rc, k, n, 3), n)
    ensures StateAt(Run(w, LanesGates(cur, rc, k, n, 3), p), [n + 3, n + 7, n + 11]) ==
            State3(Sbox((w[cur[0]] + rc[k]) % p, p), Sbox((w[cur[1]] + rc[k + 1]) % p, p),
                   Sbox((w[cur[2]] + rc[k + 2]) % p, p))
  {
    hide Sbox, Run, LaneGates, Ordered;
    var g0, g1, g2 := LaneGates(cur[0], rc[k], n), LaneGates(cur[1], rc[k + 1], n + 4), LaneGates(cur[2], rc[k + 2], n + 8);
    LaneRun(w, cur[0], rc[k], n, p);
    var w1 := Run(w, g0, p);
    RunKeeps(w, g0, cur, p);
    LaneRun(w1, cur[1], rc[k + 1], n + 4, p);
    var w2 := Run(w1, g1, p);
    RunKeeps(w1, g1, [cur[2], n + 3, n + 3], p);
    LaneRun(w2, cur[2], rc[k + 2], n + 8, p);
    RunKeeps(w2, g2, [n + 3, n + 7, n + 7], p);
    RunConcat(w, g0, g1, p);
    RunConcat(w, g0 + g1, g2, p);
    LanesThree(cur, rc, k, n);
  }

  lemma LanesThree(cur: seq<nat>, rc: seq<int>, k: nat, n: nat)
    requires |cur| == 3 && k + 3 <= |rc|
    ensures LanesGates(cur, rc, k, n, 3) ==
            LaneGates(cur[0], rc[k], n) + LaneGates(cur[1], rc[k + 1], n + 4) + LaneGates(cur[2], rc[k + 2], n + 8)
  {
    hide LaneGates;
    assert LanesGates(cur, rc, k, n, 0) == [];
    assert LanesGates(cur, rc, k, n, 1) == [] + LaneGates(cur[0], rc[k], n);
    assert LanesGates(cur, rc, k, n, 2) == LanesGates(cur, rc, k, n, 1) + LaneGates(cur[1], rc[k + 1], n + 4);
  }

  lemma MixTermsValue(w: seq<int>, u: seq<nat>, m: seq<int>, p: Modulus)
    requires WiresBelow(u, |w|) && |m| == 3
    ensures Below(MixTerms(u, m), |w|) && FormValue(MixTerms(u, m), w) % p == Dot3(m, StateAt(w, u), p)
  {
    var f := MixTerms(u, m);
    var last: seq<Term> := [f[2]];
    assert f[1..] == [f[1], f[2]] && f[1..][1..] == last && last[1..] == [];
    assert FormValue(last, w) == m[2] * w[u[2]];
    assert FormValue(f[1..], w) == m[1] * w[u[1]] + m[2] * w[u[2]];
  }

  /** One mix row more. */
  lemma MixRowRun(w: seq<int>, u: seq<nat>, m: seq<int>, p: Modulus)
    requires WiresBelow(u, |w|) && |m| == 3
    ensures Ordered([Linear(MixTerms(u, m))], |w|)
    ensures Run(w, [Linear(MixTerms(u, m))], p) == w + [Dot3(m, StateAt(w, u), p)]
  {
    hide MixTerms, Dot3;
    MixTermsValue(w, u, m, p);
    var g := Linear(MixTerms(u, m));
    assert GateWithin(g, |w|);
    RunOne(w, g, p);
  }

  /** The three mix rows of a full round. */
  lemma MixRun(w: seq<int>, u: seq<nat>, M: seq<seq<int>>, p: Modulus)
    requires WiresBelow(u, |w|) && IsTable(M)
    ensures Ordered(MixGates(u, M, 3), |w|)
    ensures var s := Mix(M, StateAt(w, u), p); Run(w, MixGates(u, M, 3), p) == w + [s.s0, s.s1, s.s2]
  {
    hide Dot3, MixTerms, Ordered, Run, MixGates;
    MixThree(u, M);
    ThreeRows(w, u, u, u, M, p);
    var s := Mix(M, StateAt(w, u), p);
    assert StateAt(w + [s.s0], u) == StateAt(w, u) && StateAt(w + [s.s0] + [s.s1], u) == StateAt(w, u);
    assert w + [s.s0] + [s.s1] + [s.s2] == w + [s.s0, s.s1, s.s2];
  }

  lemma MixThree(u: seq<nat>, M: seq<seq<int>>)
    requires |u| == 3 && IsTable(M)
    ensures MixGates(u, M, 3) ==
            [Linear(MixTerms(u, M[0]))] + [Linear(MixTerms(u, M[1]))] + [Linear(MixTerms(u, M[2]))]
  {
    hide MixTerms;
    assert MixGates(u, M, 0) == [];
    assert MixGates(u, M, 1) == [] + [Linear(MixTerms(u, M[0]))];
    assert MixGates(u, M, 2) == MixGates(u, M, 1) + [Linear(MixTerms(u, M[1]))];
  }

  /** Three rows in sequence, each reading its own wires. */
  lemma ThreeRows(w: seq<int>, u0: seq<nat>, u1: seq<nat>, u2: seq<nat>, M: seq<seq<int>>, p: Modulus)
    requires IsTable(M) && WiresBelow(u0, |w|) && WiresBelow(u1, |w| + 1) && WiresBelow(u2, |w| + 2)
    ensures var g := [Linear(MixTerms(u0, M[0]))] + [Linear(MixTerms(u1, M[1]))] + [Linear(MixTerms(u2, M[2]))];
            var w1 := w + [Dot3(M[0], StateAt(w, u0), p)];
            var w2 := w1 + [Dot3(M[1], StateAt(w1, u1), p)];
            Ordered(g, |w|) && Run(w, g, p) == w2 + [Dot3(M[2], StateAt(w2, u2), p)]
  {
    hide Dot3, MixTerms, Run, Ordered;
    var w1 := w + [Dot3(M[0], StateAt(w, u0), p)];
    var w2 := w1 + [Dot3(M[1], StateAt(w1, u1), p)];
    MixRowRun(w, u0, M[0], p);
    MixRowRun(w1, u1, M[1], p);
    MixRowRun(w2, u2, M[2], p);
    var g0, g1, g2 := [Linear(MixTerms(u0, M[0]))], [Linear(MixTerms(u1, M[1]))], [Linear(MixTerms(u2, M[2]))];
    RunConcat(w, g0, g1, p);
    RunConcat(w, g0 + g1, g2, p);
  }

  /** A full round of gates computes a full round of the reference. */
  lemma FullRun(w: seq<int>, cur: seq<nat>, rc: seq<int>, k: nat, M: seq<seq<int>>, n: nat, p: Modulus)
    requires n == |w| && n > 0 && w[0] == 1 && WiresBelow(cur, n) && k + 3 <= |rc| && IsTable(M)
    ensures Ordered(FullGates(cur, rc, k, M, n), n)
    ensures StateAt(Run(w, FullGates(cur, rc, k, M, n), p), [n + 12, n + 13, n + 14]) ==
            FullRound(StateAt(w, cur), rc[k], rc[k + 1], rc[k + 2], M, p)
  {
    hide Sbox, Run, Ordered, LanesGates, MixGates, Dot3;
    var u := [n + 3, n + 7, n + 11];
    LanesRun(w, cur, rc, k, n, p);
    var w1 := Run(w, LanesGates(cur, rc, k, n, 3), p);
    MixRun(w1, u, M, p);
    RunConcat(w, LanesGates(cur, rc, k, n, 3), MixGates(u, M, 3), p);
  }

  /** The mix the partial rounds of the gadget really apply: the third row reads the new lane 1, so
      the second row of M is folded into it. */
  function InPlaceMix(M: seq<seq<int>>): (L: seq<seq<int>>)
    requires IsTable(M)
    ensures IsTable(L)
  {
    [M[0], M[1], [M[2][0] + M[2][1] * M[1][0], M[2][1] * M[1][1], M[2][2] + M[2][1] * M[1][2]]]
  }

  lemma InPlaceRow(M: seq<seq<int>>, s: State3, v: int, p: Modulus)
    requires IsTable(M) && v == Dot3(M[1], s, p)
    ensures Dot3(M[2], State3(s.s0, v, s.s2), p) == Dot3(InPlaceMix(M)[2], s, p)
  {
    hide Cong;
    var a, b := M[1], M[2];
    var d := a[0] * s.s0 + a[1] * s.s1 + a[2] * s.s2;
    CongMod(d, p);
    CongRefl(b[1], p);
    CongMul(b[1], b[1], v, d, p);
    var e := b[0] * s.s0 + b[2] * s.s2;
    CongRefl(e, p);
    CongAdd(e, e, b[1] * v, b[1] * d, p);
    InPlaceIdentity(a[0], a[1], a[2], b[0], b[1], b[2], s);
    CongToMod(e + b[1] * v, e + b[1] * d, p);
  }

  lemma InPlaceIdentity(a0: int, a1: int, a2: int, b0: int, b1: int, b2: int, s: State3)
    ensures b0 * s.s0 + b2 * s.s2 + b1 * (a0 * s.s0 + a1 * s.s1 + a2 * s.s2) ==
            (b0 + b1 * a0) * s.s0 + b1 * a1 * s.s1 + (b2 + b1 * a2) * s.s2
  {
    var x, y, z := a0 * s.s0, a1 * s.s1, a2 * s.s2;
    assert b1 * (x + y + z) == b1 * x + b1 * y + b1 * z;
    assert b1 * x == b1 * a0 * s.s0 && b1 * y == b1 * a1 * s.s1 && b1 * z == b1 * a2 * s.s2;
  }

  /** A partial round of gates computes a partial round with the in-place mix. */
  lemma PartialRun(w: seq<int>, cur: seq<nat>, c: int, M: seq<seq<int>>, n: nat, p: Modulus)
    requires n == |w| && n > 0 && w[0] == 1 && WiresBelow(cur, n) && IsTable(M)
    ensures Ordered(PartialGates(cur, c, M, n), n)
    ensures StateAt(Run(w, PartialGates(cur, c, M, n), p), [n + 4, n + 5, n + 6]) ==
            PartialRound(StateAt(w, cur), c, InPlaceMix(M), p)
  {
    hide Sbox, Run, Ordered, LaneGates, PartialMixGates, Dot3, MixTerms;
    LaneRun(w, cur[0], c, n, p);
    var lane := LaneGates(cur[0], c, n);
    var w1 := Run(w, lane, p);
    RunKeeps(w, lane, cur, p);
    var u, u2 := [n + 3, cur[1], cur[2]], [n + 3, n + 5, cur[2]];
    PartialThree(n + 3, cur, M, n + 4);
    ThreeRows(w1, u, u, u2, M, p);
    RunConcat(w, lane, PartialMixGates(n + 3, cur, M, n + 4, 3), p);
    var s := StateAt(w1, u);
    InPlaceRow(M, s, Dot3(M[1], s, p), p);
  }

  lemma PartialThree(sb: nat, cur: seq<nat>, M: seq<seq<int>>, n: nat)
    requires |cur| == 3 && IsTable(M)
    ensures PartialMixGates(sb, cur, M, n, 3) ==
            [Linear(MixTerms([sb, cur[1], cur[2]], M[0]))] + [Linear(MixTerms([sb, cur[1], cur[2]], M[1]))]
            + [Linear(MixTerms([sb, n + 1, cur[2]], M[2]))]
  {
    hide MixTerms;
    assert PartialMixGates(sb, cur, M, n, 0) == [];
    assert PartialMixGates(sb, cur, M, n, 1) == [] + [Linear(MixTerms([sb, cur[1], cur[2]], M[0]))];
    assert PartialMixGates(sb, cur, M, n, 2) ==
           PartialMixGates(sb, cur, M, n, 1) + [Linear(MixTerms([sb, cur[1], cur[2]], M[1]))];
  }

  lemma {:induction false} FullRoundsRun(w: seq<int>, cur: seq<nat>, rc: seq<int>, k: nat, M: seq<seq<int>>, n: nat, r: nat, p: Modulus)
    requires n == |w| && n > 0 && w[0] == 1 && WiresBelow(cur, n) && k + 3 * r <= |rc| && IsTable(M)
    ensures Ordered(FullRoundsGates(cur, rc, k, M, n, r), n) && WiresBelow(FullWires(cur, n, r), n + 15 * r)
    ensures StateAt(Run(w, FullRoundsGates(cur, rc, k, M, n, r), p), FullWires(cur, n, r)) ==
            FullRounds(StateAt(w, cur), rc, k, r, M, p)
    decreases r
  {
    hide Run, Ordered, FullGates, FullRound;
    if r == 0 {
      NoGates(w, p);
    } else {
      var m, v := n + 15 * (r - 1), FullWires(cur, n, r - 1);
      FullRoundsRun(w, cur, rc, k, M, n, r - 1, p);
      var g, h := FullRoundsGates(cur, rc, k, M, n, r - 1), FullGates(v, rc, k + 3 * (r - 1), M, m);
      RunKeeps(w, g, cur, p);
      FullRun(Run(w, g, p), v, rc, k + 3 * (r - 1), M, m, p);
      RunConcat(w, g, h, p);
    }
  }

  lemma NoGates(w: seq<int>, p: Modulus)
    ensures Ordered([], |w|) && Run(w, [], p) == w
  {
  }

  lemma {:induction false} PartialRoundsRun(w: seq<int>, cur: seq<nat>, rc: seq<int>, k: nat, M: seq<seq<int>>, n: nat, r: nat, p: Modulus)
    requires n == |w| && n > 0 && w[0] == 1 && WiresBelow(cur, n) && k + r <= |rc| && IsTable(M)
    ensures Ordered(PartialRoundsGates(cur, rc, k, M, n, r), n) && WiresBelow(PartialWires(cur, n, r), n + 7 * r)
    ensures StateAt(Run(w, PartialRoundsGates(cur, rc, k, M, n, r), p), PartialWires(cur, n, r)) ==
            PartialRounds(StateAt(w, cur), rc, k, r, InPlaceMix(M), p)
    decreases r
  {
    hide Run, Ordered, PartialGates, PartialRound, InPlaceMix;
    if r == 0 {
      NoGates(w, p);
    } else {
      var m, v := n + 7 * (r - 1), PartialWires(cur, n, r - 1);
      PartialRoundsRun(w, cur, rc, k, M, n, r - 1, p);
      var g, h := PartialRoundsGates(cur, rc, k, M, n, r - 1), PartialGates(v, rc[k + r - 1], M, m);
      RunKeeps(w, g, cur, p);
      PartialRun(Run(w, g, p), v, rc[k + r - 1], M, m, p);
      RunConcat(w, g, h, p);
    }
  }

  // ------------------------------------------------------------ the whole gadget

  /** The wire of lane 0 at the end. */
  function OutputWire(cur: seq<nat>, n: nat, rf: nat, rp: nat): nat
    requires |cur| == 3
  {
    var c1 := FullWires(cur, n, rf);
    var c2 := PartialWires(c1, n + 15 * rf, rp);
    FullWires(c2, n + 15 * rf + 7 * rp, rf)[0]
  }

  function GadgetGates(cur: seq<nat>, rc: seq<int>, M: seq<seq<int>>, n: nat, rf: nat, rp: nat): (g: seq<Gate>)
    requires |cur| == 3 && 6 * rf + rp <= |rc| && IsTable(M)
    ensures |g| == 30 * rf + 7 * rp
  {
    var c1 := FullWires(cur, n, rf);
    var c2 := PartialWires(c1, n + 15 * rf, rp);
    FullRoundsGates(cur, rc, 0, M, n, rf)
    + PartialRoundsGates(c1, rc, 3 * rf, M, n + 15 * rf, rp)
    + FullRoundsGates(c2, rc, 3 * rf + rp, M, n + 15 * rf + 7 * rp, rf)
  }

  /** The run of the gadget ends in the permutation with the in-place partial mix. */
  lemma GadgetRun(w: seq<int>, cur: seq<nat>, rc: seq<int>, M: seq<seq<int>>, n: nat, rf: nat, rp: nat, p: Modulus)
    requires n == |w| && n > 0 && w[0] == 1 && WiresBelow(cur, n) && 6 * rf + rp <= |rc| && IsTable(M)
    ensures Ordered(GadgetGates(cur, rc, M, n, rf, rp), n) && OutputWire(cur, n, rf, rp) < n + 30 * rf + 7 * rp
    ensures Run(w, GadgetGates(cur, rc, M, n, rf, rp), p)[OutputWire(cur, n, rf, rp)] ==
            PermuteWith(StateAt(w, cur), rc, rf, rp, M, InPlaceMix(M), p).s0
  {
    hide Run, Ordered, FullRoundsGates, PartialRoundsGates, InPlaceMix, FullWires, PartialWires, FullRounds, PartialRounds;
    var c1 := FullWires(cur, n, rf);
    var c2 := PartialWires(c1, n + 15 * rf, rp);
    var g1 := FullRoundsGates(cur, rc, 0, M, n, rf);
    var g2 := PartialRoundsGates(c1, rc, 3 * rf, M, n + 15 * rf, rp);
    var g3 := FullRoundsGates(c2, rc, 3 * rf + rp, M, n + 15 * rf + 7 * rp, rf);
    FullRoundsRun(w, cur, rc, 0, M, n, rf, p);
    var w1 := Run(w, g1, p);
    RunKeeps(w, g1, cur, p);
    PartialRoundsRun(w1, c1, rc, 3 * rf, M, n + 15 * rf, rp, p);
    var w2 := Run(w1, g2, p);
    RunKeeps(w1, g2, c1, p);
    FullRoundsRun(w2, c2, rc, 3 * rf + rp, M, n + 15 * rf + 7 * rp, rf, p);
    RunConcat(w, g1, g2, p);
    RunConcat(w, g1 + g2, g3, p);
  }
}
