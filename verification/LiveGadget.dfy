/** The gadget in use: constants travel on wires of their own, products and sums of the mix on
    theirs. Its rows say nothing about the constant wires. */
module LiveGadget {
  import opened Congruence
  import opened R1cs
  import opened ConstraintBuilder
  import opened ConstraintLists
  import opened Poseidon
  import opened PoseidonGadget

  /** The rows of gates whose first wire is n. */
  function GateRows(g: seq<Gate>, n: nat): (ks: seq<Constraint>)
    ensures |ks| == |g|
  {
    seq(|g|, i requires 0 <= i < |g| => ConstraintOf(g[i], n + i))
  }

  lemma GateRowsHold(g: seq<Gate>, n: nat, z: seq<int>, p: Modulus)
    ensures ListHolds(GateRows(g, n), z, p) <==> AllHold(g, n, z, p)
  {
    hide Holds, ConstraintOf;
    var ks := GateRows(g, n);
    if AllHold(g, n, z, p) {
      forall t | 0 <= t < |ks| ensures Holds(ks[t], z, p) { assert Holds(ConstraintOf(g[t], n + t), z, p); }
    }
    if ListHolds(ks, z, p) {
      forall t | 0 <= t < |g| ensures Holds(ConstraintOf(g[t], n + t), z, p) { assert Holds(ks[t], z, p); }
    }
  }

  /** What holds of an assignment holds of its extensions. */
  lemma ListExtends(ks: seq<Constraint>, z: seq<int>, y: seq<int>, p: Modulus)
    requires ListHolds(ks, z, p) && |z| <= |y| && y[..|z|] == z
    ensures ListHolds(ks, y, p)
  {
    forall t | 0 <= t < |ks| ensures Holds(ks[t], y, p) { HoldsPrefix(ks[t], z, y, p); }
  }

  // -------------------------------------------------------------- the circuit

  /** One lane after its constant wire n: the sum, then the fifth power on wire n + 4. */
  function LiveLane(cur: nat, n: nat): (g: seq<Gate>)
    ensures |g| == 4
  {
    [Linear([(cur, 1), (n, 1)])] + SboxGates(n + 1, n + 2)
  }

  /** One output of the mix: three scaled wires and their sum on wire n + 3. */
  function MixCell(u: seq<nat>, m: seq<int>, n: nat): (g: seq<Gate>)
    requires |u| == 3 && |m| == 3
    ensures |g| == 4
  {
    [Linear([(u[0], m[0])])] + [Linear([(u[1], m[1])])] + [Linear([(u[2], m[2])])] + [Linear([(n, 1), (n + 1, 1), (n + 2, 1)])]
  }

  function LiveMix(u: seq<nat>, M: seq<seq<int>>, n: nat): (g: seq<Gate>)
    requires |u| == 3 && IsTable(M)
    ensures |g| == 12
  {
    MixCell(u, M[0], n) + MixCell(u, M[1], n + 4) + MixCell(u, M[2], n + 8)
  }

  function LaneRows(cur: nat, n: nat): (ks: seq<Constraint>)
    ensures |ks| == 4
  {
    GateRows(LiveLane(cur, n), n + 1)
  }

  function FullRows(cur: seq<nat>, M: seq<seq<int>>, n: nat): (ks: seq<Constraint>)
    requires |cur| == 3 && IsTable(M)
    ensures |ks| == 24
  {
    LaneRows(cur[0], n) + LaneRows(cur[1], n + 5) + LaneRows(cur[2], n + 10)
    + GateRows(LiveMix([n + 4, n + 9, n + 14], M, n + 15), n + 15)
  }

  function PartialRows(cur: seq<nat>, M: seq<seq<int>>, n: nat): (ks: seq<Constraint>)
    requires |cur| == 3 && IsTable(M)
    ensures |ks| == 16
  {
    LaneRows(cur[0], n) + GateRows(LiveMix([n + 4, cur[1], cur[2]], M, n + 5), n + 5)
  }

  /** The state wires after r full rounds that started at wire n, 27 wires a round. */
  function LiveFullWires(cur: seq<nat>, n: nat, r: nat): (c: seq<nat>)
    requires |cur| == 3
    ensures |c| == 3
  {
    if r == 0 then cur else var m := n + 27 * (r - 1); [m + 18, m + 22, m + 26]
  }

  /** After r partial rounds, 17 wires a round. */
  function LivePartialWires(cur: seq<nat>, n: nat, r: nat): (c: seq<nat>)
    requires |cur| == 3
    ensures |c| == 3
  {
    if r == 0 then cur else var m := n + 17 * (r - 1); [m + 8, m + 12, m + 16]
  }

  function FullRoundsLiveRows(cur: seq<nat>, M: seq<seq<int>>, n: nat, r: nat): (ks: seq<Constraint>)
    requires |cur| == 3 && IsTable(M)
    ensures |ks| == 24 * r
  {
    if r == 0 then []
    else FullRoundsLiveRows(cur, M, n, r - 1) + FullRows(LiveFullWires(cur, n, r - 1), M, n + 27 * (r - 1))
  }

  function PartialRoundsLiveRows(cur: seq<nat>, M: seq<seq<int>>, n: nat, r: nat): (ks: seq<Constraint>)
    requires |cur| == 3 && IsTable(M)
    ensures |ks| == 16 * r
  {
    if r == 0 then []
    else PartialRoundsLiveRows(cur, M, n, r - 1) + PartialRows(LivePartialWires(cur, n, r - 1), M, n + 17 * (r - 1))
  }

  /** The rows mention no round constant. */
  function LiveRows(cur: seq<nat>, M: seq<seq<int>>, n: nat, rf: nat, rp: nat): (ks: seq<Constraint>)
    requires |cur| == 3 && IsTable(M)
    ensures |ks| == 48 * rf + 16 * rp
  {
    var c1 := LiveFullWires(cur, n, rf);
    var c2 := LivePartialWires(c1, n + 27 * rf, rp);
    FullRoundsLiveRows(cur, M, n, rf) + PartialRoundsLiveRows(c1, M, n + 27 * rf, rp)
    + FullRoundsLiveRows(c2, M, n + 27 * rf + 17 * rp, rf)
  }

  function LiveOutput(cur: seq<nat>, n: nat, rf: nat, rp: nat): nat
    requires |cur| == 3
  {
    var c1 := LiveFullWires(cur, n, rf);
    var c2 := LivePartialWires(c1, n + 27 * rf, rp);
    LiveFullWires(c2, n + 27 * rf + 17 * rp, rf)[0]
  }

  // -------------------------------------------------------- runs of the pieces

  lemma LiveLaneRun(w: seq<int>, cur: nat, n: nat, p: Modulus)
    requires |w| == n + 1 && cur < n
    ensures Ordered(LiveLane(cur, n), n + 1)
    ensures Run(w, LiveLane(cur, n), p)[n + 4] == Sbox((w[cur] + w[n]) % p, p)
  {
    hide Sbox, Run;
    var f: seq<Term> := [(cur, 1), (n, 1)];
    assert f[1..] == [f[1]] && f[1..][1..] == [];
    assert FormValue(f[1..], w) == w[n];
    var t := (w[cur] + w[n]) % p;
    assert GateWithin(Linear(f), n + 1) && GateValue(Linear(f), w, p) == t;
    SboxRun(w + [t], n + 1, p);
    RunFirst(w, Linear(f), SboxGates(n + 1, n + 2), p);
  }

  lemma ScaledWire(w: seq<int>, i: nat, m: int, p: Modulus)
    requires i < |w|
    ensures Ordered([Linear([(i, m)])], |w|) && Run(w, [Linear([(i, m)])], p) == w + [m * w[i] % p]
  {
    var f: seq<Term> := [(i, m)];
    assert f[1..] == [];
    assert FormValue(f, w) == m * w[i];
    assert GateWithin(Linear(f), |w|);
    RunOne(w, Linear(f), p);
  }

  lemma SumWire(w: seq<int>, n: nat, p: Modulus)
    requires n + 2 < |w|
    ensures var g := [Linear([(n, 1), (n + 1, 1), (n + 2, 1)])];
            Ordered(g, |w|) && Run(w, g, p) == w + [(w[n] + w[n + 1] + w[n + 2]) % p]
  {
    var f: seq<Term> := [(n, 1), (n + 1, 1), (n + 2, 1)];
    assert f[1..] == [f[1], f[2]] && f[1..][1..] == [f[2]] && f[1..][1..][1..] == [];
    assert FormValue(f[1..][1..], w) == w[n + 2];
    assert FormValue(f[1..], w) == w[n + 1] + w[n + 2];
    assert GateWithin(Linear(f), |w|);
    RunOne(w, Linear(f), p);
  }

  lemma SumOfResidues(a: int, b: int, c: int, p: Modulus)
    ensures (a % p + b % p + c % p) % p == (a + b + c) % p
  {
    hide Cong;
    CongMod(a, p);
    CongMod(b, p);
    CongMod(c, p);
    CongAdd(a % p, a, b % p, b, p);
    CongAdd(a % p + b % p, a + b, c % p, c, p);
    CongToMod(a % p + b % p + c % p, a + b + c, p);
  }

  /** The four wires of one output of the mix. */
  lemma MixCellRun(w: seq<int>, u: seq<nat>, m: seq<int>, n: nat, p: Modulus)
    requires |w| == n && WiresBelow(u, n) && |m| == 3
    ensures Ordered(MixCell(u, m, n), n) && Run(w, MixCell(u, m, n), p)[n + 3] == Dot3(m, StateAt(w, u), p)
  {
    hide Run, Ordered;
    var g0, g1, g2, g3 := [Linear([(u[0], m[0])])], [Linear([(u[1], m[1])])], [Linear([(u[2], m[2])])], [Linear([(n, 1), (n + 1, 1), (n + 2, 1)])];
    var w1 := w + [m[0] * w[u[0]] % p];
    var w2 := w1 + [m[1] * w[u[1]] % p];
    var w3 := w2 + [m[2] * w[u[2]] % p];
    ScaledWire(w, u[0], m[0], p);
    ScaledWire(w1, u[1], m[1], p);
    ScaledWire(w2, u[2], m[2], p);
    SumWire(w3, n, p);
    RunConcat(w, g0, g1, p);
    RunConcat(w, g0 + g1, g2, p);
    RunConcat(w, g0 + g1 + g2, g3, p);
    SumOfResidues(m[0] * w[u[0]], m[1] * w[u[1]], m[2] * w[u[2]], p);
  }

  lemma LiveMixRun(w: seq<int>, u: seq<nat>, M: seq<seq<int>>, n: nat, p: Modulus)
    requires |w| == n && WiresBelow(u, n) && IsTable(M)
    ensures Ordered(LiveMix(u, M, n), n)
    ensures StateAt(Run(w, LiveMix(u, M, n), p), [n + 3, n + 7, n + 11]) == Mix(M, StateAt(w, u), p)
  {
    hide Run, Ordered, MixCell, Dot3;
    var g0, g1, g2 := MixCell(u, M[0], n), MixCell(u, M[1], n + 4), MixCell(u, M[2], n + 8);
    MixCellRun(w, u, M[0], n, p);
    var w1 := Run(w, g0, p);
    RunKeeps(w, g0, u, p);
    MixCellRun(w1, u, M[1], n + 4, p);
    var w2 := Run(w1, g1, p);
    RunKeeps(w1, g1, u, p);
    RunKeeps(w1, g1, [n + 3, n + 3, n + 3], p);
    MixCellRun(w2, u, M[2], n + 8, p);
    RunKeeps(w2, g2, [n + 3, n + 7, n + 7], p);
    RunConcat(w, g0, g1, p);
    RunConcat(w, g0 + g1, g2, p);
  }

  // ------------------------------------------------------------- soundness

  ghost predicate StateCong(s: State3, t: State3, p: Modulus) {
    Cong(s.s0, t.s0, p) && Cong(s.s1, t.s1, p) && Cong(s.s2, t.s2, p)
  }

  /** Forced wires: the run from the first n wires, on the wires of g. */
  lemma WireForced(g: seq<Gate>, n: nat, z: seq<int>, i: nat, p: Modulus)
    requires Ordered(g, n) && 0 < n <= i < n + |g| <= |z| && Cong(z[0], 1, p) && ListHolds(GateRows(g, n), z, p)
    ensures Cong(z[i], Run(z[..n], g, p)[i], p)
  {
    hide Cong, Run, Ordered, ListHolds, GateRows, AllHold;
    GateRowsHold(g, n, z, p);
    RowsForce(g, n, z, p);
  }

  lemma LaneForced(z: seq<int>, cur: nat, n: nat, p: Modulus)
    requires cur < n && n + 5 <= |z| && Cong(z[0], 1, p) && ListHolds(LaneRows(cur, n), z, p)
    ensures Cong(z[n + 4], Sbox((z[cur] + z[n]) % p, p), p)
  {
    hide Cong, Run, Ordered, ListHolds, GateRows, LiveLane, Sbox;
    LiveLaneRun(z[..n + 1], cur, n, p);
    WireForced(LiveLane(cur, n), n + 1, z, n + 4, p);
  }

  lemma MixForced(z: seq<int>, u: seq<nat>, M: seq<seq<int>>, n: nat, p: Modulus)
    requires WiresBelow(u, n) && IsTable(M) && n + 12 <= |z| && Cong(z[0], 1, p)
    requires ListHolds(GateRows(LiveMix(u, M, n), n), z, p)
    ensures StateCong(StateAt(z, [n + 3, n + 7, n + 11]), Mix(M, StateAt(z, u), p), p)
  {
    hide Cong, Run, Ordered, ListHolds, GateRows, LiveMix, Mix;
    LiveMixRun(z[..n], u, M, n, p);
    var g := LiveMix(u, M, n);
    WireForced(g, n, z, n + 3, p);
    WireForced(g, n, z, n + 7, p);
    WireForced(g, n, z, n + 11, p);
    assert StateAt(z[..n], u) == StateAt(z, u);
  }

  /** The mix sees only residues. */
  lemma MixCong(M: seq<seq<int>>, s: State3, t: State3, p: Modulus)
    requires IsTable(M) && StateCong(s, t, p)
    ensures Mix(M, s, p) == Mix(M, t, p)
  {
    hide Cong, Dot3;
    DotCong(M[0], s, t, p);
    DotCong(M[1], s, t, p);
    DotCong(M[2], s, t, p);
  }

  lemma DotCong(m: seq<int>, s: State3, t: State3, p: Modulus)
    requires |m| == 3 && StateCong(s, t, p)
    ensures Dot3(m, s, p) == Dot3(m, t, p)
  {
    hide Cong;
    CongRefl(m[0], p);
    CongRefl(m[1], p);
    CongRefl(m[2], p);
    CongMul(m[0], m[0], s.s0, t.s0, p);
    CongMul(m[1], m[1], s.s1, t.s1, p);
    CongMul(m[2], m[2], s.s2, t.s2, p);
    CongAdd(m[0] * s.s0, m[0] * t.s0, m[1] * s.s1, m[1] * t.s1, p);
    CongAdd(m[0] * s.s0 + m[1] * s.s1, m[0] * t.s0 + m[1] * t.s1, m[2] * s.s2, m[2] * t.s2, p);
    CongToMod(m[0] * s.s0 + m[1] * s.s1 + m[2] * s.s2, m[0] * t.s0 + m[1] * t.s1 + m[2] * t.s2, p);
  }

  lemma ShiftResidue(a: int, b: int, c: int, d: int, p: Modulus)
    requires Cong(a, b, p) && Cong(c, d, p)
    ensures (a + c) % p == (b + d) % p
  {
    hide Cong;
    CongAdd(a, b, c, d, p);
    CongToMod(a + c, b + d, p);
  }

  /** Rounds see only residues, of the state and of the constants. */
  lemma FullRoundCong(s: State3, t: State3, c0: int, c1: int, c2: int, d0: int, d1: int, d2: int, M: seq<seq<int>>, p: Modulus)
    requires IsTable(M) && StateCong(s, t, p) && Cong(c0, d0, p) && Cong(c1, d1, p) && Cong(c2, d2, p)
    ensures FullRound(s, c0, c1, c2, M, p) == FullRound(t, d0, d1, d2, M, p)
  {
    hide Cong, Sbox, Mix;
    ShiftResidue(s.s0, t.s0, c0, d0, p);
    ShiftResidue(s.s1, t.s1, c1, d1, p);
    ShiftResidue(s.s2, t.s2, c2, d2, p);
  }

  lemma PartialRoundCong(s: State3, t: State3, c: int, d: int, M: seq<seq<int>>, p: Modulus)
    requires IsTable(M) && StateCong(s, t, p) && Cong(c, d, p)
    ensures PartialRound(s, c, M, p) == PartialRound(t, d, M, p)
  {
    hide Cong, Sbox, Mix;
    ShiftResidue(s.s0, t.s0, c, d, p);
    var x := Sbox((s.s0 + c) % p, p);
    CongRefl(x, p);
    MixCong(M, State3(x, s.s1, s.s2), State3(x, t.s1, t.s2), p);
  }

  lemma FullForced(z: seq<int>, cur: seq<nat>, M: seq<seq<int>>, n: nat, p: Modulus)
    requires WiresBelow(cur, n) && IsTable(M) && n + 27 <= |z| && Cong(z[0], 1, p) && ListHolds(FullRows(cur, M, n), z, p)
    ensures StateCong(StateAt(z, [n + 18, n + 22, n + 26]), FullRound(StateAt(z, cur), z[n], z[n + 5], z[n + 10], M, p), p)
  {
    hide Cong, ListHolds, GateRows, LaneRows, LiveMix, Mix, Sbox;
    var u := [n + 4, n + 9, n + 14];
    var k0, k1, k2, k3 := LaneRows(cur[0], n), LaneRows(cur[1], n + 5), LaneRows(cur[2], n + 10), GateRows(LiveMix(u, M, n + 15), n + 15);
    ListConcat(k0 + k1 + k2, k3, z, p);
    ListConcat(k0 + k1, k2, z, p);
    ListConcat(k0, k1, z, p);
    LaneForced(z, cur[0], n, p);
    LaneForced(z, cur[1], n + 5, p);
    LaneForced(z, cur[2], n + 10, p);
    MixForced(z, u, M, n + 15, p);
    var s := StateAt(z, cur);
    var boxed := State3(Sbox((s.s0 + z[n]) % p, p), Sbox((s.s1 + z[n + 5]) % p, p), Sbox((s.s2 + z[n + 10]) % p, p));
    MixCong(M, StateAt(z, u), boxed, p);
  }

  lemma PartialForced(z: seq<int>, cur: seq<nat>, M: seq<seq<int>>, n: nat, p: Modulus)
    requires WiresBelow(cur, n) && IsTable(M) && n + 17 <= |z| && Cong(z[0], 1, p) && ListHolds(PartialRows(cur, M, n), z, p)
    ensures StateCong(StateAt(z, [n + 8, n + 12, n + 16]), PartialRound(StateAt(z, cur), z[n], M, p), p)
  {
    hide Cong, ListHolds, GateRows, LaneRows, LiveMix, Mix, Sbox;
    var u := [n + 4, cur[1], cur[2]];
    ListConcat(LaneRows(cur[0], n), GateRows(LiveMix(u, M, n + 5), n + 5), z, p);
    LaneForced(z, cur[0], n, p);
    MixForced(z, u, M, n + 5, p);
    var s := StateAt(z, cur);
    CongRefl(s.s1, p);
    CongRefl(s.s2, p);
    MixCong(M, StateAt(z, u), State3(Sbox((s.s0 + z[n]) % p, p), s.s1, s.s2), p);
  }

  /** What the constant wires of r full rounds carry, in the order of consumption. */
  function FullConstants(z: seq<int>, n: nat, r: nat): (c: seq<int>)
    requires n + 27 * r <= |z|
    ensures |c| == 3 * r
  {
    if r == 0 then [] else var m := n + 27 * (r - 1); FullConstants(z, n, r - 1) + [z[m], z[m + 5], z[m + 10]]
  }

  function PartialConstants(z: seq<int>, n: nat, r: nat): (c: seq<int>)
    requires n + 17 * r <= |z|
    ensures |c| == r
  {
    if r == 0 then [] else PartialConstants(z, n, r - 1) + [z[n + 17 * (r - 1)]]
  }

  function ConstantsAt(z: seq<int>, n: nat, rf: nat, rp: nat): (c: seq<int>)
    requires n + 54 * rf + 17 * rp <= |z|
    ensures |c| == 6 * rf + rp
  {
    FullConstants(z, n, rf) + PartialConstants(z, n + 27 * rf, rp) + FullConstants(z, n + 27 * rf + 17 * rp, rf)
  }

  /** Constants equal modulo p. */
  ghost predicate SameConstants(c: seq<int>, d: seq<int>, p: Modulus) {
    |c| == |d| && forall i :: 0 <= i < |c| ==> Cong(c[i], d[i], p)
  }

  lemma {:induction false} FullRoundsForced(z: seq<int>, cur: seq<nat>, s: State3, rc: seq<int>, k: nat, M: seq<seq<int>>, n: nat, r: nat, p: Modulus)
    requires WiresBelow(cur, n) && IsTable(M) && n > 0 && n + 27 * r <= |z| && Cong(z[0], 1, p) && k + 3 * r <= |rc|
    requires ListHolds(FullRoundsLiveRows(cur, M, n, r), z, p) && StateCong(StateAt(z, cur), s, p)
    requires SameConstants(FullConstants(z, n, r), rc[k..k + 3 * r], p)
    ensures WiresBelow(LiveFullWires(cur, n, r), n + 27 * r)
    ensures StateCong(StateAt(z, LiveFullWires(cur, n, r)), FullRounds(s, rc, k, r, M, p), p)
    decreases r
  {
    hide Cong, ListHolds, FullRows, FullRound, SameConstants, StateCong;
    if r > 0 {
      var m, v, j := n + 27 * (r - 1), LiveFullWires(cur, n, r - 1), k + 3 * (r - 1);
      ListConcat(FullRoundsLiveRows(cur, M, n, r - 1), FullRows(v, M, m), z, p);
      var d := [z[m], z[m + 5], z[m + 10]];
      LastConstants(FullConstants(z, n, r - 1), d, rc, k, j, p);
      assert Cong(d[0], rc[j + 0], p) && Cong(d[1], rc[j + 1], p) && Cong(d[2], rc[j + 2], p);
      FullRoundsForced(z, cur, s, rc, k, M, n, r - 1, p);
      FullForced(z, v, M, m, p);
      assert LiveFullWires(cur, n, r) == [m + 18, m + 22, m + 26];
      FullRoundCong(StateAt(z, v), FullRounds(s, rc, k, r - 1, M, p), z[m], z[m + 5], z[m + 10], rc[j], rc[j + 1], rc[j + 2], M, p);
    }
  }

  lemma LastConstants(c: seq<int>, d: seq<int>, rc: seq<int>, k: nat, j: nat, p: Modulus)
    requires j == k + |c| && j + |d| <= |rc| && SameConstants(c + d, rc[k..j + |d|], p)
    ensures SameConstants(c, rc[k..j], p) && forall i :: 0 <= i < |d| ==> Cong(d[i], rc[j + i], p)
  {
    hide Cong;
    var e, f := c + d, rc[k..j + |d|];
    forall i | 0 <= i < |c| ensures Cong(c[i], rc[k..j][i], p) { assert Cong(e[i], f[i], p); }
    forall i | 0 <= i < |d| ensures Cong(d[i], rc[j + i], p) { assert Cong(e[|c| + i], f[|c| + i], p); }
  }

  lemma {:induction false} PartialRoundsForced(z: seq<int>, cur: seq<nat>, s: State3, rc: seq<int>, k: nat, M: seq<seq<int>>, n: nat, r: nat, p: Modulus)
    requires WiresBelow(cur, n) && IsTable(M) && n > 0 && n + 17 * r <= |z| && Cong(z[0], 1, p) && k + r <= |rc|
    requires ListHolds(PartialRoundsLiveRows(cur, M, n, r), z, p) && StateCong(StateAt(z, cur), s, p)
    requires SameConstants(PartialConstants(z, n, r), rc[k..k + r], p)
    ensures WiresBelow(LivePartialWires(cur, n, r), n + 17 * r)
    ensures StateCong(StateAt(z, LivePartialWires(cur, n, r)), PartialRounds(s, rc, k, r, M, p), p)
    decreases r
  {
    hide Cong, ListHolds, PartialRows, PartialRound, SameConstants, StateCong;
    if r > 0 {
      var m, v, j := n + 17 * (r - 1), LivePartialWires(cur, n, r - 1), k + (r - 1);
      ListConcat(PartialRoundsLiveRows(cur, M, n, r - 1), PartialRows(v, M, m), z, p);
      LastConstants(PartialConstants(z, n, r - 1), [z[m]], rc, k, j, p);
      assert Cong([z[m]][0], rc[j + 0], p);
      PartialRoundsForced(z, cur, s, rc, k, M, n, r - 1, p);
      PartialForced(z, v, M, m, p);
      assert LivePartialWires(cur, n, r) == [m + 8, m + 12, m + 16];
      PartialRoundCong(StateAt(z, v), PartialRounds(s, rc, k, r - 1, M, p), z[m], rc[j], M, p);
    }
  }

  lemma SameSplit(a: seq<int>, b: seq<int>, c: seq<int>, rc: seq<int>, p: Modulus)
    requires |a| + |b| + |c| <= |rc| && SameConstants(a + b + c, rc[..|a| + |b| + |c|], p)
    ensures SameConstants(a, rc[0..0 + |a|], p) && SameConstants(b, rc[|a|..|a| + |b|], p)
    ensures SameConstants(c, rc[|a| + |b|..|a| + |b| + |c|], p)
  {
    hide Cong;
    var e, f := a + b + c, rc[..|a| + |b| + |c|];
    forall i | 0 <= i < |a| ensures Cong(a[i], rc[0..0 + |a|][i], p) { assert Cong(e[i], f[i], p); }
    forall i | 0 <= i < |b| ensures Cong(b[i], rc[|a|..|a| + |b|][i], p) { assert Cong(e[|a| + i], f[|a| + i], p); }
    forall i | 0 <= i < |c| ensures Cong(c[i], rc[|a| + |b|..|a| + |b| + |c|][i], p) {
      assert Cong(e[|a| + |b| + i], f[|a| + |b| + i], p);
    }
  }

  /** Any assignment that satisfies the rows and whose constant wires carry rc has on its output wire
      lane 0 of the reference permutation of its three input wires. */
  lemma LiveSound(z: seq<int>, cur: seq<nat>, rc: seq<int>, M: seq<seq<int>>, n: nat, rf: nat, rp: nat, p: Modulus)
    requires WiresBelow(cur, n) && IsTable(M) && n > 0 && n + 54 * rf + 17 * rp <= |z| && Cong(z[0], 1, p)
    requires 6 * rf + rp <= |rc| && SameConstants(ConstantsAt(z, n, rf, rp), rc[..6 * rf + rp], p)
    requires ListHolds(LiveRows(cur, M, n, rf, rp), z, p)
    ensures LiveOutput(cur, n, rf, rp) < n + 54 * rf + 17 * rp
    ensures Cong(z[LiveOutput(cur, n, rf, rp)], Permute(StateAt(z, cur), rc, rf, rp, M, p).s0, p)
  {
    hide Cong, ListHolds, FullRoundsLiveRows, PartialRoundsLiveRows, LiveFullWires, LivePartialWires;
    hide FullRounds, PartialRounds, FullConstants, PartialConstants, SameConstants;
    var c1 := LiveFullWires(cur, n, rf);
    var n1 := n + 27 * rf;
    var c2 := LivePartialWires(c1, n1, rp);
    var n2 := n1 + 17 * rp;
    ListConcat(FullRoundsLiveRows(cur, M, n, rf) + PartialRoundsLiveRows(c1, M, n1, rp), FullRoundsLiveRows(c2, M, n2, rf), z, p);
    ListConcat(FullRoundsLiveRows(cur, M, n, rf), PartialRoundsLiveRows(c1, M, n1, rp), z, p);
    SameSplit(FullConstants(z, n, rf), PartialConstants(z, n1, rp), FullConstants(z, n2, rf), rc, p);
    var s := StateAt(z, cur);
    StateRefl(s, p);
    FullRoundsForced(z, cur, s, rc, 0, M, n, rf, p);
    var s1 := FullRounds(s, rc, 0, rf, M, p);
    PartialRoundsForced(z, c1, s1, rc, 3 * rf, M, n1, rp, p);
    var s2 := PartialRounds(s1, rc, 3 * rf, rp, M, p);
    FullRoundsForced(z, c2, s2, rc, 3 * rf + rp, M, n2, rf, p);
  }

  lemma StateRefl(s: State3, p: Modulus)
    ensures StateCong(s, s, p)
  {
    hide Cong;
    CongRefl(s.s0, p);
    CongRefl(s.s1, p);
    CongRefl(s.s2, p);
  }

  // ---------------------------------------------------------- completeness

  /** A constant wire, then the wires of the lane. */
  function LaneWires(w: seq<int>, cur: nat, c: int, p: Modulus): (v: seq<int>)
    requires cur < |w|
    ensures |v| == |w| + 5 && v[..|w|] == w && v[|w|] == c
  {
    LiveLaneRun(w + [c], cur, |w|, p);
    var v := Run(w + [c], LiveLane(cur, |w|), p);
    assert v[..|w|] == v[..|w| + 1][..|w|] && v[|w|] == v[..|w| + 1][|w|];
    v
  }

  function MixWires(w: seq<int>, u: seq<nat>, M: seq<seq<int>>, p: Modulus): (v: seq<int>)
    requires WiresBelow(u, |w|) && IsTable(M)
    ensures |v| == |w| + 12 && v[..|w|] == w
  {
    LiveMixRun(w, u, M, |w|, p);
    Run(w, LiveMix(u, M, |w|), p)
  }

  function FullWiresOf(w: seq<int>, cur: seq<nat>, c0: int, c1: int, c2: int, M: seq<seq<int>>, p: Modulus): (v: seq<int>)
    requires WiresBelow(cur, |w|) && IsTable(M)
    ensures |v| == |w| + 27 && v[..|w|] == w && v[|w|] == c0 && v[|w| + 5] == c1 && v[|w| + 10] == c2
  {
    var n := |w|;
    var w1 := LaneWires(w, cur[0], c0, p);
    var w2 := LaneWires(w1, cur[1], c1, p);
    var w3 := LaneWires(w2, cur[2], c2, p);
    var v := MixWires(w3, [n + 4, n + 9, n + 14], M, p);
    FullPrefixes(w, w1, w2, w3, v);
    v
  }

  lemma FullPrefixes(w: seq<int>, w1: seq<int>, w2: seq<int>, w3: seq<int>, v: seq<int>)
    requires |w1| == |w| + 5 && |w2| == |w| + 10 && |w3| == |w| + 15 && |v| == |w| + 27
    requires w1[..|w|] == w && w2[..|w1|] == w1 && w3[..|w2|] == w2 && v[..|w3|] == w3
    ensures v[..|w|] == w && v[|w|] == w1[|w|] && v[|w| + 5] == w2[|w| + 5] && v[|w| + 10] == w3[|w| + 10]
    ensures v[..|w1|] == w1 && v[..|w2|] == w2
  {
    assert v[..|w2|] == v[..|w3|][..|w2|] && v[..|w1|] == v[..|w2|][..|w1|] && v[..|w|] == v[..|w1|][..|w|];
    assert v[|w|] == v[..|w1|][|w|] && v[|w| + 5] == v[..|w2|][|w| + 5] && v[|w| + 10] == v[..|w3|][|w| + 10];
  }

  function PartialWiresOf(w: seq<int>, cur: seq<nat>, c: int, M: seq<seq<int>>, p: Modulus): (v: seq<int>)
    requires WiresBelow(cur, |w|) && IsTable(M)
    ensures |v| == |w| + 17 && v[..|w|] == w && v[|w|] == c
  {
    var n := |w|;
    var w1 := LaneWires(w, cur[0], c, p);
    var v := MixWires(w1, [n + 4, cur[1], cur[2]], M, p);
    assert v[..|w|] == v[..|w1|][..|w|] && v[|w|] == v[..|w1|][|w|];
    v
  }

  lemma LaneComplete(w: seq<int>, cur: nat, c: int, p: Modulus)
    requires cur < |w| && Cong(w[0], 1, p)
    ensures ListHolds(LaneRows(cur, |w|), LaneWires(w, cur, c, p), p)
  {
    hide Cong, Run, Ordered, ListHolds, GateRows, LiveLane, AllHold;
    LiveLaneRun(w + [c], cur, |w|, p);
    RunSatisfies(w + [c], LiveLane(cur, |w|), p);
    GateRowsHold(LiveLane(cur, |w|), |w| + 1, LaneWires(w, cur, c, p), p);
  }

  lemma MixComplete(w: seq<int>, u: seq<nat>, M: seq<seq<int>>, p: Modulus)
    requires WiresBelow(u, |w|) && IsTable(M) && Cong(w[0], 1, p)
    ensures ListHolds(GateRows(LiveMix(u, M, |w|), |w|), MixWires(w, u, M, p), p)
  {
    hide Cong, Run, Ordered, ListHolds, GateRows, LiveMix, AllHold;
    LiveMixRun(w, u, M, |w|, p);
    RunSatisfies(w, LiveMix(u, M, |w|), p);
    GateRowsHold(LiveMix(u, M, |w|), |w|, MixWires(w, u, M, p), p);
  }

  lemma FullComplete(w: seq<int>, cur: seq<nat>, c0: int, c1: int, c2: int, M: seq<seq<int>>, p: Modulus)
    requires WiresBelow(cur, |w|) && IsTable(M) && Cong(w[0], 1, p)
    ensures ListHolds(FullRows(cur, M, |w|), FullWiresOf(w, cur, c0, c1, c2, M, p), p)
  {
    hide Cong, ListHolds, GateRows, LaneRows, LiveMix, LaneWires, MixWires;
    var n, u := |w|, [|w| + 4, |w| + 9, |w| + 14];
    var w1 := LaneWires(w, cur[0], c0, p);
    var w2 := LaneWires(w1, cur[1], c1, p);
    var w3 := LaneWires(w2, cur[2], c2, p);
    var v := MixWires(w3, u, M, p);
    FullPrefixes(w, w1, w2, w3, v);
    assert w1[0] == w1[..n][0] && w2[0] == w2[..|w1|][0] && w3[0] == w3[..|w2|][0];
    LaneComplete(w, cur[0], c0, p);
    LaneComplete(w1, cur[1], c1, p);
    LaneComplete(w2, cur[2], c2, p);
    MixComplete(w3, u, M, p);
    var k0, k1, k2, k3 := LaneRows(cur[0], n), LaneRows(cur[1], n + 5), LaneRows(cur[2], n + 10), GateRows(LiveMix(u, M, n + 15), n + 15);
    ListExtends(k0, w1, v, p);
    ListExtends(k1, w2, v, p);
    ListExtends(k2, w3, v, p);
    ListConcat(k0, k1, v, p);
    ListConcat(k0 + k1, k2, v, p);
    ListConcat(k0 + k1 + k2, k3, v, p);
  }

  lemma PartialComplete(w: seq<int>, cur: seq<nat>, c: int, M: seq<seq<int>>, p: Modulus)
    requires WiresBelow(cur, |w|) && IsTable(M) && Cong(w[0], 1, p)
    ensures ListHolds(PartialRows(cur, M, |w|), PartialWiresOf(w, cur, c, M, p), p)
  {
    hide Cong, ListHolds, GateRows, LaneRows, LiveMix, LaneWires, MixWires;
    var n, u := |w|, [|w| + 4, cur[1], cur[2]];
    var w1 := LaneWires(w, cur[0], c, p);
    var v := MixWires(w1, u, M, p);
    assert w1[0] == w1[..n][0];
    LaneComplete(w, cur[0], c, p);
    MixComplete(w1, u, M, p);
    ListExtends(LaneRows(cur[0], n), w1, v, p);
    ListConcat(LaneRows(cur[0], n), GateRows(LiveMix(u, M, n + 5), n + 5), v, p);
  }

  function FullRoundsWires(w: seq<int>, cur: seq<nat>, rc: seq<int>, k: nat, M: seq<seq<int>>, r: nat, p: Modulus): (v: seq<int>)
    requires WiresBelow(cur, |w|) && IsTable(M) && k + 3 * r <= |rc|
    ensures |v| == |w| + 27 * r && v[..|w|] == w
    ensures WiresBelow(LiveFullWires(cur, |w|, r), |v|)
    decreases r
  {
    if r == 0 then w
    else
      var u := FullRoundsWires(w, cur, rc, k, M, r - 1, p);
      var j := k + 3 * (r - 1);
      var v := FullWiresOf(u, LiveFullWires(cur, |w|, r - 1), rc[j], rc[j + 1], rc[j + 2], M, p);
      assert v[..|w|] == v[..|u|][..|w|];
      v
  }

  function PartialRoundsWires(w: seq<int>, cur: seq<nat>, rc: seq<int>, k: nat, M: seq<seq<int>>, r: nat, p: Modulus): (v: seq<int>)
    requires WiresBelow(cur, |w|) && IsTable(M) && k + r <= |rc|
    ensures |v| == |w| + 17 * r && v[..|w|] == w
    ensures WiresBelow(LivePartialWires(cur, |w|, r), |v|)
    decreases r
  {
    if r == 0 then w
    else
      var u := PartialRoundsWires(w, cur, rc, k, M, r - 1, p);
      var v := PartialWiresOf(u, LivePartialWires(cur, |w|, r - 1), rc[k + r - 1], M, p);
      assert v[..|w|] == v[..|u|][..|w|];
      v
  }

  /** The witness the builder computes for the given constants. */
  function LiveWitness(w: seq<int>, cur: seq<nat>, rc: seq<int>, M: seq<seq<int>>, rf: nat, rp: nat, p: Modulus): (v: seq<int>)
    requires WiresBelow(cur, |w|) && IsTable(M) && 6 * rf + rp <= |rc|
    ensures |v| == |w| + 54 * rf + 17 * rp && v[..|w|] == w
  {
    var w1 := FullRoundsWires(w, cur, rc, 0, M, rf, p);
    var c1 := LiveFullWires(cur, |w|, rf);
    var w2 := PartialRoundsWires(w1, c1, rc, 3 * rf, M, rp, p);
    var c2 := LivePartialWires(c1, |w1|, rp);
    var v := FullRoundsWires(w2, c2, rc, 3 * rf + rp, M, rf, p);
    PrefixChain(w, w1, w2, v);
    v
  }

  lemma PrefixChain(w: seq<int>, w1: seq<int>, w2: seq<int>, v: seq<int>)
    requires |w| <= |w1| <= |w2| <= |v| && w1[..|w|] == w && w2[..|w1|] == w1 && v[..|w2|] == w2
    ensures v[..|w|] == w
  {
    assert v[..|w|] == v[..|w2|][..|w1|][..|w|];
  }

  lemma FirstWire(w: seq<int>, v: seq<int>)
    requires w != [] && |w| <= |v| && v[..|w|] == w
    ensures v[0] == w[0]
  {
    assert v[0] == v[..|w|][0];
  }

  lemma {:induction false} FullRoundsComplete(w: seq<int>, cur: seq<nat>, rc: seq<int>, k: nat, M: seq<seq<int>>, r: nat, p: Modulus)
    requires WiresBelow(cur, |w|) && IsTable(M) && k + 3 * r <= |rc| && Cong(w[0], 1, p)
    ensures ListHolds(FullRoundsLiveRows(cur, M, |w|, r), FullRoundsWires(w, cur, rc, k, M, r, p), p)
    decreases r
  {
    hide Cong, ListHolds, FullRows, FullWiresOf, LiveFullWires;
    if r == 0 {
      ListNone(w, p);
    } else {
      var n := |w|;
      FullRoundsComplete(w, cur, rc, k, M, r - 1, p);
      var u, c, j := FullRoundsWires(w, cur, rc, k, M, r - 1, p), LiveFullWires(cur, n, r - 1), k + 3 * (r - 1);
      var v := FullWiresOf(u, c, rc[j], rc[j + 1], rc[j + 2], M, p);
      FirstWire(w, u);
      FullComplete(u, c, rc[j], rc[j + 1], rc[j + 2], M, p);
      ListExtends(FullRoundsLiveRows(cur, M, n, r - 1), u, v, p);
      ListConcat(FullRoundsLiveRows(cur, M, n, r - 1), FullRows(c, M, |u|), v, p);
    }
  }

  lemma {:induction false} FullRoundsCarry(w: seq<int>, cur: seq<nat>, rc: seq<int>, k: nat, M: seq<seq<int>>, r: nat, p: Modulus)
    requires WiresBelow(cur, |w|) && IsTable(M) && k + 3 * r <= |rc|
    ensures FullConstants(FullRoundsWires(w, cur, rc, k, M, r, p), |w|, r) == rc[k..k + 3 * r]
    decreases r
  {
    hide FullWiresOf, LiveFullWires;
    if r > 0 {
      FullRoundsCarry(w, cur, rc, k, M, r - 1, p);
      var u, j := FullRoundsWires(w, cur, rc, k, M, r - 1, p), k + 3 * (r - 1);
      var v := FullWiresOf(u, LiveFullWires(cur, |w|, r - 1), rc[j], rc[j + 1], rc[j + 2], M, p);
      FullConstantsPrefix(u, v, |w|, r - 1);
      ThreeMore(rc, k, j);
    }
  }

  lemma ThreeMore(rc: seq<int>, k: nat, j: nat)
    requires k <= j && j + 3 <= |rc|
    ensures rc[k..j + 3] == rc[k..j] + [rc[j], rc[j + 1], rc[j + 2]]
  {
  }

  lemma {:induction false} FullConstantsPrefix(u: seq<int>, v: seq<int>, n: nat, r: nat)
    requires n + 27 * r <= |u| <= |v| && v[..|u|] == u
    ensures FullConstants(v, n, r) == FullConstants(u, n, r)
  {
    if r > 0 {
      FullConstantsPrefix(u, v, n, r - 1);
      var m := n + 27 * (r - 1);
      assert v[m] == v[..|u|][m] && v[m + 5] == v[..|u|][m + 5] && v[m + 10] == v[..|u|][m + 10];
    }
  }

  lemma {:induction false} PartialRoundsComplete(w: seq<int>, cur: seq<nat>, rc: seq<int>, k: nat, M: seq<seq<int>>, r: nat, p: Modulus)
    requires WiresBelow(cur, |w|) && IsTable(M) && k + r <= |rc| && Cong(w[0], 1, p)
    ensures ListHolds(PartialRoundsLiveRows(cur, M, |w|, r), PartialRoundsWires(w, cur, rc, k, M, r, p), p)
    decreases r
  {
    hide Cong, ListHolds, PartialRows, PartialWiresOf, LivePartialWires;
    if r == 0 {
      ListNone(w, p);
    } else {
      var n := |w|;
      PartialRoundsComplete(w, cur, rc, k, M, r - 1, p);
      var u, c, j := PartialRoundsWires(w, cur, rc, k, M, r - 1, p), LivePartialWires(cur, n, r - 1), k + r - 1;
      var v := PartialWiresOf(u, c, rc[j], M, p);
      FirstWire(w, u);
      PartialComplete(u, c, rc[j], M, p);
      ListExtends(PartialRoundsLiveRows(cur, M, n, r - 1), u, v, p);
      ListConcat(PartialRoundsLiveRows(cur, M, n, r - 1), PartialRows(c, M, |u|), v, p);
    }
  }

  lemma {:induction false} PartialRoundsCarry(w: seq<int>, cur: seq<nat>, rc: seq<int>, k: nat, M: seq<seq<int>>, r: nat, p: Modulus)
    requires WiresBelow(cur, |w|) && IsTable(M) && k + r <= |rc|
    ensures PartialConstants(PartialRoundsWires(w, cur, rc, k, M, r, p), |w|, r) == rc[k..k + r]
    decreases r
  {
    hide PartialWiresOf, LivePartialWires;
    if r > 0 {
      PartialRoundsCarry(w, cur, rc, k, M, r - 1, p);
      var u, j := PartialRoundsWires(w, cur, rc, k, M, r - 1, p), k + r - 1;
      var v := PartialWiresOf(u, LivePartialWires(cur, |w|, r - 1), rc[j], M, p);
      PartialConstantsPrefix(u, v, |w|, r - 1);
      assert rc[k..k + r] == rc[k..j] + [rc[j]];
    }
  }

  lemma {:induction false} PartialConstantsPrefix(u: seq<int>, v: seq<int>, n: nat, r: nat)
    requires n + 17 * r <= |u| <= |v| && v[..|u|] == u
    ensures PartialConstants(v, n, r) == PartialConstants(u, n, r)
  {
    if r > 0 {
      PartialConstantsPrefix(u, v, n, r - 1);
      var m := n + 17 * (r - 1);
      assert v[m] == v[..|u|][m];
    }
  }

  /** For any inputs and any constants whatever the same rows have a satisfying assignment, and its
      output is the permutation with those constants: the rows fix the output only together with
      the constant wires. */
  lemma LiveComplete(w: seq<int>, cur: seq<nat>, rc: seq<int>, M: seq<seq<int>>, rf: nat, rp: nat, p: Modulus)
    requires WiresBelow(cur, |w|) && IsTable(M) && 6 * rf + rp <= |rc| && Cong(w[0], 1, p)
    ensures var n, v := |w|, LiveWitness(w, cur, rc, M, rf, rp, p);
            && ListHolds(LiveRows(cur, M, n, rf, rp), v, p)
            && ConstantsAt(v, n, rf, rp) == rc[..6 * rf + rp]
            && LiveOutput(cur, n, rf, rp) < |v|
            && Cong(v[LiveOutput(cur, n, rf, rp)], Permute(StateAt(w, cur), rc, rf, rp, M, p).s0, p)
  {
    hide Cong, ListHolds, LiveRows, LiveWitness, LiveOutput, ConstantsAt, Permute;
    var n, v := |w|, LiveWitness(w, cur, rc, M, rf, rp, p);
    LiveRowsHold(w, cur, rc, M, rf, rp, p);
    LiveCarries(w, cur, rc, M, rf, rp, p);
    FirstWire(w, v);
    SameRefl(rc[..6 * rf + rp], p);
    LiveSound(v, cur, rc, M, n, rf, rp, p);
    assert StateAt(v, cur) == StateAt(v[..n], cur);
  }

  lemma LiveRowsHold(w: seq<int>, cur: seq<nat>, rc: seq<int>, M: seq<seq<int>>, rf: nat, rp: nat, p: Modulus)
    requires WiresBelow(cur, |w|) && IsTable(M) && 6 * rf + rp <= |rc| && Cong(w[0], 1, p)
    ensures ListHolds(LiveRows(cur, M, |w|, rf, rp), LiveWitness(w, cur, rc, M, rf, rp, p), p)
  {
    hide Cong, ListHolds, FullRoundsLiveRows, PartialRoundsLiveRows, FullRoundsWires, PartialRoundsWires;
    hide LiveFullWires, LivePartialWires;
    var n := |w|;
    var w1, c1 := FullRoundsWires(w, cur, rc, 0, M, rf, p), LiveFullWires(cur, n, rf);
    var w2, c2 := PartialRoundsWires(w1, c1, rc, 3 * rf, M, rp, p), LivePartialWires(c1, |w1|, rp);
    var v := FullRoundsWires(w2, c2, rc, 3 * rf + rp, M, rf, p);
    FirstWire(w, w1);
    FirstWire(w1, w2);
    FullRoundsComplete(w, cur, rc, 0, M, rf, p);
    PartialRoundsComplete(w1, c1, rc, 3 * rf, M, rp, p);
    FullRoundsComplete(w2, c2, rc, 3 * rf + rp, M, rf, p);
    assert v[..|w1|] == v[..|w2|][..|w1|];
    var k1, k2, k3 := FullRoundsLiveRows(cur, M, n, rf), PartialRoundsLiveRows(c1, M, |w1|, rp), FullRoundsLiveRows(c2, M, |w2|, rf);
    ListExtends(k1, w1, v, p);
    ListExtends(k2, w2, v, p);
    ListConcat(k1, k2, v, p);
    ListConcat(k1 + k2, k3, v, p);
  }

  lemma LiveCarries(w: seq<int>, cur: seq<nat>, rc: seq<int>, M: seq<seq<int>>, rf: nat, rp: nat, p: Modulus)
    requires WiresBelow(cur, |w|) && IsTable(M) && 6 * rf + rp <= |rc|
    ensures ConstantsAt(LiveWitness(w, cur, rc, M, rf, rp, p), |w|, rf, rp) == rc[..6 * rf + rp]
  {
    hide FullRoundsWires, PartialRoundsWires, FullConstants, PartialConstants, LiveFullWires, LivePartialWires;
    var n := |w|;
    var w1, c1 := FullRoundsWires(w, cur, rc, 0, M, rf, p), LiveFullWires(cur, n, rf);
    var w2, c2 := PartialRoundsWires(w1, c1, rc, 3 * rf, M, rp, p), LivePartialWires(c1, |w1|, rp);
    var v := FullRoundsWires(w2, c2, rc, 3 * rf + rp, M, rf, p);
    FullRoundsCarry(w, cur, rc, 0, M, rf, p);
    PartialRoundsCarry(w1, c1, rc, 3 * rf, M, rp, p);
    FullRoundsCarry(w2, c2, rc, 3 * rf + rp, M, rf, p);
    assert v[..|w1|] == v[..|w2|][..|w1|];
    FullConstantsPrefix(w1, v, n, rf);
    PartialConstantsPrefix(w2, v, |w1|, rp);
    assert rc[..6 * rf + rp] == rc[0..0 + 3 * rf] + rc[3 * rf..3 * rf + rp] + rc[3 * rf + rp..3 * rf + rp + 3 * rf];
  }

  lemma SameRefl(c: seq<int>, p: Modulus)
    ensures SameConstants(c, c, p)
  {
    hide Cong;
    forall i | 0 <= i < |c| ensures Cong(c[i], c[i], p) { CongRefl(c[i], p); }
  }
}
