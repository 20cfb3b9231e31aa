/** The loops that append the gadget in use, and what they leave behind. */
module LiveBuilder {
  import opened Congruence
  import opened R1cs
  import opened ConstraintBuilder
  import opened ConstraintLists
  import opened GadgetBuilder
  import opened Poseidon
  import opened PoseidonGadget
  import opened LiveGadget

  /** T is S with the rows ks appended and the wires v. */
  ghost predicate Laid(S: System, ks: seq<Constraint>, v: seq<int>, T: System) {
    T == PushList(S, ks).(w := v)
  }

  lemma {:induction false} PushListConcat(S: System, k: seq<Constraint>, l: seq<Constraint>)
    ensures PushList(S, k + l) == PushList(PushList(S, k), l)
    decreases |l|
  {
    hide PushConstraint;
    if l == [] {
      assert k + l == k;
    } else {
      var m := |l| - 1;
      PushListConcat(S, k, l[..m]);
      assert k + l == k + l[..m] + [l[m]] && l == l[..m] + [l[m]];
      PushListSnoc(S, k + l[..m], l[m]);
      PushListSnoc(PushList(S, k), l[..m], l[m]);
    }
  }

  /** Rows do not depend on the wires. */
  lemma {:induction false} PushListWires(S: System, ks: seq<Constraint>, v: seq<int>)
    ensures PushList(S.(w := v), ks) == PushList(S, ks).(w := v)
    decreases |ks|
  {
    if ks != [] { PushListWires(S, ks[..|ks| - 1], v); }
  }

  lemma LaidConcat(S: System, k: seq<Constraint>, v: seq<int>, T: System, l: seq<Constraint>, u: seq<int>, U: System)
    requires Laid(S, k, v, T) && Laid(T, l, u, U)
    ensures Laid(S, k + l, u, U)
  {
    hide PushList;
    PushListConcat(S, k, l);
    PushListWires(PushList(S, k), l, v);
  }

  lemma LaidNothing(S: System)
    ensures Laid(S, [], S.w, S)
  {
  }

  /** A new wire without a row. */
  lemma LaidWire(S: System, v: seq<int>)
    ensures Laid(S, [], v, S.(w := v))
  {
  }

  /** Emitting a circuit lays its rows and its run. */
  lemma {:induction false} EmittedLaid(S: System, g: seq<Gate>, T: System, p: Modulus)
    requires Emitted(S, g, T, p)
    ensures Laid(S, GateRows(g, |S.w|), Run(S.w, g, p), T)
    decreases |g|
  {
    hide EmitGate, Run, PushList, GateRows, Emit, Ordered;
    EmitWires(S, g, p);
    if g == [] {
      EmptyCircuit(S, p);
    } else {
      var m := |g| - 1;
      var init, last := g[..m], g[m];
      assert g == init + [last];
      OrderedSplit(init, last, |S.w|);
      var U := Emit(S, init, p);
      EmitWires(S, init, p);
      EmittedLaid(S, init, U, p);
      EmitConcat(S, init, [last], p);
      EmitOne(U, last, p);
      assert GateRows(g, |S.w|) == GateRows(init, |S.w|) + [ConstraintOf(last, |S.w| + m)] by { GateRowsSnoc(init, last, |S.w|); }
      PushListSnoc(S, GateRows(init, |S.w|), ConstraintOf(last, |S.w| + m));
      EmitGatePushes(U, last, p);
      assert U == PushList(S, GateRows(init, |S.w|)).(w := U.w);
    }
  }

  lemma EmptyCircuit(S: System, p: Modulus)
    ensures Ordered([], |S.w|) && Emit(S, [], p) == S && Run(S.w, [], p) == S.w && GateRows([], |S.w|) == [] && PushList(S, []) == S
  {
  }

  lemma GateRowsSnoc(g: seq<Gate>, h: Gate, n: nat)
    ensures GateRows(g + [h], n) == GateRows(g, n) + [ConstraintOf(h, n + |g|)]
  {
  }

  lemma EmitGatePushes(S: System, g: Gate, p: Modulus)
    requires GateWithin(g, |S.w|)
    ensures var T := EmitGate(S, g, p);
            var U := PushConstraint(S, ConstraintOf(g, |S.w|));
            T.A == U.A && T.B == U.B && T.C == U.C && T.row == U.row
    ensures forall V: System :: S == V.(w := S.w) ==>
              EmitGate(S, g, p) == PushConstraint(V, ConstraintOf(g, |S.w|)).(w := EmitGate(S, g, p).w)
  {
  }

  /** The constant wire, the sum and the fifth power of one lane. */
  method LiveLaneLoop(b: Builder, cur: nat, c: int, p: Modulus) returns (sb: nat)
    requires cur < |b.w|
    modifies b
    ensures Laid(old(b.State()), LaneRows(cur, old(|b.w|)), LaneWires(old(b.w), cur, c, p), b.State())
    ensures sb == old(|b.w|) + 4
  {
    hide Laid, Run, Emit, GateRows, GateWithin, PushList;
    ghost var S := b.State();
    var rcVar := |b.w|;
    b.w := b.w + [c];
    ghost var T := b.State();
    LaidWire(S, T.w);
    LiveLaneRun(T.w, cur, rcVar, p);
    assert Below([(cur, 1), (rcVar, 1)], |b.w|);
    var t := b.DefineLinear([(cur, 1), (rcVar, 1)], p);
    ghost var U := b.State();
    FormOrdered([(cur, 1), (rcVar, 1)], |T.w|);
    EmittedWires(T, [Linear([(cur, 1), (rcVar, 1)])], U, p);
    sb := b.SboxGadget(t, p);
    EmittedConcat(T, [Linear([(cur, 1), (rcVar, 1)])], U, SboxGates(t, t + 1), b.State(), p);
    EmittedLaid(T, LiveLane(cur, rcVar), b.State(), p);
    LaidConcat(S, [], T.w, T, LaneRows(cur, rcVar), Run(T.w, LiveLane(cur, rcVar), p), b.State());
    assert [] + LaneRows(cur, rcVar) == LaneRows(cur, rcVar);
  }

  lemma FormOrdered(f: seq<Term>, n: nat)
    requires Below(f, n)
    ensures Ordered([Linear(f)], n)
  {
  }

  /** The first j scaled wires of a mix output. */
  function ScaledUpTo(u: seq<nat>, m: seq<int>, j: nat): (g: seq<Gate>)
    requires |u| == 3 && |m| == 3 && j <= 3
    ensures |g| == j
  {
    if j == 0 then [] else ScaledUpTo(u, m, j - 1) + [Linear([(u[j - 1], m[j - 1])])]
  }

  lemma ScaledAll(u: seq<nat>, m: seq<int>, n: nat)
    requires |u| == 3 && |m| == 3
    ensures MixCell(u, m, n) == ScaledUpTo(u, m, 3) + [Linear([(n, 1), (n + 1, 1), (n + 2, 1)])]
  {
    assert ScaledUpTo(u, m, 0) == [];
    assert ScaledUpTo(u, m, 1) == [Linear([(u[0], m[0])])];
    assert ScaledUpTo(u, m, 2) == [Linear([(u[0], m[0])])] + [Linear([(u[1], m[1])])];
  }

  /** One output of the mix: a wire and a row per product, then their sum. */
  method MixCellLoop(b: Builder, u: seq<nat>, m: seq<int>, p: Modulus) returns (out: nat)
    requires WiresBelow(u, |b.w|) && |m| == 3
    modifies b
    ensures Emitted(old(b.State()), MixCell(u, m, old(|b.w|)), b.State(), p) && out == old(|b.w|) + 3
  {
    hide Emitted, MixCell;
    ghost var S := b.State();
    var n := |b.w|;
    EmittedNothing(S, p);
    var prods: seq<nat> := [];
    for j := 0 to 3
      invariant Emitted(S, ScaledUpTo(u, m, j), b.State(), p)
      invariant |prods| == j && forall i :: 0 <= i < j ==> prods[i] == n + i
    {
      ghost var T := b.State();
      EmittedWires(S, ScaledUpTo(u, m, j), T, p);
      assert Below([(u[j], m[j])], |b.w|);
      var pv := DefineWire(b, [(u[j], m[j])], p);
      EmittedConcat(S, ScaledUpTo(u, m, j), T, [Linear([(u[j], m[j])])], b.State(), p);
      prods := prods + [pv];
    }
    ghost var T := b.State();
    EmittedWires(S, ScaledUpTo(u, m, 3), T, p);
    var sum: seq<Term> := [(prods[0], 1), (prods[1], 1), (prods[2], 1)];
    assert sum == [(n, 1), (n + 1, 1), (n + 2, 1)];
    out := DefineWire(b, sum, p);
    EmittedConcat(S, ScaledUpTo(u, m, 3), T, [Linear(sum)], b.State(), p);
    ScaledAll(u, m, n);
  }

  method DefineWire(b: Builder, f: seq<Term>, p: Modulus) returns (t: nat)
    requires Below(f, |b.w|)
    modifies b
    ensures Emitted(old(b.State()), [Linear(f)], b.State(), p) && t == old(|b.w|)
  {
    FormOrdered(f, |b.w|);
    t := b.DefineLinear(f, p);
  }

  function MixUpTo(u: seq<nat>, M: seq<seq<int>>, n: nat, i: nat): (g: seq<Gate>)
    requires |u| == 3 && IsTable(M) && i <= 3
    ensures |g| == 4 * i
  {
    if i == 0 then [] else MixUpTo(u, M, n, i - 1) + MixCell(u, M[i - 1], n + 4 * (i - 1))
  }

  lemma MixAll(u: seq<nat>, M: seq<seq<int>>, n: nat)
    requires |u| == 3 && IsTable(M)
    ensures LiveMix(u, M, n) == MixUpTo(u, M, n, 3)
  {
    hide MixCell;
    assert MixUpTo(u, M, n, 0) == [];
    assert MixUpTo(u, M, n, 1) == MixCell(u, M[0], n);
    assert MixUpTo(u, M, n, 2) == MixCell(u, M[0], n) + MixCell(u, M[1], n + 4);
  }

  method LiveMixLoop(b: Builder, u: seq<nat>, M: seq<seq<int>>, p: Modulus) returns (out: seq<nat>)
    requires WiresBelow(u, |b.w|) && IsTable(M)
    modifies b
    ensures Laid(old(b.State()), GateRows(LiveMix(u, M, old(|b.w|)), old(|b.w|)), MixWires(old(b.w), u, M, p), b.State())
    ensures var n := old(|b.w|); out == [n + 3, n + 7, n + 11]
  {
    hide Laid, Emitted, MixCell, LiveMix, GateRows, Run;
    ghost var S := b.State();
    var n := |b.w|;
    EmittedNothing(S, p);
    out := [];
    for i := 0 to 3
      invariant Emitted(S, MixUpTo(u, M, n, i), b.State(), p)
      invariant |out| == i && forall k :: 0 <= k < i ==> out[k] == n + 4 * k + 3
    {
      ghost var T := b.State();
      EmittedWires(S, MixUpTo(u, M, n, i), T, p);
      var ov := MixCellLoop(b, u, M[i], p);
      EmittedConcat(S, MixUpTo(u, M, n, i), T, MixCell(u, M[i], n + 4 * i), b.State(), p);
      out := out + [ov];
    }
    assert out == [n + 3, n + 7, n + 11];
    MixAll(u, M, n);
    EmittedLaid(S, LiveMix(u, M, n), b.State(), p);
  }

  method LiveFullRound(b: Builder, cur: seq<nat>, rc: seq<int>, k: nat, M: seq<seq<int>>, p: Modulus) returns (next: seq<nat>)
    requires WiresBelow(cur, |b.w|) && k + 3 <= |rc| && IsTable(M)
    modifies b
    ensures Laid(old(b.State()), FullRows(cur, M, old(|b.w|)), FullWiresOf(old(b.w), cur, rc[k], rc[k + 1], rc[k + 2], M, p), b.State())
    ensures var n := old(|b.w|); next == [n + 18, n + 22, n + 26]
  {
    hide Laid, LaneRows, GateRows, LiveMix, LaneWires, MixWires;
    ghost var S := b.State();
    ghost var n := |b.w|;
    var sb0 := LiveLaneLoop(b, cur[0], rc[k], p);
    ghost var T1, w1 := b.State(), LaneWires(S.w, cur[0], rc[k], p);
    LaidState(S, LaneRows(cur[0], n), w1, T1);
    var sb1 := LiveLaneLoop(b, cur[1], rc[k + 1], p);
    ghost var T2, w2 := b.State(), LaneWires(w1, cur[1], rc[k + 1], p);
    LaidConcat(S, LaneRows(cur[0], n), w1, T1, LaneRows(cur[1], n + 5), w2, T2);
    LaidState(T1, LaneRows(cur[1], n + 5), w2, T2);
    var sb2 := LiveLaneLoop(b, cur[2], rc[k + 2], p);
    ghost var T3, w3 := b.State(), LaneWires(w2, cur[2], rc[k + 2], p);
    LaidConcat(S, LaneRows(cur[0], n) + LaneRows(cur[1], n + 5), w2, T2, LaneRows(cur[2], n + 10), w3, T3);
    LaidState(T2, LaneRows(cur[2], n + 10), w3, T3);
    next := LiveMixLoop(b, [sb0, sb1, sb2], M, p);
    ghost var u := [n + 4, n + 9, n + 14];
    LaidConcat(S, LaneRows(cur[0], n) + LaneRows(cur[1], n + 5) + LaneRows(cur[2], n + 10), w3, T3,
               GateRows(LiveMix(u, M, n + 15), n + 15), MixWires(w3, u, M, p), b.State());
  }

  lemma LaidState(S: System, ks: seq<Constraint>, v: seq<int>, T: System)
    requires Laid(S, ks, v, T)
    ensures T.w == v && T.row == S.row + |ks|
  {
  }

  method LivePartialRound(b: Builder, cur: seq<nat>, c: int, M: seq<seq<int>>, p: Modulus) returns (next: seq<nat>)
    requires WiresBelow(cur, |b.w|) && IsTable(M)
    modifies b
    ensures Laid(old(b.State()), PartialRows(cur, M, old(|b.w|)), PartialWiresOf(old(b.w), cur, c, M, p), b.State())
    ensures var n := old(|b.w|); next == [n + 8, n + 12, n + 16]
  {
    hide Laid, LaneRows, GateRows, LiveMix, LaneWires, MixWires;
    ghost var S := b.State();
    ghost var n := |b.w|;
    var sb0 := LiveLaneLoop(b, cur[0], c, p);
    ghost var T1, w1 := b.State(), LaneWires(S.w, cur[0], c, p);
    LaidState(S, LaneRows(cur[0], n), w1, T1);
    next := LiveMixLoop(b, [sb0, cur[1], cur[2]], M, p);
    ghost var u := [n + 4, cur[1], cur[2]];
    LaidConcat(S, LaneRows(cur[0], n), w1, T1, GateRows(LiveMix(u, M, n + 5), n + 5), MixWires(w1, u, M, p), b.State());
  }

  method LiveFullRounds(b: Builder, cur: seq<nat>, rc: seq<int>, k: nat, r: nat, M: seq<seq<int>>, p: Modulus)
    returns (next: seq<nat>, idx: nat)
    requires WiresBelow(cur, |b.w|) && k + 3 * r <= |rc| && IsTable(M)
    modifies b
    ensures Laid(old(b.State()), FullRoundsLiveRows(cur, M, old(|b.w|), r), FullRoundsWires(old(b.w), cur, rc, k, M, r, p), b.State())
    ensures next == LiveFullWires(cur, old(|b.w|), r) && idx == k + 3 * r
  {
    hide Laid, FullRows, FullWiresOf;
    ghost var S := b.State();
    ghost var n := |b.w|;
    LaidNothing(S);
    next, idx := cur, k;
    for i := 0 to r
      invariant Laid(S, FullRoundsLiveRows(cur, M, n, i), FullRoundsWires(S.w, cur, rc, k, M, i, p), b.State())
      invariant next == LiveFullWires(cur, n, i) && idx == k + 3 * i
    {
      ghost var T, v := b.State(), FullRoundsWires(S.w, cur, rc, k, M, i, p);
      LaidState(S, FullRoundsLiveRows(cur, M, n, i), v, T);
      ghost var c := next;
      next := LiveFullRound(b, next, rc, idx, M, p);
      LaidConcat(S, FullRoundsLiveRows(cur, M, n, i), v, T, FullRows(c, M, n + 27 * i),
                 FullWiresOf(v, c, rc[idx], rc[idx + 1], rc[idx + 2], M, p), b.State());
      idx := idx + 3;
    }
  }

  method LivePartialRounds(b: Builder, cur: seq<nat>, rc: seq<int>, k: nat, r: nat, M: seq<seq<int>>, p: Modulus)
    returns (next: seq<nat>, idx: nat)
    requires WiresBelow(cur, |b.w|) && k + r <= |rc| && IsTable(M)
    modifies b
    ensures Laid(old(b.State()), PartialRoundsLiveRows(cur, M, old(|b.w|), r), PartialRoundsWires(old(b.w), cur, rc, k, M, r, p), b.State())
    ensures next == LivePartialWires(cur, old(|b.w|), r) && idx == k + r
  {
    hide Laid, PartialRows, PartialWiresOf;
    ghost var S := b.State();
    ghost var n := |b.w|;
    LaidNothing(S);
    next, idx := cur, k;
    for i := 0 to r
      invariant Laid(S, PartialRoundsLiveRows(cur, M, n, i), PartialRoundsWires(S.w, cur, rc, k, M, i, p), b.State())
      invariant next == LivePartialWires(cur, n, i) && idx == k + i
    {
      ghost var T, v := b.State(), PartialRoundsWires(S.w, cur, rc, k, M, i, p);
      LaidState(S, PartialRoundsLiveRows(cur, M, n, i), v, T);
      ghost var c := next;
      next := LivePartialRound(b, next, rc[idx], M, p);
      LaidConcat(S, PartialRoundsLiveRows(cur, M, n, i), v, T, PartialRows(c, M, n + 17 * i),
                 PartialWiresOf(v, c, rc[idx], M, p), b.State());
      idx := idx + 1;
    }
  }

  /** Appends the whole gadget: 48*rf + 16*rp rows, none of which mentions a round constant, and the
      witness for the given constants. */
  method Build(b: Builder, s0: nat, s1: nat, s2: nat, rc: seq<int>, M: seq<seq<int>>, rf: nat, rp: nat, p: Modulus)
    returns (outputVar: nat, nRows: nat, nVars: nat)
    requires s0 < |b.w| && s1 < |b.w| && s2 < |b.w| && b.w[0] == 1
    requires 6 * rf + rp <= |rc| && IsTable(M) && Appendable(b.State().(row := |b.A.row|))
    modifies b
    ensures nRows == b.row == old(|b.A.row|) + 48 * rf + 16 * rp
    ensures nVars == |b.w| && b.w == LiveWitness(old(b.w), [s0, s1, s2], rc, M, rf, rp, p)
    ensures outputVar == LiveOutput([s0, s1, s2], old(|b.w|), rf, rp) < |b.w|
    ensures Appendable(b.State())
    ensures forall i :: 0 <= i < old(|b.A.row|) ==> RowOf(b.State(), i) == old(RowOf(b.State(), i))
    ensures RowsHold(b.State(), old(|b.A.row|), b.row, b.w, p)
    ensures Cong(b.w[outputVar], Permute(StateAt(old(b.w), [s0, s1, s2]), rc, rf, rp, M, p).s0, p)
    ensures forall z: seq<int> :: RowsHold(b.State(), old(|b.A.row|), b.row, z, p) <==>
              ListHolds(LiveRows([s0, s1, s2], M, old(|b.w|), rf, rp), z, p)
  {
    hide Laid, RowsHold, ListHolds, Cong, RowOf, Appendable, Permute, ConstantsAt;
    hide FullRoundsLiveRows, PartialRoundsLiveRows, FullRoundsWires, PartialRoundsWires, LiveFullWires, LivePartialWires;
    ghost var before := b.State();
    AppendableAligned(before.(row := |b.A.row|));
    b.row := |b.A.row|;
    ghost var S := b.State();
    ghost var n, cur0 := |b.w|, [s0, s1, s2];
    var cur, k := LiveFullRounds(b, [s0, s1, s2], rc, 0, rf, M, p);
    ghost var T1, c1, w1 := b.State(), cur, FullRoundsWires(S.w, cur0, rc, 0, M, rf, p);
    ghost var k1 := FullRoundsLiveRows(cur0, M, n, rf);
    LaidState(S, k1, w1, T1);
    cur, k := LivePartialRounds(b, cur, rc, k, rp, M, p);
    ghost var T2, c2, w2 := b.State(), cur, PartialRoundsWires(w1, c1, rc, 3 * rf, M, rp, p);
    ghost var k2 := PartialRoundsLiveRows(c1, M, |w1|, rp);
    LaidState(T1, k2, w2, T2);
    LaidConcat(S, k1, w1, T1, k2, w2, T2);
    cur, k := LiveFullRounds(b, cur, rc, k, rf, M, p);
    ghost var T, w3 := b.State(), FullRoundsWires(w2, c2, rc, 3 * rf + rp, M, rf, p);
    ghost var k3 := FullRoundsLiveRows(c2, M, |w2|, rf);
    LaidState(T2, k3, w3, T);
    LaidConcat(S, k1 + k2, w2, T2, k3, w3, T);
    outputVar, nRows, nVars := cur[0], b.row, |b.w|;
    CongRefl(1, p);
    LiveComplete(S.w, cur0, rc, M, rf, rp, p);
    SameMatrices(before, S);
    AppendableWires(before.(row := |before.A.row|), S);
    LaidReport(S, LiveRows(cur0, M, n, rf, rp), w3, T, p);
  }

  /** Appended rows hold of an assignment exactly when their list does. */
  lemma LaidReport(S: System, ks: seq<Constraint>, v: seq<int>, T: System, p: Modulus)
    requires Appendable(S) && Laid(S, ks, v, T)
    ensures Appendable(T) && T.row == S.row + |ks|
    ensures forall i :: 0 <= i < S.row ==> RowOf(T, i) == RowOf(S, i)
    ensures forall z: seq<int> :: RowsHold(T, S.row, T.row, z, p) <==> ListHolds(ks, z, p)
  {
    hide PushList, ListHolds;
    PushListRows(S, ks);
    var U := PushList(S, ks);
    assert forall i: nat :: RowOf(T, i) == RowOf(U, i);
    forall z: seq<int> ensures RowsHold(T, S.row, T.row, z, p) <==> ListHolds(ks, z, p) {
      ListRows(S, ks, z, p);
    }
  }
}
