/** The loops that append the permutation to a constraint system, proved to emit the circuit of
    PoseidonGadget, and what the appended rows say. */
module GadgetBuilder {
  import opened Congruence
  import opened R1cs
  import opened ConstraintBuilder
  import opened Poseidon
  import opened PoseidonGadget

  /** T is S after emitting the circuit g. */
  ghost predicate Emitted(S: System, g: seq<Gate>, T: System, p: Modulus) {
    Ordered(g, |S.w|) && T == Emit(S, g, p)
  }

  lemma EmittedConcat(S: System, g: seq<Gate>, T: System, h: seq<Gate>, U: System, p: Modulus)
    requires Emitted(S, g, T, p) && Emitted(T, h, U, p)
    ensures Emitted(S, g + h, U, p)
  {
    EmitConcat(S, g, h, p);
  }

  lemma {:induction false} EmitWires(S: System, g: seq<Gate>, p: Modulus)
    requires Ordered(g, |S.w|)
    ensures Emit(S, g, p).w == Run(S.w, g, p)
    decreases |g|
  {
    hide EmitGate;
    if g != [] {
      OrderedTail(g, |S.w|);
      EmitGateWires(S, g[0], p);
      EmitWires(EmitGate(S, g[0], p), g[1..], p);
    }
  }

  lemma EmittedWires(S: System, g: seq<Gate>, T: System, p: Modulus)
    requires Emitted(S, g, T, p)
    ensures |T.w| == |S.w| + |g| && T.w[..|S.w|] == S.w
    ensures S.w != [] ==> T.w[0] == S.w[0]
  {
    hide Emit, Run;
    EmitWires(S, g, p);
    assert S.w != [] ==> T.w[0] == T.w[..|S.w|][0];
  }

  lemma EmittedNothing(S: System, p: Modulus)
    ensures Emitted(S, [], S, p)
  {
  }

  /** The constant and the fifth power of one lane. */
  method Lane(b: Builder, cur: nat, c: int, p: Modulus) returns (sb: nat)
    requires cur < |b.w| && b.w[0] == 1
    modifies b
    ensures Emitted(old(b.State()), LaneGates(cur, c, old(|b.w|)), b.State(), p)
    ensures sb == old(|b.w|) + 3
  {
    hide Emit, GateWithin;
    ghost var S := b.State();
    LaneOrdered(cur, c, |S.w|);
    var t := b.Ark(cur, c, p);
    ghost var T := b.State();
    assert Emitted(S, [Linear([(cur, 1), (0, c)])], T, p) by {
      OrderedSplit([], Linear([(cur, 1), (0, c)]), |S.w|) by { ArkOrdered(cur, c, |S.w|); }
    }
    EmittedWires(S, [Linear([(cur, 1), (0, c)])], T, p);
    sb := b.SboxGadget(t, p);
    EmittedConcat(S, [Linear([(cur, 1), (0, c)])], T, SboxGates(t, t + 1), b.State(), p);
  }

  lemma ArkOrdered(cur: nat, c: int, n: nat)
    requires cur < n
    ensures Ordered([] + [Linear([(cur, 1), (0, c)])], n)
  {
  }

  /** One full round; returns the wires of the new state. */
  method FullRoundRows(b: Builder, cur: seq<nat>, rc: seq<int>, k: nat, M: seq<seq<int>>, p: Modulus) returns (next: seq<nat>)
    requires WiresBelow(cur, |b.w|) && b.w[0] == 1 && k + 3 <= |rc| && IsTable(M)
    modifies b
    ensures Emitted(old(b.State()), FullGates(cur, rc, k, M, old(|b.w|)), b.State(), p)
    ensures var n := old(|b.w|); next == [n + 12, n + 13, n + 14]
  {
    hide Emitted, LaneGates, MixTerms;
    ghost var S := b.State();
    var n := |b.w|;
    EmittedNothing(S, p);
    var sb: seq<nat> := [];
    for lane := 0 to 3
      invariant Emitted(S, LanesGates(cur, rc, k, n, lane), b.State(), p)
      invariant |sb| == lane && forall j :: 0 <= j < lane ==> sb[j] == n + 4 * j + 3
    {
      ghost var T := b.State();
      EmittedWires(S, LanesGates(cur, rc, k, n, lane), T, p);
      var out := Lane(b, cur[lane], rc[k + lane], p);
      EmittedConcat(S, LanesGates(cur, rc, k, n, lane), T, LaneGates(cur[lane], rc[k + lane], n + 4 * lane), b.State(), p);
      sb := sb + [out];
    }
    assert sb == [n + 3, n + 7, n + 11];
    ghost var T := b.State();
    ghost var lanes := LanesGates(cur, rc, k, n, 3);
    EmittedWires(S, lanes, T, p);
    EmittedNothing(T, p);
    next := cur;
    for i := 0 to 3
      invariant Emitted(T, MixGates(sb, M, i), b.State(), p)
      invariant |next| == 3 && forall j :: 0 <= j < i ==> next[j] == n + 12 + j
    {
      ghost var U := b.State();
      EmittedWires(T, MixGates(sb, M, i), U, p);
      var t := MixRow(b, sb, M[i], p);
      EmittedConcat(T, MixGates(sb, M, i), U, [Linear(MixTerms(sb, M[i]))], b.State(), p);
      next := next[i := t];
    }
    assert next == [n + 12, n + 13, n + 14];
    EmittedConcat(S, lanes, T, MixGates(sb, M, 3), b.State(), p);
  }

  /** One mix row: accumulate the value, push the wire, push the row. */
  method MixRow(b: Builder, u: seq<nat>, m: seq<int>, p: Modulus) returns (t: nat)
    requires WiresBelow(u, |b.w|) && |m| == 3
    modifies b
    ensures Emitted(old(b.State()), [Linear(MixTerms(u, m))], b.State(), p)
    ensures t == old(|b.w|)
  {
    MixTermsValue(b.w, u, m, p);
    t := b.DefineLinear(MixTerms(u, m), p);
  }

  /** One partial round; cur is overwritten while its lanes are still being read. */
  method PartialRoundRows(b: Builder, cur: seq<nat>, c: int, M: seq<seq<int>>, p: Modulus) returns (next: seq<nat>)
    requires WiresBelow(cur, |b.w|) && b.w[0] == 1 && IsTable(M)
    modifies b
    ensures Emitted(old(b.State()), PartialGates(cur, c, M, old(|b.w|)), b.State(), p)
    ensures var n := old(|b.w|); next == [n + 4, n + 5, n + 6]
  {
    hide Emitted, LaneGates, MixTerms;
    ghost var S := b.State();
    var n := |b.w|;
    var sb := Lane(b, cur[0], c, p);
    ghost var T := b.State();
    EmittedWires(S, LaneGates(cur[0], c, n), T, p);
    EmittedNothing(T, p);
    next := cur;
    assert next == Overwritten(cur, n + 4, 0);
    for i := 0 to 3
      invariant Emitted(T, PartialMixGates(sb, cur, M, n + 4, i), b.State(), p)
      invariant next == Overwritten(cur, n + 4, i)
    {
      ghost var U := b.State();
      EmittedWires(T, PartialMixGates(sb, cur, M, n + 4, i), U, p);
      var t := MixRow(b, [sb, next[1], next[2]], M[i], p);
      EmittedConcat(T, PartialMixGates(sb, cur, M, n + 4, i), U, [Linear(MixTerms([sb, next[1], next[2]], M[i]))], b.State(), p);
      next := next[i := t];
      assert next == Overwritten(cur, n + 4, i + 1);
    }
    assert next == [n + 4, n + 5, n + 6];
    EmittedConcat(S, LaneGates(cur[0], c, n), T, PartialMixGates(sb, cur, M, n + 4, 3), b.State(), p);
  }

  method FullRoundsRows(b: Builder, cur: seq<nat>, rc: seq<int>, k: nat, r: nat, M: seq<seq<int>>, p: Modulus)
    returns (next: seq<nat>, idx: nat)
    requires WiresBelow(cur, |b.w|) && b.w[0] == 1 && k + 3 * r <= |rc| && IsTable(M)
    modifies b
    ensures Emitted(old(b.State()), FullRoundsGates(cur, rc, k, M, old(|b.w|), r), b.State(), p)
    ensures next == FullWires(cur, old(|b.w|), r) && idx == k + 3 * r
  {
    hide Emitted, FullGates;
    ghost var S := b.State();
    ghost var n := |b.w|;
    EmittedNothing(S, p);
    next, idx := cur, k;
    for i := 0 to r
      invariant Emitted(S, FullRoundsGates(cur, rc, k, M, n, i), b.State(), p)
      invariant next == FullWires(cur, n, i) && idx == k + 3 * i
    {
      ghost var T := b.State();
      EmittedWires(S, FullRoundsGates(cur, rc, k, M, n, i), T, p);
      next := FullRoundRows(b, next, rc, idx, M, p);
      EmittedConcat(S, FullRoundsGates(cur, rc, k, M, n, i), T,
                    FullGates(FullWires(cur, n, i), rc, k + 3 * i, M, n + 15 * i), b.State(), p);
      idx := idx + 3;
    }
  }

  method PartialRoundsRows(b: Builder, cur: seq<nat>, rc: seq<int>, k: nat, r: nat, M: seq<seq<int>>, p: Modulus)
    returns (next: seq<nat>, idx: nat)
    requires WiresBelow(cur, |b.w|) && b.w[0] == 1 && k + r <= |rc| && IsTable(M)
    modifies b
    ensures Emitted(old(b.State()), PartialRoundsGates(cur, rc, k, M, old(|b.w|), r), b.State(), p)
    ensures next == PartialWires(cur, old(|b.w|), r) && idx == k + r
  {
    hide Emitted, PartialGates;
    ghost var S := b.State();
    ghost var n := |b.w|;
    EmittedNothing(S, p);
    next, idx := cur, k;
    for i := 0 to r
      invariant Emitted(S, PartialRoundsGates(cur, rc, k, M, n, i), b.State(), p)
      invariant next == PartialWires(cur, n, i) && idx == k + i
    {
      ghost var T := b.State();
      EmittedWires(S, PartialRoundsGates(cur, rc, k, M, n, i), T, p);
      next := PartialRoundRows(b, next, rc[idx], M, p);
      EmittedConcat(S, PartialRoundsGates(cur, rc, k, M, n, i), T,
                    PartialGates(PartialWires(cur, n, i), rc[k + i], M, n + 7 * i), b.State(), p);
      idx := idx + 1;
    }
  }

  // ------------------------------------------------------------- the theorem

  /** The rows appended by a circuit hold of z exactly when z continues as the circuit runs. */
  lemma EmittedForces(S: System, g: seq<Gate>, T: System, z: seq<int>, p: Modulus)
    requires Appendable(S) && Emitted(S, g, T, p) && S.w != [] && |T.w| <= |z| && Cong(z[0], 1, p)
    ensures Appendable(T) && T.row == S.row + |g| && |T.w| == |S.w| + |g|
    ensures RowsHold(T, S.row, T.row, z, p) <==> Agree(z, Run(z[..|S.w|], g, p), |S.w|, p)
  {
    hide Emit, Appendable, RowOf, ConstraintOf, Holds, Agree, Run, Cong, Ordered;
    var n := |S.w|;
    EmitRows(S, g, p);
    AppendableAligned(T);
    RowsForce(g, n, z, p);
    if RowsHold(T, S.row, T.row, z, p) {
      forall i | 0 <= i < |g| ensures Holds(ConstraintOf(g[i], n + i), z, p) {
        assert Holds(RowOf(T, S.row + i), z, p);
      }
    }
    if AllHold(g, n, z, p) {
      forall j | S.row <= j < T.row ensures Holds(RowOf(T, j), z, p) {
        var i := j - S.row;
        assert RowOf(T, S.row + i) == ConstraintOf(g[i], n + i);
      }
    }
  }

  /** The witness satisfies every appended row, and every earlier row is the row it was. */
  lemma EmittedComplete(S: System, g: seq<Gate>, T: System, p: Modulus)
    requires Appendable(S) && Emitted(S, g, T, p) && S.w != [] && Cong(S.w[0], 1, p)
    ensures Appendable(T) && T.row == S.row + |g| && RowsHold(T, S.row, T.row, T.w, p)
    ensures forall i :: 0 <= i < S.row ==> RowOf(T, i) == RowOf(S, i)
  {
    hide Emit, Appendable, RowOf, ConstraintOf, Holds, Run, Cong, Ordered;
    var n := |S.w|;
    EmitRows(S, g, p);
    EmitWires(S, g, p);
    AppendableAligned(T);
    AppendableAligned(S);
    RunSatisfies(S.w, g, p);
    forall j | S.row <= j < T.row ensures Holds(RowOf(T, j), T.w, p) {
      var i := j - S.row;
      assert RowOf(T, S.row + i) == ConstraintOf(g[i], n + i);
    }
  }

  /** Any assignment that satisfies the appended rows carries on the output wire lane 0 of the
      permutation, with the in-place partial mix, of its own three input wires. */
  lemma GadgetSound(S: System, cur: seq<nat>, rc: seq<int>, M: seq<seq<int>>, rf: nat, rp: nat, T: System, z: seq<int>, p: Modulus)
    requires WiresBelow(cur, |S.w|) && 6 * rf + rp <= |rc| && IsTable(M) && Appendable(S)
    requires Emitted(S, GadgetGates(cur, rc, M, |S.w|, rf, rp), T, p) && |S.w| <= |T.w|
    requires Appendable(T) && |T.w| <= |z| && z != [] && z[0] == 1 && RowsHold(T, S.row, T.row, z, p)
    ensures OutputWire(cur, |S.w|, rf, rp) < |z|
    ensures WiresBelow(cur, |z|)
    ensures Cong(z[OutputWire(cur, |S.w|, rf, rp)], PermuteWith(StateAt(z, cur), rc, rf, rp, M, InPlaceMix(M), p).s0, p)
  {
    hide Emitted, Appendable, RowsHold, Run, Cong, Ordered, GadgetGates, PermuteWith, InPlaceMix, OutputWire;
    var n, g := |S.w|, GadgetGates(cur, rc, M, |S.w|, rf, rp);
    CongRefl(1, p);
    EmittedForces(S, g, T, z, p);
    var y := z[..n];
    GadgetRun(y, cur, rc, M, n, rf, rp, p);
    assert StateAt(y, cur) == StateAt(z, cur);
    var o := OutputWire(cur, n, rf, rp);
    if o < n {
      RunPrefix(y, g, o, p);
      CongRefl(z[o], p);
    }
  }

  lemma RunPrefix(w: seq<int>, g: seq<Gate>, i: nat, p: Modulus)
    requires Ordered(g, |w|) && i < |w|
    ensures Run(w, g, p)[i] == w[i]
  {
    hide Run;
    assert Run(w, g, p)[..|w|][i] == w[i];
  }

  /** The rounds in order: full, partial, full. */
  method EmitGadget(b: Builder, start: seq<nat>, rc: seq<int>, M: seq<seq<int>>, rf: nat, rp: nat, p: Modulus) returns (outputVar: nat)
    requires WiresBelow(start, |b.w|) && b.w[0] == 1 && 6 * rf + rp <= |rc| && IsTable(M)
    modifies b
    ensures Emitted(old(b.State()), GadgetGates(start, rc, M, old(|b.w|), rf, rp), b.State(), p)
    ensures outputVar == OutputWire(start, old(|b.w|), rf, rp)
  {
    hide Emitted, FullRoundsGates, PartialRoundsGates;
    ghost var S := b.State();
    ghost var n := |b.w|;
    var cur, k := FullRoundsRows(b, start, rc, 0, rf, M, p);
    ghost var T1, c1 := b.State(), cur;
    ghost var g1 := FullRoundsGates(start, rc, 0, M, n, rf);
    EmittedWires(S, g1, T1, p);
    cur, k := PartialRoundsRows(b, cur, rc, k, rp, M, p);
    ghost var T2, c2 := b.State(), cur;
    ghost var g2 := PartialRoundsGates(c1, rc, 3 * rf, M, n + 15 * rf, rp);
    EmittedWires(T1, g2, T2, p);
    EmittedConcat(S, g1, T1, g2, T2, p);
    cur, k := FullRoundsRows(b, cur, rc, k, rf, M, p);
    ghost var g3 := FullRoundsGates(c2, rc, 3 * rf + rp, M, n + 15 * rf + 7 * rp, rf);
    EmittedConcat(S, g1 + g2, T2, g3, b.State(), p);
    outputVar := cur[0];
  }

  /** Continue from the rows already in A, append the whole permutation, and report the output wire,
      the row count and the wire count. */
  method Poseidon3R1cs(b: Builder, s0: nat, s1: nat, s2: nat, rc: seq<int>, M: seq<seq<int>>, rf: nat, rp: nat, p: Modulus)
    returns (outputVar: nat, nConstraints: nat, nVars: nat)
    requires s0 < |b.w| && s1 < |b.w| && s2 < |b.w| && b.w[0] == 1
    requires 6 * rf + rp <= |rc| && IsTable(M)
    requires Appendable(b.State().(row := |b.A.row|))
    modifies b
    ensures nConstraints == b.row == old(|b.A.row|) + 30 * rf + 7 * rp
    ensures nVars == |b.w| == old(|b.w|) + 30 * rf + 7 * rp
    ensures outputVar < |b.w| && b.w[..old(|b.w|)] == old(b.w)
    ensures Appendable(b.State())
    // earlier rows are untouched
    ensures forall i :: 0 <= i < old(|b.A.row|) ==> RowOf(b.State(), i) == old(RowOf(b.State(), i))
    // completeness
    ensures RowsHold(b.State(), old(|b.A.row|), b.row, b.w, p)
    // soundness, for any assignment at all
    ensures forall z: seq<int> :: |b.w| <= |z| && z[0] == 1 && RowsHold(b.State(), old(|b.A.row|), b.row, z, p) ==>
              Cong(z[outputVar], PermuteWith(StateAt(z, [s0, s1, s2]), rc, rf, rp, M, InPlaceMix(M), p).s0, p)
  {
    hide Emitted, RowsHold, Cong, Holds, RowForm, GadgetGates, OutputWire, PermuteWith, InPlaceMix;
    AppendableAligned(b.State().(row := |b.A.row|));
    b.row := |b.A.row|;
    ghost var S := b.State();
    var o := EmitGadget(b, [s0, s1, s2], rc, M, rf, rp, p);
    outputVar, nConstraints, nVars := o, b.row, |b.w|;
    GadgetReport(S, [s0, s1, s2], rc, M, rf, rp, b.State(), p);
  }

  /** Everything the gadget promises about the system it leaves. */
  lemma GadgetReport(S: System, cur: seq<nat>, rc: seq<int>, M: seq<seq<int>>, rf: nat, rp: nat, T: System, p: Modulus)
    requires WiresBelow(cur, |S.w|) && S.w[0] == 1 && 6 * rf + rp <= |rc| && IsTable(M) && Appendable(S)
    requires Emitted(S, GadgetGates(cur, rc, M, |S.w|, rf, rp), T, p)
    ensures Appendable(T) && T.row == S.row + 30 * rf + 7 * rp && |T.w| == |S.w| + 30 * rf + 7 * rp
    ensures OutputWire(cur, |S.w|, rf, rp) < |T.w| && T.w[..|S.w|] == S.w
    ensures forall i :: 0 <= i < S.row ==> RowOf(T, i) == RowOf(S, i)
    ensures RowsHold(T, S.row, T.row, T.w, p)
    ensures forall z: seq<int> :: |T.w| <= |z| && z[0] == 1 && RowsHold(T, S.row, T.row, z, p) ==>
              Cong(z[OutputWire(cur, |S.w|, rf, rp)], PermuteWith(StateAt(z, cur), rc, rf, rp, M, InPlaceMix(M), p).s0, p)
  {
    hide Emitted, RowsHold, Cong, RowOf, Appendable, GadgetGates, PermuteWith, InPlaceMix, OutputWire;
    CongRefl(1, p);
    EmittedComplete(S, GadgetGates(cur, rc, M, |S.w|, rf, rp), T, p);
    EmittedWires(S, GadgetGates(cur, rc, M, |S.w|, rf, rp), T, p);
    AppendableAligned(T);
    GadgetRun(S.w, cur, rc, M, |S.w|, rf, rp, p);
    forall z: seq<int> | |T.w| <= |z| && z[0] == 1 && RowsHold(T, S.row, T.row, z, p)
      ensures Cong(z[OutputWire(cur, |S.w|, rf, rp)], PermuteWith(StateAt(z, cur), rc, rf, rp, M, InPlaceMix(M), p).s0, p)
    {
      GadgetSound(S, cur, rc, M, rf, rp, T, z, p);
    }
  }
}
