/** When the rows of the gadget in use force the reference output by themselves, and when not. */
module LiveExact {
  import opened Congruence
  import opened PrimeField
  import opened R1cs
  import opened ConstraintLists
  import opened Poseidon
  import opened PoseidonGadget
  import opened LiveGadget
  import GadgetAgreement
  import MdsMatrix
  import SquareRoot

  /** Every assignment of the gadget's wires that satisfies its rows has the reference output. */
  ghost predicate LiveForces(cur: seq<nat>, rc: seq<int>, M: seq<seq<int>>, n: nat, rf: nat, rp: nat, p: Modulus)
    requires WiresBelow(cur, n) && IsTable(M) && n > 0 && 6 * rf + rp <= |rc|
  {
    forall z: seq<int> :: |z| == n + 54 * rf + 17 * rp && z[0] == 1 && ListHolds(LiveRows(cur, M, n, rf, rp), z, p) ==>
      HasOutput(z, cur, rc, M, n, rf, rp, p)
  }

  /** The output wire carries lane 0 of the reference permutation of the input wires. */
  ghost predicate HasOutput(z: seq<int>, cur: seq<nat>, rc: seq<int>, M: seq<seq<int>>, n: nat, rf: nat, rp: nat, p: Modulus)
    requires WiresBelow(cur, n) && IsTable(M) && n <= |z| && 6 * rf + rp <= |rc|
  {
    && LiveOutput(cur, n, rf, rp) < |z|
    && Cong(z[LiveOutput(cur, n, rf, rp)], Permute(StateAt(z, cur), rc, rf, rp, M, p).s0, p)
  }

  // ------------------------------------------------ the last round's first lane

  /** The constant of lane 0 in the last round. */
  function LastIndex(rf: nat, rp: nat): nat
    requires rf + rp > 0
  {
    if rf > 0 then 6 * rf + rp - 3 else rp - 1
  }

  /** The state that enters the last round. */
  function BeforeLast(s: State3, rc: seq<int>, rf: nat, rp: nat, M: seq<seq<int>>, p: Modulus): State3
    requires IsTable(M) && 6 * rf + rp <= |rc| && rf + rp > 0
  {
    if rf > 0
    then FullRounds(PartialRounds(FullRounds(s, rc, 0, rf, M, p), rc, 3 * rf, rp, M, p), rc, 3 * rf + rp, rf - 1, M, p)
    else PartialRounds(s, rc, 0, rp - 1, M, p)
  }

  /** It does not depend on the last lane-0 constant. */
  lemma BeforeLastKeeps(s: State3, rc: seq<int>, c: int, rf: nat, rp: nat, M: seq<seq<int>>, p: Modulus)
    requires IsTable(M) && 6 * rf + rp <= |rc| && rf + rp > 0
    ensures BeforeLast(s, rc[LastIndex(rf, rp) := c], rf, rp, M, p) == BeforeLast(s, rc, rf, rp, M, p)
  {
    hide FullRounds, PartialRounds;
    var k := LastIndex(rf, rp);
    var d := rc[k := c];
    if rf > 0 {
      assert d[0..0 + 3 * rf] == rc[0..0 + 3 * rf] && d[3 * rf..3 * rf + rp] == rc[3 * rf..3 * rf + rp];
      var j := 3 * rf + rp;
      assert d[j..j + 3 * (rf - 1)] == rc[j..j + 3 * (rf - 1)];
      GadgetAgreement.FullSlice(s, d, 0, rc, 0, rf, M, p);
      var s1 := FullRounds(s, rc, 0, rf, M, p);
      GadgetAgreement.PartialSlice(s1, d, 3 * rf, rc, 3 * rf, rp, M, p);
      GadgetAgreement.FullSlice(PartialRounds(s1, rc, 3 * rf, rp, M, p), d, j, rc, j, rf - 1, M, p);
    } else {
      assert d[0..0 + (rp - 1)] == rc[0..0 + (rp - 1)];
      GadgetAgreement.PartialSlice(s, d, 0, rc, 0, rp - 1, M, p);
    }
  }

  /** The other two lanes that enter the last mix. */
  function OtherLanes(t: State3, rc: seq<int>, rf: nat, rp: nat, p: Modulus): (int, int)
    requires 6 * rf + rp <= |rc| && rf + rp > 0
  {
    if rf > 0 then (GadgetAgreement.Box(t.s1, rc[6 * rf + rp - 2], p), GadgetAgreement.Box(t.s2, rc[6 * rf + rp - 1], p))
    else (t.s1, t.s2)
  }

  /** The output is the first mix row at the last lane-0 fifth power and lanes that do not depend on it. */
  lemma OutputAt(s: State3, rc: seq<int>, rf: nat, rp: nat, M: seq<seq<int>>, p: Modulus)
    requires IsTable(M) && 6 * rf + rp <= |rc| && rf + rp > 0
    ensures var t := BeforeLast(s, rc, rf, rp, M, p);
            var (x, y) := OtherLanes(t, rc, rf, rp, p);
            Permute(s, rc, rf, rp, M, p).s0 ==
            Dot3(M[0], State3(GadgetAgreement.Box(t.s0, rc[LastIndex(rf, rp)], p), x, y), p)
  {
    hide BeforeLast, Permute, OtherLanes, Sbox, Dot3;
    if rf > 0 { OutputFull(s, rc, rf, rp, M, p); } else { OutputPartial(s, rc, rp, M, p); }
  }

  lemma FullRoundOutput(t: State3, c0: int, c1: int, c2: int, M: seq<seq<int>>, p: Modulus)
    requires IsTable(M)
    ensures FullRound(t, c0, c1, c2, M, p).s0 ==
            Dot3(M[0], State3(GadgetAgreement.Box(t.s0, c0, p), GadgetAgreement.Box(t.s1, c1, p), GadgetAgreement.Box(t.s2, c2, p)), p)
  {
    hide Sbox, Dot3;
  }

  lemma OutputFull(s: State3, rc: seq<int>, rf: nat, rp: nat, M: seq<seq<int>>, p: Modulus)
    requires IsTable(M) && 6 * rf + rp <= |rc| && rf > 0
    ensures var t := BeforeLast(s, rc, rf, rp, M, p);
            var (x, y) := OtherLanes(t, rc, rf, rp, p);
            Permute(s, rc, rf, rp, M, p).s0 ==
            Dot3(M[0], State3(GadgetAgreement.Box(t.s0, rc[LastIndex(rf, rp)], p), x, y), p)
  {
    hide FullRounds, PartialRounds, FullRound, Dot3;
    hide GadgetAgreement.Box;
    var k, j := 3 * rf + rp, LastIndex(rf, rp);
    LastFull(PartialRounds(FullRounds(s, rc, 0, rf, M, p), rc, 3 * rf, rp, M, p), rc, k, rf, M, p);
    FullRoundOutput(BeforeLast(s, rc, rf, rp, M, p), rc[j], rc[j + 1], rc[j + 2], M, p);
    assert k + 3 * (rf - 1) == j;
  }

  lemma OutputPartial(s: State3, rc: seq<int>, rp: nat, M: seq<seq<int>>, p: Modulus)
    requires IsTable(M) && rp <= |rc| && rp > 0
    ensures var t := BeforeLast(s, rc, 0, rp, M, p);
            var (x, y) := OtherLanes(t, rc, 0, rp, p);
            Permute(s, rc, 0, rp, M, p).s0 ==
            Dot3(M[0], State3(GadgetAgreement.Box(t.s0, rc[LastIndex(0, rp)], p), x, y), p)
  {
    hide Permute, PartialRounds, Sbox, Dot3;
    NoRoundsOutput(s, rc, rp, M, p);
  }

  lemma LastFull(s: State3, rc: seq<int>, k: nat, r: nat, M: seq<seq<int>>, p: Modulus)
    requires IsTable(M) && k + 3 * r <= |rc| && r > 0
    ensures var j := k + 3 * (r - 1);
            FullRounds(s, rc, k, r, M, p) == FullRound(FullRounds(s, rc, k, r - 1, M, p), rc[j], rc[j + 1], rc[j + 2], M, p)
  {
    hide FullRound;
  }

  lemma NoRoundsOutput(s: State3, rc: seq<int>, rp: nat, M: seq<seq<int>>, p: Modulus)
    requires IsTable(M) && rp <= |rc| && rp > 0
    ensures Permute(s, rc, 0, rp, M, p) == PartialRound(PartialRounds(s, rc, 0, rp - 1, M, p), rc[rp - 1], M, p)
  {
    hide PartialRound;
    GadgetAgreement.NoRounds(s, rc, 0, M, p);
    GadgetAgreement.NoRounds(PartialRounds(s, rc, 0, rp, M, p), rc, rp, M, p);
  }

  /** Lane inputs 0 and 1 of a row give outputs that differ by its first coefficient. */
  lemma UnitGap(m: seq<int>, x: int, y: int, p: Modulus)
    requires |m| == 3 && !Cong(m[0], 0, p)
    ensures Dot3(m, State3(0, x, y), p) != Dot3(m, State3(1, x, y), p)
  {
    hide Cong;
    var s, t := State3(1, x, y), State3(0, x, y);
    GadgetAgreement.DotEqual(m, s, m, t, p);
    assert GadgetAgreement.RawDot(m, s) - GadgetAgreement.RawDot(m, t) == m[0];
  }

  /** Two values of the last lane-0 constant with different outputs. */
  lemma Separated(s: State3, rc: seq<int>, rf: nat, rp: nat, M: seq<seq<int>>, p: Modulus) returns (c: int, d: int)
    requires p > 1 && IsTable(M) && !Cong(M[0][0], 0, p) && 6 * rf + rp <= |rc| && rf + rp > 0
    ensures var k := LastIndex(rf, rp);
            Permute(s, rc[k := c], rf, rp, M, p).s0 != Permute(s, rc[k := d], rf, rp, M, p).s0
  {
    hide Permute, BeforeLast, Sbox, Dot3, Cong;
    var k, t := LastIndex(rf, rp), BeforeLast(s, rc, rf, rp, M, p);
    var (x, y) := OtherLanes(t, rc, rf, rp, p);
    c, d := 0 - t.s0, 1 - t.s0;
    BeforeLastKeeps(s, rc, c, rf, rp, M, p);
    BeforeLastKeeps(s, rc, d, rf, rp, M, p);
    OutputAt(s, rc[k := c], rf, rp, M, p);
    OutputAt(s, rc[k := d], rf, rp, M, p);
    GadgetAgreement.SboxFixed(p);
    GadgetAgreement.ConstantTo(t.s0, 0, p);
    GadgetAgreement.ConstantTo(t.s0, 1, p);
    UnitGap(M[0], x, y, p);
  }

  // ------------------------------------------------------------ the exact answer

  /** As soon as there is a round, every assignment of the input wires extends to one that satisfies
      every row and has an output other than the reference's, whatever the constants. */
  lemma LiveDiffers(w: seq<int>, cur: seq<nat>, rc: seq<int>, M: seq<seq<int>>, rf: nat, rp: nat, p: Modulus) returns (v: seq<int>)
    requires WiresBelow(cur, |w|) && IsTable(M) && 6 * rf + rp <= |rc| && Cong(w[0], 1, p)
    requires p > 1 && !Cong(M[0][0], 0, p) && rf + rp > 0
    ensures |v| == |w| + 54 * rf + 17 * rp && v[..|w|] == w
    ensures ListHolds(LiveRows(cur, M, |w|, rf, rp), v, p) && !HasOutput(v, cur, rc, M, |w|, rf, rp, p)
  {
    hide ListHolds, LiveRows, LiveWitness, LiveOutput, ConstantsAt, Permute, Cong;
    var s, k, out := StateAt(w, cur), LastIndex(rf, rp), LiveOutput(cur, |w|, rf, rp);
    var c, d := Separated(s, rc, rf, rp, M, p);
    v := LiveWitness(w, cur, rc[k := c], M, rf, rp, p);
    LiveComplete(w, cur, rc[k := c], M, rf, rp, p);
    SameInputs(w, v, cur);
    if HasOutput(v, cur, rc, M, |w|, rf, rp, p) {
      var u := LiveWitness(w, cur, rc[k := d], M, rf, rp, p);
      LiveComplete(w, cur, rc[k := d], M, rf, rp, p);
      SameInputs(w, u, cur);
      if HasOutput(u, cur, rc, M, |w|, rf, rp, p) {
        OutputIs(v[out], s, rc, rc[k := c], rf, rp, M, p);
        OutputIs(u[out], s, rc, rc[k := d], rf, rp, M, p);
        assert false;
      }
      v := u;
    }
  }

  lemma SameInputs(w: seq<int>, v: seq<int>, cur: seq<nat>)
    requires WiresBelow(cur, |w|) && |w| <= |v| && v[..|w|] == w
    ensures StateAt(v, cur) == StateAt(w, cur)
  {
    assert StateAt(v[..|w|], cur) == StateAt(v, cur);
  }

  lemma OutputIs(out: int, s: State3, rc: seq<int>, rc': seq<int>, rf: nat, rp: nat, M: seq<seq<int>>, p: Modulus)
    requires IsTable(M) && 6 * rf + rp <= |rc| && 6 * rf + rp <= |rc'|
    requires Cong(out, Permute(s, rc, rf, rp, M, p).s0, p) && Cong(out, Permute(s, rc', rf, rp, M, p).s0, p)
    requires rf + rp > 0
    ensures Permute(s, rc, rf, rp, M, p).s0 == Permute(s, rc', rf, rp, M, p).s0
  {
    hide Permute, BeforeLast, Sbox, Dot3, Cong;
    OutputAt(s, rc, rf, rp, M, p);
    OutputAt(s, rc', rf, rp, M, p);
    CongToMod(out, Permute(s, rc, rf, rp, M, p).s0, p);
    CongToMod(out, Permute(s, rc', rf, rp, M, p).s0, p);
    SmallMod(Permute(s, rc, rf, rp, M, p).s0, p);
    SmallMod(Permute(s, rc', rf, rp, M, p).s0, p);
  }

  /** The rows force the reference output exactly when there is no round at all. */
  lemma LiveForcesExact(cur: seq<nat>, rc: seq<int>, M: seq<seq<int>>, n: nat, rf: nat, rp: nat, p: Modulus)
    requires WiresBelow(cur, n) && IsTable(M) && n > 0 && 6 * rf + rp <= |rc|
    requires p > 1 && !Cong(M[0][0], 0, p)
    ensures LiveForces(cur, rc, M, n, rf, rp, p) <==> rf + rp == 0
  {
    hide ListHolds, LiveRows, Cong;
    if rf + rp == 0 {
      forall z: seq<int> | |z| == n && z[0] == 1 ensures HasOutput(z, cur, rc, M, n, rf, rp, p) {
        CongRefl(z[cur[0]], p);
      }
    } else {
      hide HasOutput;
      var w := seq(n, i => 1);
      CongRefl(1, p);
      var v := LiveDiffers(w, cur, rc, M, rf, rp, p);
      assert v[0] == v[..n][0];
    }
  }

  /** With the matrix the system derives, at all round counts, for every prime that has one. */
  lemma DerivedLive(cur: seq<nat>, rc: seq<int>, n: nat, rf: nat, rp: nat, p: int)
    requires IsPrime(p) && p >= 11 && WiresBelow(cur, n) && n > 0 && 6 * rf + rp <= |rc|
    ensures MdsMatrix.DeriveMds(p).Some?
    ensures LiveForces(cur, rc, MdsMatrix.DeriveMds(p).value, n, rf, rp, p) <==> rf + rp == 0
  {
    hide LiveForces, Cong, MdsMatrix.DeriveMds;
    MdsMatrix.MdsDerived(p);
    LiveForcesExact(cur, rc, MdsMatrix.DeriveMds(p).value, n, rf, rp, p);
  }

  // -------------------------------------------------------- a concrete failure

  /** Wire 0 carries one, wire 1 the input 1, wire 4 the constant -1; every other wire is zero. */
  function FailingWires(): (z: seq<int>)
    ensures |z| == 21
  {
    [1, 1, 0, 0, 10, 0, 0, 0, 0, 0, 0, 0, 0, 0, 0, 0, 0, 0, 0, 0, 0]
  }

  /** The gate reads only wires that carry zero. */
  predicate ReadsZero(g: Gate, z: seq<int>) {
    match g
    case Linear(f) => forall i :: 0 <= i < |f| ==> f[i].0 < |z| && z[f[i].0] == 0
    case Product(x, y) => x < |z| && y < |z| && z[x] == 0
  }

  lemma {:induction false} ZeroForm(f: seq<Term>, z: seq<int>)
    requires Below(f, |z|) && forall i :: 0 <= i < |f| ==> z[f[i].0] == 0
    ensures FormValue(f, z) == 0
  {
    if f != [] { ZeroForm(f[1..], z); }
  }

  /** Then its row holds when its own wire is zero. */
  lemma ZeroRow(g: Gate, n: nat, z: seq<int>, p: Modulus)
    requires ReadsZero(g, z) && 0 < n < |z| && z[n] == 0
    ensures Holds(ConstraintOf(g, n), z, p)
  {
    hide Cong;
    CongRefl(0, p);
    WireValue(n, z);
    WireValue(0, z);
    match g {
      case Linear(f) => ZeroForm(f, z);
      case Product(x, y) => WireValue(x, z); WireValue(y, z);
    }
  }

  lemma ZeroRows(g: seq<Gate>, n: nat, z: seq<int>, p: Modulus)
    requires 0 < n && n + |g| <= |z|
    requires forall i :: 0 <= i < |g| ==> ReadsZero(g[i], z) && z[n + i] == 0
    ensures ListHolds(GateRows(g, n), z, p)
  {
    hide Holds, ReadsZero;
    forall i | 0 <= i < |g| ensures Holds(GateRows(g, n)[i], z, p) { ZeroRow(g[i], n + i, z, p); }
  }

  /** The rows of the one round hold of the failing wires. */
  lemma FailingRows(M: seq<seq<int>>, p: Modulus)
    requires IsTable(M) && p == 11
    ensures ListHolds(LiveRows([1, 2, 3], M, 4, 0, 1), FailingWires(), p)
  {
    hide ListHolds, GateRows, Cong;
    var z, cur := FailingWires(), [1, 2, 3];
    ListNone(z, p);
    var lane, mix := LaneRows(1, 4), GateRows(LiveMix([8, 2, 3], M, 9), 9);
    FailingLane(p);
    FailingMix(M, p);
    ListConcat(lane, mix, z, p);
    var round := PartialRows(cur, M, 4);
    assert round == lane + mix;
    assert PartialRoundsLiveRows(cur, M, 4, 1) == [] + round == round;
    assert LiveRows(cur, M, 4, 0, 1) == [] + round + [] == round;
  }

  /** The sum row reads 1 + 10. */
  lemma FailingSum()
    ensures Holds(ConstraintOf(Linear([(1, 1), (4, 1)]), 5), FailingWires(), 11)
  {
    hide Cong;
    var z, f: seq<Term> := FailingWires(), [(1, 1), (4, 1)];
    assert f[1..] == [f[1]] && f[1..][1..] == [];
    assert FormValue(f[1..], z) == 10 && FormValue(f, z) == 11;
    WireValue(5, z);
    WireValue(0, z);
    CongIntro(0, 11, -1, 11);
  }

  lemma FailingLane(p: Modulus)
    requires p == 11
    ensures ListHolds(LaneRows(1, 4), FailingWires(), p)
  {
    hide Holds, ReadsZero, FailingWires, ConstraintOf;
    var z, g := FailingWires(), LiveLane(1, 4);
    FailingSum();
    LaneReads();
    forall i | 0 <= i < 4 ensures Holds(LaneRows(1, 4)[i], z, p) {
      if i > 0 { ZeroRow(g[i], 5 + i, z, p); }
    }
  }

  lemma LaneReads()
    ensures var z, g := FailingWires(), LiveLane(1, 4);
            g[0] == Linear([(1, 1), (4, 1)]) && forall i :: 1 <= i < 4 ==> ReadsZero(g[i], z) && z[5 + i] == 0
  {
  }

  lemma FailingMix(M: seq<seq<int>>, p: Modulus)
    requires IsTable(M) && p == 11
    ensures ListHolds(GateRows(LiveMix([8, 2, 3], M, 9), 9), FailingWires(), p)
  {
    hide ListHolds, GateRows, ReadsZero;
    var z, g := FailingWires(), LiveMix([8, 2, 3], M, 9);
    ZeroCell(M[0], 9);
    ZeroCell(M[1], 13);
    ZeroCell(M[2], 17);
    ZeroRows(g, 9, z, p);
  }

  lemma ZeroCell(m: seq<int>, n: nat)
    requires |m| == 3 && 9 <= n <= 17
    ensures forall i :: 0 <= i < 4 ==> ReadsZero(MixCell([8, 2, 3], m, n)[i], FailingWires())
  {
  }

  /** A concrete failure over the field of 11 elements: one partial round with constant 0 on the
      state (1, 0, 0). Every row holds; the output wire carries 0 where the reference has 9. */
  lemma LiveCounterexample(M: seq<seq<int>>, cur: seq<nat>, rc: seq<int>, z: seq<int>)
    requires M == [[9, 2, 8], [2, 8, 7], [8, 7, 5]] && cur == [1, 2, 3] && rc == [0] && z == FailingWires()
    ensures MdsMatrix.DeriveMds(11) == SquareRoot.Some(M)
    ensures z[0] == 1 && ListHolds(LiveRows(cur, M, 4, 0, 1), z, 11)
    ensures LiveOutput(cur, 4, 0, 1) == 12 && z[12] == 0 && Permute(StateAt(z, cur), rc, 0, 1, M, 11).s0 == 9
    ensures !HasOutput(z, cur, rc, M, 4, 0, 1, 11)
  {
    hide ListHolds, LiveRows, MdsMatrix.DeriveMds, Cong, Permute, StateAt;
    MdsMatrix.GadgetCounterexample();
    FailingRows(M, 11);
    FailingOutput(M);
    NineIsNotZero();
  }

  lemma NineIsNotZero()
    ensures !Cong(0, 9, 11)
  {
  }

  lemma FailingOutput(M: seq<seq<int>>)
    requires M == [[9, 2, 8], [2, 8, 7], [8, 7, 5]]
    ensures var z := FailingWires();
            && LiveOutput([1, 2, 3], 4, 0, 1) == 12 && z[12] == 0
            && Permute(StateAt(z, [1, 2, 3]), [0], 0, 1, M, 11).s0 == 9
  {
    hide PartialRound, Permute;
    var z := FailingWires();
    assert StateAt(z, [1, 2, 3]) == State3(1, 0, 0);
    NoRoundsOutput(State3(1, 0, 0), [0], 1, M, 11);
    assert PartialRounds(State3(1, 0, 0), [0], 0, 0, M, 11) == State3(1, 0, 0);
    FirstColumn(M);
  }

  lemma FirstColumn(M: seq<seq<int>>)
    requires M == [[9, 2, 8], [2, 8, 7], [8, 7, 5]]
    ensures PartialRound(State3(1, 0, 0), 0, M, 11).s0 == 9
  {
    hide Sbox;
    GadgetAgreement.SboxFixed(11);
  }
}
