/** The builder that appends rows to A, B, C and wires to the witness, and the evaluator that
    checks A*w o B*w = C*w one matrix at a time. */
module ConstraintBuilder {
  import opened Congruence
  import opened FieldOps
  import opened R1cs

  /** The three matrices, the witness and the next row index. */
  datatype System = System(A: Coo, B: Coo, C: Coo, w: seq<int>, row: nat)

  /** Aligned matrices without entries from the next row on: what the row counter promises. */
  ghost predicate Appendable(S: System) {
    && Aligned(S.A) && Aligned(S.B) && Aligned(S.C)
    && RowsBelow(S.A, S.row) && RowsBelow(S.B, S.row) && RowsBelow(S.C, S.row)
  }

  /** Row i of the system. */
  ghost function RowOf(S: System, i: nat): Constraint
    requires Aligned(S.A) && Aligned(S.B) && Aligned(S.C)
  {
    Constraint(RowForm(S.A, i), RowForm(S.B, i), RowForm(S.C, i))
  }

  ghost function PushConstraint(S: System, k: Constraint): System {
    System(PushAll(S.A, S.row, k.a), PushAll(S.B, S.row, k.b), PushAll(S.C, S.row, k.c), S.w, S.row + 1)
  }

  lemma RowsBelowMore(M: Coo, n: nat)
    requires RowsBelow(M, n)
    ensures RowsBelow(M, n + 1)
  {
  }

  /** Appending a constraint adds exactly that row. */
  lemma PushConstraintRows(S: System, k: Constraint)
    requires Appendable(S)
    ensures var S' := PushConstraint(S, k);
            && Appendable(S') && RowOf(S', S.row) == k
            && forall i :: 0 <= i < S.row ==> RowOf(S', i) == RowOf(S, i)
  {
    hide RowForm, PushAll, RowsBelow;
    var S' := PushConstraint(S, k);
    MatrixRow(S.A, S.row, k.a);
    MatrixRow(S.B, S.row, k.b);
    MatrixRow(S.C, S.row, k.c);
  }

  lemma MatrixRow(M: Coo, r: nat, f: seq<Term>)
    requires Aligned(M) && RowsBelow(M, r)
    ensures RowsBelow(PushAll(M, r, f), r + 1) && RowForm(PushAll(M, r, f), r) == f
    ensures forall i :: 0 <= i < r ==> RowForm(PushAll(M, r, f), i) == RowForm(M, i)
  {
    hide PushAll;
    RowsBelowMore(M, r);
    PushAllRows(M, r, f);
    EntriesNone(M, r, |M.row|);
    forall i | 0 <= i <= r ensures RowForm(PushAll(M, r, f), i) == RowForm(M, i) + if r == i then f else [] {
      RowFormPushAll(M, r, f, i);
    }
  }

  /** One gate: its wire and its row. */
  ghost function EmitGate(S: System, g: Gate, p: Modulus): System
    requires GateWithin(g, |S.w|)
  {
    PushConstraint(S.(w := S.w + [GateValue(g, S.w, p)]), ConstraintOf(g, |S.w|))
  }

  ghost function Emit(S: System, gates: seq<Gate>, p: Modulus): (S': System)
    requires Ordered(gates, |S.w|)
    ensures |S'.w| == |S.w| + |gates|
    decreases |gates|
  {
    if gates == [] then S
    else
      OrderedTail(gates, |S.w|);
      Emit(EmitGate(S, gates[0], p), gates[1..], p)
  }

  lemma {:induction false} EmitConcat(S: System, g: seq<Gate>, h: seq<Gate>, p: Modulus)
    requires Ordered(g, |S.w|) && Ordered(h, |S.w| + |g|)
    ensures Ordered(g + h, |S.w|) && Emit(S, g + h, p) == Emit(Emit(S, g, p), h, p)
    decreases |g|
  {
    hide EmitGate;
    OrderedConcat(g, h, |S.w|);
    if g == [] {
      assert g + h == h;
    } else {
      OrderedTail(g, |S.w|);
      assert |EmitGate(S, g[0], p).w| == |S.w| + 1 by { EmitGateWires(S, g[0], p); }
      EmitConcat(EmitGate(S, g[0], p), g[1..], h, p);
      assert (g + h)[1..] == g[1..] + h;
    }
  }

  lemma EmitGateWires(S: System, g: Gate, p: Modulus)
    requires GateWithin(g, |S.w|)
    ensures EmitGate(S, g, p).w == S.w + [GateValue(g, S.w, p)] && EmitGate(S, g, p).row == S.row + 1
  {
  }

  /** Emitting a circuit appends one row per gate, the rows that pin the gates' wires, leaves every
      earlier row as it was, and extends the witness by the circuit's run. */
  lemma {:induction false} EmitRows(S: System, gates: seq<Gate>, p: Modulus)
    requires Appendable(S) && Ordered(gates, |S.w|)
    ensures var S' := Emit(S, gates, p);
            && Appendable(S') && S'.row == S.row + |gates| && S'.w == Run(S.w, gates, p)
            && (forall i :: 0 <= i < S.row ==> RowOf(S', i) == RowOf(S, i))
            && (forall i :: 0 <= i < |gates| ==> RowOf(S', S.row + i) == ConstraintOf(gates[i], |S.w| + i))
    decreases |gates|
  {
    hide EmitGate, RowOf, ConstraintOf, Appendable;
    assert Aligned(S.A) && Aligned(S.B) && Aligned(S.C) by { AppendableAligned(S); }
    if gates != [] {
      OrderedTail(gates, |S.w|);
      var T, S' := EmitGate(S, gates[0], p), Emit(S, gates, p);
      EmitGateWires(S, gates[0], p);
      EmitGateRows(S, gates[0], p);
      EmitRows(T, gates[1..], p);
      AppendableAligned(S');
      forall i | 0 <= i < |gates| ensures RowOf(S', S.row + i) == ConstraintOf(gates[i], |S.w| + i) {
        if i > 0 { assert RowOf(S', T.row + (i - 1)) == ConstraintOf(gates[1..][i - 1], |T.w| + (i - 1)); }
      }
    }
  }

  lemma AppendableAligned(S: System)
    requires Appendable(S)
    ensures Aligned(S.A) && Aligned(S.B) && Aligned(S.C)
  {
  }

  lemma EmitGateRows(S: System, g: Gate, p: Modulus)
    requires Appendable(S) && GateWithin(g, |S.w|)
    ensures var T := EmitGate(S, g, p);
            && Appendable(T) && RowOf(T, S.row) == ConstraintOf(g, |S.w|)
            && forall i :: 0 <= i < S.row ==> RowOf(T, i) == RowOf(S, i)
  {
    hide PushConstraint, ConstraintOf, RowsBelow;
    var U := S.(w := S.w + [GateValue(g, S.w, p)]);
    PushConstraintRows(U, ConstraintOf(g, |S.w|));
    assert forall i :: 0 <= i < S.row ==> RowOf(U, i) == RowOf(S, i);
  }

  /** Rows from..to of the system hold of z. */
  ghost predicate RowsHold(S: System, from: nat, to: nat, z: seq<int>, p: Modulus)
    requires Aligned(S.A) && Aligned(S.B) && Aligned(S.C)
  {
    forall i :: from <= i < to ==> Holds(RowOf(S, i), z, p)
  }

  // -------------------------------------------------------------- the builder

  /** x, x^2, x^4, x^5: three products. */
  function SboxGates(x: nat, n: nat): (g: seq<Gate>)
    ensures |g| == 3 && (x < n ==> Ordered(g, n))
  {
    [Product(x, x), Product(n, n), Product(x, n + 1)]
  }

  function Coefficient(c: int, p: Modulus): int {
    if c >= 0 then c % p else FSub(0, (-c) % p, p)
  }

  function Coefficients(f: seq<Term>, p: Modulus): (g: seq<Term>)
    ensures |g| == |f|
  {
    seq(|f|, i requires 0 <= i < |f| => (f[i].0, Coefficient(f[i].1, p)))
  }

  class Builder {
    var A: Coo
    var B: Coo
    var C: Coo
    var w: seq<int>
    var row: nat

    ghost function State(): System
      reads this
    {
      System(A, B, C, w, row)
    }

    constructor (one: seq<int>)
      ensures State() == System(Coo([], [], []), Coo([], [], []), Coo([], [], []), one, 0)
    {
      A, B, C := Coo([], [], []), Coo([], [], []), Coo([], [], []);
      w, row := one, 0;
    }

    /** a * b = c on single wires. */
    method AddQuad(a: nat, b: nat, c: nat)
      modifies this
      ensures State() == PushConstraint(old(State()), Constraint([(a, 1)], [(b, 1)], [(c, 1)]))
      ensures A == Push(old(A), old(row), (a, 1)) && B == Push(old(B), old(row), (b, 1))
      ensures C == Push(old(C), old(row), (c, 1)) && w == old(w) && row == old(row) + 1
    {
      PushOne(A, row, (a, 1));
      PushOne(B, row, (b, 1));
      PushOne(C, row, (c, 1));
      A := Push(A, row, (a, 1));
      B := Push(B, row, (b, 1));
      C := Push(C, row, (c, 1));
      row := row + 1;
    }

    /** t * 1 = form, with the coefficients pushed as they are. */
    method PushLinear(t: nat, f: seq<Term>)
      modifies this
      ensures State() == PushConstraint(old(State()), Constraint([(t, 1)], [(0, 1)], f))
      ensures A == Push(old(A), old(row), (t, 1)) && B == Push(old(B), old(row), (0, 1))
      ensures C == PushAll(old(C), old(row), f) && w == old(w) && row == old(row) + 1
    {
      PushOne(A, row, (t, 1));
      PushOne(B, row, (0, 1));
      A := Push(A, row, (t, 1));
      B := Push(B, row, (0, 1));
      for i := 0 to |f|
        invariant PushAll(C, row, f[i..]) == PushAll(old(C), row, f)
        invariant row == old(row) && w == old(w)
        invariant A == PushAll(old(A), row, [(t, 1)]) && B == PushAll(old(B), row, [(0, 1)])
      {
        assert f[i..][1..] == f[i + 1..];
        C := Push(C, row, f[i]);
      }
      row := row + 1;
    }

    /** t * 1 = sum of signed machine-integer coefficients times wires. */
    method AddLinear(t: nat, terms: seq<Term>, p: Modulus)
      modifies this
      ensures State() == PushConstraint(old(State()), Constraint([(t, 1)], [(0, 1)], Coefficients(terms, p)))
    {
      var f: seq<Term> := [];
      for i := 0 to |terms|
        invariant f == Coefficients(terms, p)[..i]
        invariant State() == old(State())
      {
        f := f + [(terms[i].0, Coefficient(terms[i].1, p))];
      }
      assert f == Coefficients(terms, p);
      PushLinear(t, f);
    }

    /** Appends the wires and rows of x^5 and returns its wire. */
    method SboxGadget(x: nat, p: Modulus) returns (x5: nat)
      requires x < |w|
      modifies this
      ensures State() == Emit(old(State()), SboxGates(x, old(|w|)), p)
      ensures x5 == old(|w|) + 2
    {
      ghost var S := State();
      var xVal := w[x];
      var x2Val := FMul(xVal, xVal, p);
      var x2 := |w|;
      w := w + [x2Val];
      AddQuad(x, x, x2);
      ghost var T := State();
      var x4Val := FMul(x2Val, x2Val, p);
      var x4 := |w|;
      w := w + [x4Val];
      AddQuad(x2, x2, x4);
      ghost var U := State();
      var x5Val := FMul(xVal, x4Val, p);
      x5 := |w|;
      w := w + [x5Val];
      AddQuad(x, x4, x5);
      EmitThree(S, T, U, Product(x, x), Product(x2, x2), Product(x, x4), p);
    }

    /** Appends a wire with the value of the form and the row that pins it. */
    method DefineLinear(f: seq<Term>, p: Modulus) returns (t: nat)
      requires Below(f, |w|)
      modifies this
      ensures State() == Emit(old(State()), [Linear(f)], p) && t == old(|w|)
    {
      var acc := 0;
      ZeroForm(w, p);
      for j := 0 to |f|
        invariant State() == old(State()) && Below(f[..j], |w|)
        invariant acc == FormValue(f[..j], w) % p
      {
        FormSnoc(f[..j], f[j], w, acc, p);
        assert f[..j + 1] == f[..j] + [f[j]];
        acc := FAdd(acc, FMul(f[j].1, w[f[j].0], p), p);
      }
      assert f[..|f|] == f;
      EmitOne(State(), Linear(f), p);
      t := |w|;
      w := w + [acc];
      PushLinear(t, f);
    }

    /** Appends the wire w[cur] + c and its row, the constant carried by the ONE wire. */
    method Ark(cur: nat, c: int, p: Modulus) returns (t: nat)
      requires cur < |w| && w[0] == 1
      modifies this
      ensures State() == Emit(old(State()), [Linear([(cur, 1), (0, c)])], p) && t == old(|w|)
    {
      ArkValue(w, cur, c);
      EmitOne(State(), Linear([(cur, 1), (0, c)]), p);
      var ark := FAdd(w[cur], c, p);
      t := |w|;
      w := w + [ark];
      PushLinear(t, [(cur, 1), (0, c)]);
    }
  }

  lemma PushOne(M: Coo, r: nat, t: Term)
    ensures PushAll(M, r, [t]) == Push(M, r, t)
  {
    assert [t][1..] == [];
  }

  lemma ArkValue(w: seq<int>, cur: nat, c: int)
    requires cur < |w| && w[0] == 1
    ensures Below([(cur, 1), (0, c)], |w|) && FormValue([(cur, 1), (0, c)], w) == w[cur] + c
  {
    var f: seq<Term> := [(cur, 1), (0, c)];
    assert f[1..] == [f[1]] && f[1..][1..] == [];
    assert FormValue(f[1..], w) == c;
  }

  lemma ZeroForm(w: seq<int>, p: Modulus)
    ensures FormValue([], w) % p == 0
  {
    SmallMod(0, p);
  }

  /** Adding one reduced product to a reduced sum. */
  lemma FormSnoc(f: seq<Term>, t: Term, w: seq<int>, acc: int, p: Modulus)
    requires Below(f, |w|) && t.0 < |w| && acc == FormValue(f, w) % p
    ensures Below(f + [t], |w|) && FAdd(acc, FMul(t.1, w[t.0], p), p) == FormValue(f + [t], w) % p
  {
    hide Cong;
    FormAppend(f, t, w);
    var v, m := FormValue(f, w), t.1 * w[t.0];
    CongMod(v, p);
    CongMod(m, p);
    AddC(acc, v, m % p, m, p);
    CongResidue(FAdd(acc, m % p, p), v + m, p);
  }

  lemma {:induction false} FormAppend(f: seq<Term>, t: Term, w: seq<int>)
    requires Below(f, |w|) && t.0 < |w|
    ensures Below(f + [t], |w|) && FormValue(f + [t], w) == FormValue(f, w) + t.1 * w[t.0]
  {
    if f == [] {
      assert [t][1..] == [];
    } else {
      FormAppend(f[1..], t, w);
      assert (f + [t])[1..] == f[1..] + [t];
    }
  }

  lemma EmitOne(S: System, g: Gate, p: Modulus)
    requires GateWithin(g, |S.w|)
    ensures Ordered([g], |S.w|) && Emit(S, [g], p) == EmitGate(S, g, p)
  {
    assert [g][1..] == [];
  }

  lemma EmitThree(S: System, T: System, U: System, g: Gate, h: Gate, k: Gate, p: Modulus)
    requires Ordered([g, h, k], |S.w|)
    requires GateWithin(g, |S.w|) && T == EmitGate(S, g, p)
    requires GateWithin(h, |T.w|) && U == EmitGate(T, h, p)
    requires GateWithin(k, |U.w|)
    ensures Emit(S, [g, h, k], p) == EmitGate(U, k, p)
  {
    hide EmitGate;
    EmitGateWires(S, g, p);
    EmitGateWires(T, h, p);
    assert [g, h, k] == [g] + [h, k] && [h, k] == [h] + [k];
    EmitFirst(S, g, [h, k], p);
    EmitFirst(T, h, [k], p);
    EmitOne(U, k, p);
  }

  lemma EmitFirst(S: System, g: Gate, rest: seq<Gate>, p: Modulus)
    requires Ordered([g] + rest, |S.w|)
    ensures GateWithin(g, |S.w|) && Ordered(rest, |S.w| + 1)
    ensures EmitGate(S, g, p).w == S.w + [GateValue(g, S.w, p)]
    ensures Emit(S, [g] + rest, p) == Emit(EmitGate(S, g, p), rest, p)
  {
    OrderedTail([g] + rest, |S.w|);
    assert ([g] + rest)[1..] == rest;
  }

  /** The row of AddLinear says t * 1 = the signed sum. */
  lemma SignedRow(t: nat, terms: seq<Term>, z: seq<int>, p: Modulus)
    requires t < |z| && Below(terms, |z|) && Cong(z[0], 1, p)
    ensures Holds(Constraint([(t, 1)], [(0, 1)], Coefficients(terms, p)), z, p) <==>
            Cong(z[t], FormValue(terms, z), p)
  {
    hide Cong;
    WireValue(t, z);
    WireValue(0, z);
    SignedForm(terms, z, p);
    var v, u := FormValue(Coefficients(terms, p), z), FormValue(terms, z);
    CongSym(v, u, p);
    CongRefl(z[t], p);
    CongMul(z[t], z[t], z[0], 1, p);
    CongSym(z[t] * z[0], z[t], p);
    if Cong(z[t] * z[0], v, p) {
      CongTrans(z[t], z[t] * z[0], v, p);
      CongTrans(z[t], v, u, p);
    }
    if Cong(z[t], u, p) {
      CongTrans(z[t], u, v, p);
      CongTrans(z[t] * z[0], z[t], v, p);
    }
  }

  lemma CoefficientCong(c: int, p: Modulus)
    ensures Cong(Coefficient(c, p), c, p)
  {
    hide Cong;
    if c >= 0 {
      CongMod(c, p);
    } else {
      CongMod(-c, p);
      CongRefl(0, p);
      SubC(0, 0, (-c) % p, -c, p);
    }
  }

  lemma {:induction false} SignedForm(terms: seq<Term>, z: seq<int>, p: Modulus)
    requires Below(terms, |z|)
    ensures Below(Coefficients(terms, p), |z|) && Cong(FormValue(Coefficients(terms, p), z), FormValue(terms, z), p)
    decreases |terms|
  {
    hide Cong, Coefficient;
    if terms == [] {
      CongRefl(0, p);
    } else {
      var f := Coefficients(terms, p);
      assert f[1..] == Coefficients(terms[1..], p);
      SignedForm(terms[1..], z, p);
      var (i, c) := terms[0];
      CoefficientCong(c, p);
      CongRefl(z[i], p);
      CongMul(Coefficient(c, p), c, z[i], z[i], p);
      CongAdd(f[0].1 * z[i], c * z[i], FormValue(f[1..], z), FormValue(terms[1..], z), p);
    }
  }

  // ------------------------------------------------------------- the evaluator

  /** The first t entries of row i as a sum, what one matrix loop has accumulated. */
  method Accumulate(M: Coo, w: seq<int>, n: nat, p: Modulus) returns (z: array<int>)
    requires Aligned(M) && RowsBelow(M, n)
    requires forall t :: 0 <= t < |M.col| ==> M.col[t] < |w|
    ensures fresh(z) && z.Length == n
    ensures forall i :: 0 <= i < n ==> Below(RowForm(M, i), |w|) && z[i] == FormValue(RowForm(M, i), w) % p
  {
    z := new int[n];
    for i := 0 to n
      invariant forall k :: 0 <= k < i ==> z[k] == 0
    {
      z[i] := 0;
    }
    ZeroForm(w, p);
    for t := 0 to |M.row|
      invariant forall i :: 0 <= i < n ==> Below(EntriesOf(M, i, t), |w|) && z[i] == FormValue(EntriesOf(M, i, t), w) % p
    {
      var r := M.row[t];
      FormSnoc(EntriesOf(M, r, t), (M.col[t], M.val[t]), w, z[r], p);
      z[r] := FAdd(z[r], FMul(M.val[t], w[M.col[t]], p), p);
    }
  }

  /** Every row of the system holds of w. */
  ghost predicate Satisfied(A: Coo, B: Coo, C: Coo, w: seq<int>, n: nat, p: Modulus)
    requires Aligned(A) && Aligned(B) && Aligned(C)
  {
    forall i :: 0 <= i < n ==> Holds(Constraint(RowForm(A, i), RowForm(B, i), RowForm(C, i)), w, p)
  }

  /** The rows below n that fail on w. */
  ghost function UnsatRows(A: Coo, B: Coo, C: Coo, w: seq<int>, n: nat, p: Modulus): (s: set<int>)
    requires Aligned(A) && Aligned(B) && Aligned(C)
    ensures forall i :: i in s <==> 0 <= i < n && !Holds(Constraint(RowForm(A, i), RowForm(B, i), RowForm(C, i)), w, p)
  {
    set i | 0 <= i < n && !Holds(Constraint(RowForm(A, i), RowForm(B, i), RowForm(C, i)), w, p)
  }

  lemma OneRowMore(A: Coo, B: Coo, C: Coo, w: seq<int>, n: nat, p: Modulus)
    requires Aligned(A) && Aligned(B) && Aligned(C)
    ensures var holds := Holds(Constraint(RowForm(A, n), RowForm(B, n), RowForm(C, n)), w, p);
            |UnsatRows(A, B, C, w, n + 1, p)| == |UnsatRows(A, B, C, w, n, p)| + if holds then 0 else 1
  {
    hide Holds, RowForm;
    var s, t := UnsatRows(A, B, C, w, n, p), UnsatRows(A, B, C, w, n + 1, p);
    if n in t { assert t == s + {n}; } else { assert t == s; }
  }

  /** The satisfaction check: each matrix in its own loop, then row by row; it counts the failing rows. */
  method CheckSat(A: Coo, B: Coo, C: Coo, w: seq<int>, n: nat, p: Modulus) returns (allSat: bool, unsat: nat)
    requires Aligned(A) && Aligned(B) && Aligned(C) && RowsBelow(A, n) && RowsBelow(B, n) && RowsBelow(C, n)
    requires forall t :: 0 <= t < |A.col| ==> A.col[t] < |w|
    requires forall t :: 0 <= t < |B.col| ==> B.col[t] < |w|
    requires forall t :: 0 <= t < |C.col| ==> C.col[t] < |w|
    ensures allSat <==> Satisfied(A, B, C, w, n, p)
    ensures allSat <==> unsat == 0
    ensures unsat == |UnsatRows(A, B, C, w, n, p)|
  {
    hide Cong, RowForm, Holds;
    var az := Accumulate(A, w, n, p);
    var bz := Accumulate(B, w, n, p);
    var cz := Accumulate(C, w, n, p);
    allSat, unsat := true, 0;
    for i := 0 to n
      invariant allSat <==> Satisfied(A, B, C, w, i, p)
      invariant allSat <==> unsat == 0
      invariant unsat == |UnsatRows(A, B, C, w, i, p)|
      modifies {}
    {
      OneRowMore(A, B, C, w, i, p);
      ghost var k := Constraint(RowForm(A, i), RowForm(B, i), RowForm(C, i));
      RowCheck(k, w, az[i], bz[i], cz[i], p);
      if FMul(az[i], bz[i], p) != cz[i] {
        unsat := unsat + 1;
        allSat := false;
      }
      assert Satisfied(A, B, C, w, i + 1, p) <==> Satisfied(A, B, C, w, i, p) && Holds(k, w, p);
    }
  }

  lemma RowCheck(k: Constraint, w: seq<int>, a: int, b: int, c: int, p: Modulus)
    requires Within(k, |w|)
    requires a == FormValue(k.a, w) % p && b == FormValue(k.b, w) % p && c == FormValue(k.c, w) % p
    ensures FMul(a, b, p) == c <==> Holds(k, w, p)
  {
    hide Cong, FMul;
    var x, y, v := FormValue(k.a, w), FormValue(k.b, w), FormValue(k.c, w);
    CongMod(x, p);
    CongMod(y, p);
    CongMod(v, p);
    MulC(a, x, b, y, p);
    if Cong(x * y, v, p) {
      CongTrans(x * y, v, c, p);
      CongTrans(FMul(a, b, p), x * y, c, p);
      CongUnique(FMul(a, b, p), c, p);
    }
    if FMul(a, b, p) == c {
      CongSym(c, x * y, p);
      CongTrans(x * y, c, v, p);
    }
  }
}
