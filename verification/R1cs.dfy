/** Sparse rank-one constraint systems: coordinate-list matrices that grow by pushes, the row
    semantics A*z o B*z = C*z, and circuits whose every gate defines one fresh wire. */
module R1cs {
  import opened Congruence

  // --------------------------------------------------------- linear forms

  type Term = (nat, int)

  /** Every wire of the form is below n. */
  predicate Below(f: seq<Term>, n: nat) {
    forall i :: 0 <= i < |f| ==> f[i].0 < n
  }

  /** The sum of coefficient times wire value. */
  function FormValue(f: seq<Term>, z: seq<int>): int
    requires Below(f, |z|)
  {
    if f == [] then 0 else f[0].1 * z[f[0].0] + FormValue(f[1..], z)
  }

  /** A form reads only the wires it names. */
  lemma {:induction false} FormPrefix(f: seq<Term>, z: seq<int>, y: seq<int>)
    requires Below(f, |z|) && |z| <= |y| && y[..|z|] == z
    ensures Below(f, |y|) && FormValue(f, y) == FormValue(f, z)
  {
    if f != [] { FormPrefix(f[1..], z, y); }
  }

  /** Congruent assignments give congruent values. */
  lemma {:induction false} FormCong(f: seq<Term>, z: seq<int>, y: seq<int>, p: Modulus)
    requires Below(f, |z|) && Below(f, |y|)
    requires forall i :: 0 <= i < |z| && i < |y| ==> Cong(z[i], y[i], p)
    ensures Cong(FormValue(f, z), FormValue(f, y), p)
  {
    hide Cong;
    if f == [] {
      CongRefl(0, p);
    } else {
      FormCong(f[1..], z, y, p);
      var (i, c) := f[0];
      CongRefl(c, p);
      CongMul(c, c, z[i], y[i], p);
      CongAdd(c * z[i], c * y[i], FormValue(f[1..], z), FormValue(f[1..], y), p);
    }
  }

  /** A one-wire form with coefficient one. */
  lemma WireValue(i: nat, z: seq<int>)
    requires i < |z|
    ensures Below([(i, 1)], |z|) && FormValue([(i, 1)], z) == z[i]
  {
    assert [(i, 1)][1..] == [];
  }

  // ---------------------------------------------------------- constraints

  datatype Constraint = Constraint(a: seq<Term>, b: seq<Term>, c: seq<Term>)

  predicate Within(k: Constraint, n: nat) {
    Below(k.a, n) && Below(k.b, n) && Below(k.c, n)
  }

  ghost predicate Holds(k: Constraint, z: seq<int>, p: Modulus) {
    Within(k, |z|) && Cong(FormValue(k.a, z) * FormValue(k.b, z), FormValue(k.c, z), p)
  }

  /** A constraint within n wires is not affected by later wires. */
  lemma HoldsPrefix(k: Constraint, z: seq<int>, y: seq<int>, p: Modulus)
    requires Within(k, |z|) && |z| <= |y| && y[..|z|] == z
    ensures Holds(k, y, p) <==> Holds(k, z, p)
  {
    FormPrefix(k.a, z, y);
    FormPrefix(k.b, z, y);
    FormPrefix(k.c, z, y);
  }

  // ------------------------------------------------- coordinate-list matrices

  datatype Coo = Coo(row: seq<nat>, col: seq<nat>, val: seq<int>)

  predicate Aligned(M: Coo) {
    |M.row| == |M.col| == |M.val|
  }

  function Push(M: Coo, r: nat, t: Term): (M': Coo)
    ensures Aligned(M) ==> Aligned(M')
  {
    Coo(M.row + [r], M.col + [t.0], M.val + [t.1])
  }

  function PushAll(M: Coo, r: nat, f: seq<Term>): (M': Coo)
    ensures Aligned(M) ==> Aligned(M')
    decreases |f|
  {
    if f == [] then M else PushAll(Push(M, r, f[0]), r, f[1..])
  }

  /** The entries of row i among the first n, in the order they were pushed. */
  function EntriesOf(M: Coo, i: nat, n: nat): seq<Term>
    requires Aligned(M) && n <= |M.row|
  {
    if n == 0 then []
    else if M.row[n - 1] == i then EntriesOf(M, i, n - 1) + [(M.col[n - 1], M.val[n - 1])]
    else EntriesOf(M, i, n - 1)
  }

  /** Row i of the matrix as a linear form. */
  function RowForm(M: Coo, i: nat): seq<Term>
    requires Aligned(M)
  {
    EntriesOf(M, i, |M.row|)
  }

  lemma {:induction false} EntriesPush(M: Coo, r: nat, t: Term, i: nat, n: nat)
    requires Aligned(M) && n <= |M.row|
    ensures EntriesOf(Push(M, r, t), i, n) == EntriesOf(M, i, n)
  {
    if n > 0 { EntriesPush(M, r, t, i, n - 1); }
  }

  lemma RowFormPush(M: Coo, r: nat, t: Term, i: nat)
    requires Aligned(M)
    ensures RowForm(Push(M, r, t), i) == RowForm(M, i) + if r == i then [t] else []
  {
    EntriesPush(M, r, t, i, |M.row|);
  }

  /** Pushing a form onto row r extends that row and no other. */
  lemma {:induction false} RowFormPushAll(M: Coo, r: nat, f: seq<Term>, i: nat)
    requires Aligned(M)
    ensures RowForm(PushAll(M, r, f), i) == RowForm(M, i) + if r == i then f else []
    decreases |f|
  {
    hide RowForm, Push;
    if f != [] {
      RowFormPush(M, r, f[0], i);
      RowFormPushAll(Push(M, r, f[0]), r, f[1..], i);
      assert f == [f[0]] + f[1..];
    }
  }

  /** No entry at row n or beyond. */
  predicate RowsBelow(M: Coo, n: nat) {
    forall t :: 0 <= t < |M.row| ==> M.row[t] < n
  }

  lemma {:induction false} EntriesNone(M: Coo, i: nat, n: nat)
    requires Aligned(M) && n <= |M.row| && RowsBelow(M, i)
    ensures EntriesOf(M, i, n) == []
  {
    if n > 0 { EntriesNone(M, i, n - 1); }
  }

  lemma {:induction false} PushAllRows(M: Coo, r: nat, f: seq<Term>)
    requires RowsBelow(M, r + 1)
    ensures RowsBelow(PushAll(M, r, f), r + 1) && |PushAll(M, r, f).row| == |M.row| + |f|
    decreases |f|
  {
    if f != [] { PushAllRows(Push(M, r, f[0]), r, f[1..]); }
  }

  // -------------------------------------------------------------- circuits

  /** A gate defines the next wire: a linear form of earlier wires, or a product of two of them. */
  datatype Gate = Linear(terms: seq<Term>) | Product(x: nat, y: nat)

  predicate GateWithin(g: Gate, n: nat) {
    match g
    case Linear(f) => Below(f, n)
    case Product(x, y) => x < n && y < n
  }

  /** Gate i reads only wires below n + i. */
  predicate Ordered(gates: seq<Gate>, n: nat) {
    forall i :: 0 <= i < |gates| ==> GateWithin(gates[i], n + i)
  }

  function GateValue(g: Gate, w: seq<int>, p: Modulus): (v: int)
    requires GateWithin(g, |w|)
    ensures 0 <= v < p
  {
    match g
    case Linear(f) => FormValue(f, w) % p
    case Product(x, y) => w[x] * w[y] % p
  }

  function Run(w: seq<int>, gates: seq<Gate>, p: Modulus): (w': seq<int>)
    requires Ordered(gates, |w|)
    ensures |w'| == |w| + |gates| && w'[..|w|] == w
    decreases |gates|
  {
    if gates == [] then w
    else
      OrderedTail(gates, |w|);
      Run(w + [GateValue(gates[0], w, p)], gates[1..], p)
  }

  lemma OrderedTail(gates: seq<Gate>, n: nat)
    requires Ordered(gates, n) && gates != []
    ensures GateWithin(gates[0], n) && Ordered(gates[1..], n + 1)
  {
    assert GateWithin(gates[0], n + 0);
    forall i | 0 <= i < |gates| - 1 ensures GateWithin(gates[1..][i], n + 1 + i) {
      assert GateWithin(gates[i + 1], n + (i + 1));
    }
  }

  lemma OrderedConcat(g: seq<Gate>, h: seq<Gate>, n: nat)
    requires Ordered(g, n) && Ordered(h, n + |g|)
    ensures Ordered(g + h, n)
  {
    forall i | 0 <= i < |g + h| ensures GateWithin((g + h)[i], n + i) {
      if i >= |g| { assert GateWithin(h[i - |g|], n + |g| + (i - |g|)); }
    }
  }

  lemma {:induction false} RunConcat(w: seq<int>, g: seq<Gate>, h: seq<Gate>, p: Modulus)
    requires Ordered(g, |w|) && Ordered(h, |w| + |g|)
    ensures Ordered(g + h, |w|) && Run(w, g + h, p) == Run(Run(w, g, p), h, p)
    decreases |g|
  {
    hide GateValue, GateWithin;
    OrderedConcat(g, h, |w|);
    if g == [] {
      assert g + h == h;
    } else {
      OrderedTail(g, |w|);
      RunConcat(w + [GateValue(g[0], w, p)], g[1..], h, p);
      assert (g + h)[1..] == g[1..] + h;
    }
  }

  /** The row that pins wire n to the gate's value: n * 1 = form, or x * y = n. */
  function ConstraintOf(g: Gate, n: nat): Constraint {
    match g
    case Linear(f) => Constraint([(n, 1)], [(0, 1)], f)
    case Product(x, y) => Constraint([(x, 1)], [(y, 1)], [(n, 1)])
  }

  /** All rows of a circuit whose first fresh wire is n hold of z. */
  ghost predicate AllHold(gates: seq<Gate>, n: nat, z: seq<int>, p: Modulus) {
    forall i :: 0 <= i < |gates| ==> Holds(ConstraintOf(gates[i], n + i), z, p)
  }

  /** The row of a gate holds exactly when its wire carries the gate's value. */
  lemma GateRow(g: Gate, z: seq<int>, n: nat, p: Modulus)
    requires GateWithin(g, n) && n < |z| && Cong(z[0], 1, p)
    ensures Holds(ConstraintOf(g, n), z, p) <==> Cong(z[n], GateValue(g, z[..n], p), p)
  {
    hide Cong;
    WireValue(n, z);
    WireValue(0, z);
    match g {
      case Linear(f) =>
        FormPrefix(f, z[..n], z);
        var v := FormValue(f, z);
        CongRefl(z[n], p);
        CongMul(z[n], z[n], z[0], 1, p);
        CongMod(v, p);
        if Cong(z[n] * z[0], v, p) {
          CongSym(z[n] * z[0], z[n], p);
          CongTrans(z[n], z[n] * z[0], v, p);
          CongTrans(z[n], v, v % p, p);
        }
        if Cong(z[n], v % p, p) {
          CongTrans(z[n], v % p, v, p);
          CongTrans(z[n] * z[0], z[n], v, p);
        }
      case Product(x, y) =>
        WireValue(x, z);
        WireValue(y, z);
        var v := z[x] * z[y];
        CongMod(v, p);
        if Cong(v, z[n], p) {
          CongSym(v, z[n], p);
          CongTrans(z[n], v, v % p, p);
        }
        if Cong(z[n], v % p, p) {
          CongTrans(z[n], v % p, v, p);
          CongSym(z[n], v, p);
        }
    }
  }

  /** A product row, spelled out: wire x times wire y is wire n. */
  lemma ProductRowHolds(x: nat, y: nat, n: nat, z: seq<int>, p: Modulus)
    requires x < |z| && y < |z| && n < |z|
    ensures Holds(Constraint([(x, 1)], [(y, 1)], [(n, 1)]), z, p) <==> (z[x] * z[y] - z[n]) % p == 0
  {
    WireValue(x, z);
    WireValue(y, z);
    WireValue(n, z);
  }

  /** z carries the values of w on the wires from n up to |w|. */
  ghost predicate Agree(z: seq<int>, w: seq<int>, n: nat, p: Modulus) {
    |w| <= |z| && forall i :: n <= i < |w| ==> Cong(z[i], w[i], p)
  }

  /** The rows of a circuit force every wire: they hold of z exactly when z continues its first n
      wires as the run of the circuit does. */
  lemma {:induction false} RowsForce(gates: seq<Gate>, n: nat, z: seq<int>, p: Modulus)
    requires Ordered(gates, n) && 0 < n && n + |gates| <= |z| && Cong(z[0], 1, p)
    ensures AllHold(gates, n, z, p) <==> Agree(z, Run(z[..n], gates, p), n, p)
    decreases |gates|
  {
    hide Cong, Holds, Run, ConstraintOf, AllHold, Ordered, GateValue, Agree;
    if |gates| > 0 {
      var m := |gates| - 1;
      var init, last := gates[..m], gates[m];
      assert gates == init + [last];
      OrderedSplit(init, last, n);
      var w := Run(z[..n], init, p);
      RowsForce(init, n, z, p);
      GateRow(last, z, n + m, p);
      RunConcat(z[..n], init, [last], p);
      RunOne(w, last, p);
      AllHoldLast(init, last, n, z, p);
      AgreeLast(z, w, GateValue(last, w, p), n, p);
      if Agree(z, w, n, p) { SameGateValue(last, z, w, n, p); }
    } else {
      NothingToHold(gates, n, z, p);
    }
  }

  lemma NothingToHold(gates: seq<Gate>, n: nat, z: seq<int>, p: Modulus)
    requires gates == [] && n <= |z|
    ensures Ordered(gates, n) && AllHold(gates, n, z, p) && Agree(z, Run(z[..n], gates, p), n, p)
  {
  }

  lemma AgreeLast(z: seq<int>, w: seq<int>, v: int, n: nat, p: Modulus)
    requires n <= |w| < |z|
    ensures Agree(z, w + [v], n, p) <==> Agree(z, w, n, p) && Cong(z[|w|], v, p)
  {
    hide Cong;
    var y := w + [v];
    assert y[|w|] == v;
    assert forall i :: n <= i < |w| ==> y[i] == w[i];
  }

  lemma OrderedSplit(init: seq<Gate>, last: Gate, n: nat)
    requires Ordered(init + [last], n)
    ensures Ordered(init, n) && GateWithin(last, n + |init|) && Ordered([last], n + |init|)
  {
    var all := init + [last];
    assert GateWithin(all[|init|], n + |init|);
    forall i | 0 <= i < |init| ensures GateWithin(init[i], n + i) {
      assert GateWithin(all[i], n + i);
    }
  }

  lemma AllHoldLast(init: seq<Gate>, last: Gate, n: nat, z: seq<int>, p: Modulus)
    ensures AllHold(init + [last], n, z, p) <==>
            AllHold(init, n, z, p) && Holds(ConstraintOf(last, n + |init|), z, p)
  {
    hide Holds, ConstraintOf;
    var all := init + [last];
    if AllHold(all, n, z, p) {
      assert Holds(ConstraintOf(all[|init|], n + |init|), z, p);
      forall i | 0 <= i < |init| ensures Holds(ConstraintOf(init[i], n + i), z, p) {
        assert Holds(ConstraintOf(all[i], n + i), z, p);
      }
    }
  }

  lemma RunOne(w: seq<int>, g: Gate, p: Modulus)
    requires Ordered([g], |w|) && GateWithin(g, |w|)
    ensures Run(w, [g], p) == w + [GateValue(g, w, p)]
  {
    assert [g][1..] == [];
  }

  /** On assignments that agree modulo p a gate has one value. */
  lemma SameGateValue(g: Gate, z: seq<int>, w: seq<int>, n: nat, p: Modulus)
    requires n <= |w| <= |z| && GateWithin(g, |w|) && z[..n] == w[..n] && Agree(z, w, n, p)
    ensures GateValue(g, z[..|w|], p) == GateValue(g, w, p)
  {
    hide Cong;
    var y := z[..|w|];
    forall i | 0 <= i < |w| ensures Cong(y[i], w[i], p) {
      if i < n {
        assert z[..n][i] == w[..n][i];
        CongRefl(y[i], p);
      }
    }
    match g {
      case Linear(f) =>
        FormCong(f, y, w, p);
        CongToMod(FormValue(f, y), FormValue(f, w), p);
      case Product(i, j) =>
        CongMul(y[i], w[i], y[j], w[j], p);
        CongToMod(y[i] * y[j], w[i] * w[j], p);
    }
  }

  /** The run of a circuit satisfies its rows. */
  lemma RunSatisfies(w: seq<int>, gates: seq<Gate>, p: Modulus)
    requires Ordered(gates, |w|) && w != [] && Cong(w[0], 1, p)
    ensures AllHold(gates, |w|, Run(w, gates, p), p)
  {
    hide Cong, Run, AllHold, Ordered;
    var z := Run(w, gates, p);
    assert z[0] == z[..|w|][0];
    forall i | |w| <= i < |z| ensures Cong(z[i], z[i], p) {
      CongRefl(z[i], p);
    }
    RowsForce(gates, |w|, z, p);
  }
}
