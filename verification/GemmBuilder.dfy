/** The nested loops that append the rows of a matrix product and the ones that fill its witness. */
module GemmBuilder {
  import opened Congruence
  import opened R1cs
  import opened ConstraintBuilder
  import opened ConstraintLists
  import opened Gemm

  function Zeros(n: nat): (s: seq<int>)
    ensures |s| == n
  {
    seq(n, _ => 0)
  }

  /** The system after some rows and some placeholder wires. */
  ghost predicate Extended(S: System, ks: seq<Constraint>, n: nat, T: System) {
    T == PushList(S, ks).(w := S.w + Zeros(n))
  }

  /** One cell: inner product rows with their placeholder wires, then the sum row. */
  method CellLoop(b: Builder, G: Circuit, i: nat, j: nat, ghost S: System, ghost ks: seq<Constraint>, ghost n: nat)
    requires Extended(S, ks, n, b.State()) && PVar(G, i, j, 0) == |b.w|
    modifies b
    ensures Extended(S, ks + CellRows(G, i, j), n + G.inner, b.State())
  {
    hide PushConstraint, Zeros, PushList;
    var products: seq<Term> := [];
    assert ks + CellProducts(G, i, j, 0) == ks;
    for k := 0 to G.inner
      invariant Extended(S, ks + CellProducts(G, i, j, k), n + k, b.State())
      invariant products == SumTerms(G, i, j, k)
      invariant |b.w| == PVar(G, i, j, k)
    {
      var pVar := |b.w|;
      ZerosSnoc(n + k);
      b.w := b.w + [0];
      assert b.w == S.w + Zeros(n + k + 1);
      b.AddQuad(AVar(G, i, k), BVar(G, k, j), pVar);
      Extend(S, ks + CellProducts(G, i, j, k), n + k + 1, ProductRow(G, i, j, k), S.w + Zeros(n + k + 1));
      assert ks + CellProducts(G, i, j, k + 1) == ks + CellProducts(G, i, j, k) + [ProductRow(G, i, j, k)];
      products := products + [(pVar, 1)];
    }
    b.PushLinear(CVar(G, i, j), products);
    Extend(S, ks + CellProducts(G, i, j, G.inner), n + G.inner, SumRow(G, i, j), S.w + Zeros(n + G.inner));
    assert ks + CellRows(G, i, j) == ks + CellProducts(G, i, j, G.inner) + [SumRow(G, i, j)];
  }

  lemma ZerosSnoc(n: nat)
    ensures Zeros(n + 1) == Zeros(n) + [0]
  {
  }

  lemma Extend(S: System, ks: seq<Constraint>, n: nat, k: Constraint, w: seq<int>)
    requires w == S.w + Zeros(n)
    ensures PushConstraint(PushList(S, ks).(w := w), k) == PushList(S, ks + [k]).(w := w)
  {
    PushListSnoc(S, ks, k);
  }

  lemma NextCell(G: Circuit, i: nat, j: nat)
    ensures PVar(G, i, j, 0) + G.inner == PVar(G, i, j + 1, 0)
    ensures PVar(G, i, G.cols, 0) == PVar(G, i + 1, 0, 0)
  {
    var t := i * G.cols + j;
    assert (t + 1) * G.inner == t * G.inner + G.inner;
    assert i * G.cols + G.cols == (i + 1) * G.cols;
  }

  lemma WiresStart(G: Circuit)
    requires IsLayout(G)
    ensures PVar(G, 0, 0, 0) == G.p && PVar(G, G.rows, 0, 0) == Vars(G)
  {
    assert 0 * G.cols == 0 && (0 * G.cols + 0) * G.inner == 0;
  }

  /** One row of cells. */
  method RowLoop(b: Builder, G: Circuit, i: nat, ghost S: System, ghost ks: seq<Constraint>, ghost n: nat) returns (ghost n': nat)
    requires Extended(S, ks, n, b.State()) && |b.w| == PVar(G, i, 0, 0)
    modifies b
    ensures Extended(S, ks + RowCells(G, i, G.cols), n', b.State()) && |b.w| == PVar(G, i + 1, 0, 0)
  {
    hide PushList, CellRows, Zeros, PVar;
    n' := n;
    assert ks + RowCells(G, i, 0) == ks;
    for j := 0 to G.cols
      invariant Extended(S, ks + RowCells(G, i, j), n', b.State()) && |b.w| == PVar(G, i, j, 0)
    {
      NextCell(G, i, j);
      CellLoop(b, G, i, j, S, ks + RowCells(G, i, j), n');
      assert ks + RowCells(G, i, j + 1) == ks + RowCells(G, i, j) + CellRows(G, i, j);
      WiresOf(S, ks + RowCells(G, i, j), n', ks + RowCells(G, i, j + 1), n' + G.inner, b.State());
      n' := n' + G.inner;
    }
    NextCell(G, i, G.cols);
  }

  lemma WiresOf(S: System, ks: seq<Constraint>, n: nat, ls: seq<Constraint>, m: nat, T: System)
    requires Extended(S, ls, m, T)
    ensures |T.w| == |S.w| + m
  {
  }

  /** Appends the circuit. Its rows, and only they, constrain the new wires: some values of the
      product wires satisfy them exactly when the C wires carry A x B. */
  method BuildGemm(b: Builder, rows: nat, cols: nat, inner: nat) returns (G: Circuit, nConstraints: nat, nVars: nat)
    requires b.w != [] && Appendable(b.State().(row := |b.A.row|))
    modifies b
    ensures G == Layout(old(|b.w|), rows, cols, inner) && IsLayout(G)
    ensures G.a == old(|b.w|) && G.b == G.a + rows * inner && G.c == G.b + inner * cols && G.p == G.c + rows * cols
    ensures nVars == G.p + rows * cols * inner
    ensures nVars == |b.w| == Vars(G) && b.w[..old(|b.w|)] == old(b.w)
    ensures nConstraints == b.row == old(|b.A.row|) + rows * (cols * (inner + 1))
    ensures Appendable(b.State())
    ensures forall i :: 0 <= i < old(|b.A.row|) ==> RowOf(b.State(), i) == old(RowOf(b.State(), i))
    ensures forall y: seq<int>, p: Modulus {:trigger ListHolds(GemmRows(G, rows), y, p)} ::
              RowsHold(b.State(), old(|b.A.row|), b.row, y, p) <==> ListHolds(GemmRows(G, rows), y, p)
  {
    hide RowOf, RowsHold, ListHolds, RowCells, PushList, PVar, Vars, IsLayout, Zeros, Appendable;
    ghost var before := b.State();
    AppendableAligned(before.(row := |b.A.row|));
    b.row := |b.A.row|;
    G := Layout(|b.w|, rows, cols, inner);
    assert IsLayout(G) by { LayoutIs(|b.w|, rows, cols, inner); }
    Offsets(G);
    b.w := b.w + Zeros(G.p - |b.w|);
    ghost var S := b.State();
    ghost var n := 0;
    ExtendedStart(S);
    WiresStart(G);
    for i := 0 to rows
      invariant Extended(S, GemmRows(G, i), n, b.State()) && |b.w| == PVar(G, i, 0, 0)
    {
      n := RowLoop(b, G, i, S, GemmRows(G, i), n);
    }
    nConstraints, nVars := b.row, |b.w|;
    assert Vars(G) == G.p + rows * cols * inner by { VarsIs(G); }
    SameMatrices(before, S);
    AppendableWires(before.(row := |before.A.row|), S);
    GemmReport(S, GemmRows(G, rows), n, b.State());
    assert b.w[..|before.w|] == before.w;
  }

  lemma VarsIs(G: Circuit)
    ensures Vars(G) == G.p + G.rows * G.cols * G.inner
  {
  }

  lemma LayoutIs(v: nat, rows: nat, cols: nat, inner: nat)
    requires v > 0
    ensures IsLayout(Layout(v, rows, cols, inner))
  {
  }

  lemma ExtendedStart(S: System)
    ensures Extended(S, [], 0, S)
  {
    assert S.w + Zeros(0) == S.w;
  }

  /** What the appended list means, whatever the placeholder wires. */
  lemma GemmReport(S: System, ks: seq<Constraint>, n: nat, T: System)
    requires Appendable(S) && Extended(S, ks, n, T)
    ensures Appendable(T) && T.row == S.row + |ks|
    ensures forall i :: 0 <= i < S.row ==> RowOf(T, i) == RowOf(S, i)
    ensures forall y: seq<int>, p: Modulus {:trigger ListHolds(ks, y, p)} ::
              RowsHold(T, S.row, T.row, y, p) <==> ListHolds(ks, y, p)
  {
    hide PushList, ListHolds;
    PushListRows(S, ks);
    var U := PushList(S, ks);
    assert forall i: nat :: RowOf(T, i) == RowOf(U, i);
    forall y: seq<int>, p: Modulus ensures RowsHold(T, S.row, T.row, y, p) <==> ListHolds(ks, y, p) {
      ListRows(S, ks, y, p);
    }
  }
}
