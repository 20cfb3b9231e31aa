/** Matrix products as constraint rows: one product row per (i, j, k), one sum row per (i, j). */
module Gemm {
  import opened Congruence
  import opened FieldOps
  import opened R1cs
  import opened ConstraintBuilder
  import opened ConstraintLists

  /** Dimensions and the first wires of A, B, C and the products. */
  datatype Circuit = Circuit(rows: nat, cols: nat, inner: nat, a: nat, b: nat, c: nat, p: nat)

  function Layout(v: nat, rows: nat, cols: nat, inner: nat): Circuit {
    var b := v + rows * inner;
    var c := b + inner * cols;
    Circuit(rows, cols, inner, v, b, c, c + rows * cols)
  }

  /** The offsets are those of the layout. */
  predicate IsLayout(G: Circuit) {
    G == Layout(G.a, G.rows, G.cols, G.inner) && G.a > 0
  }

  function AVar(G: Circuit, i: nat, k: nat): nat { G.a + i * G.inner + k }

  function BVar(G: Circuit, k: nat, j: nat): nat { G.b + k * G.cols + j }

  function CVar(G: Circuit, i: nat, j: nat): nat { G.c + i * G.cols + j }

  function PVar(G: Circuit, i: nat, j: nat, k: nat): nat { G.p + (i * G.cols + j) * G.inner + k }

  function Vars(G: Circuit): nat { G.p + G.rows * G.cols * G.inner }

  // ------------------------------------------------------------ flat indices

  /** i * n + j runs through m * n values. */
  lemma FlatBound(i: nat, j: nat, m: nat, n: nat)
    requires i < m && j < n
    ensures i * n + j < m * n
  {
    assert (i + 1) * n <= m * n by { MulMonotone(i + 1, m, n); }
    assert (i + 1) * n == i * n + n;
  }

  lemma MulMonotone(x: nat, y: nat, n: nat)
    requires x <= y
    ensures x * n <= y * n
  {
    assert (y - x) * n >= 0;
    assert y * n == x * n + (y - x) * n;
  }

  /** The row and column of a flat index. */
  lemma FlatDecode(i: nat, j: nat, n: nat)
    requires j < n
    ensures (i * n + j) / n == i && (i * n + j) % n == j
  {
    CongIntro(i * n + j, j, i, n);
    CongSym(i * n + j, j, n);
    CongResidue(j, i * n + j, n);
    var q := (i * n + j) / n;
    assert i * n + j == n * q + j;
    assert n * (i - q) == 0;
  }

  lemma Offsets(G: Circuit)
    requires IsLayout(G)
    ensures 0 < G.a <= G.b <= G.c <= G.p <= Vars(G)
  {
    assert G.rows * G.cols * G.inner >= 0;
  }

  lemma VarBounds(G: Circuit, i: nat, j: nat, k: nat)
    requires IsLayout(G) && i < G.rows && j < G.cols && k < G.inner
    ensures AVar(G, i, k) < G.b && BVar(G, k, j) < G.c && CVar(G, i, j) < G.p && PVar(G, i, j, k) < Vars(G)
    ensures 0 < G.a <= G.b <= G.c <= G.p
  {
    FlatBound(i, k, G.rows, G.inner);
    FlatBound(k, j, G.inner, G.cols);
    FlatBound(i, j, G.rows, G.cols);
    FlatBound(i * G.cols + j, k, G.rows * G.cols, G.inner);
  }

  lemma CellBounds(G: Circuit, i: nat, j: nat)
    requires IsLayout(G) && i < G.rows && j < G.cols
    ensures CVar(G, i, j) < G.p <= Vars(G) && 0 < G.a <= G.b <= G.c <= G.p
  {
    hide Vars;
    FlatBound(i, j, G.rows, G.cols);
    Offsets(G);
  }

  // ---------------------------------------------------------------- the rows

  function ProductRow(G: Circuit, i: nat, j: nat, k: nat): Constraint {
    Constraint([(AVar(G, i, k), 1)], [(BVar(G, k, j), 1)], [(PVar(G, i, j, k), 1)])
  }

  /** The first k products of a cell. */
  function SumTerms(G: Circuit, i: nat, j: nat, k: nat): (f: seq<Term>)
    ensures |f| == k
  {
    if k == 0 then [] else SumTerms(G, i, j, k - 1) + [(PVar(G, i, j, k - 1), 1)]
  }

  function SumRow(G: Circuit, i: nat, j: nat): Constraint {
    Constraint([(CVar(G, i, j), 1)], [(0, 1)], SumTerms(G, i, j, G.inner))
  }

  function CellProducts(G: Circuit, i: nat, j: nat, k: nat): (ks: seq<Constraint>)
    ensures |ks| == k
  {
    if k == 0 then [] else CellProducts(G, i, j, k - 1) + [ProductRow(G, i, j, k - 1)]
  }

  function CellRows(G: Circuit, i: nat, j: nat): (ks: seq<Constraint>)
    ensures |ks| == G.inner + 1
  {
    CellProducts(G, i, j, G.inner) + [SumRow(G, i, j)]
  }

  function RowCells(G: Circuit, i: nat, j: nat): (ks: seq<Constraint>)
    ensures |ks| == j * (G.inner + 1)
  {
    if j == 0 then []
    else
      assert (j - 1) * (G.inner + 1) + (G.inner + 1) == j * (G.inner + 1);
      RowCells(G, i, j - 1) + CellRows(G, i, j - 1)
  }

  function GemmRows(G: Circuit, i: nat): (ks: seq<Constraint>)
    ensures |ks| == i * (G.cols * (G.inner + 1))
  {
    if i == 0 then []
    else
      assert (i - 1) * (G.cols * (G.inner + 1)) + G.cols * (G.inner + 1) == i * (G.cols * (G.inner + 1));
      GemmRows(G, i - 1) + RowCells(G, i - 1, G.cols)
  }

  // ----------------------------------------------------- what the rows say

  ghost predicate ProductHolds(G: Circuit, i: nat, j: nat, k: nat, z: seq<int>, p: Modulus)
    requires IsLayout(G) && i < G.rows && j < G.cols && k < G.inner && Vars(G) <= |z|
  {
    hide AVar, BVar, PVar, Vars, IsLayout;
    VarBounds(G, i, j, k);
    Offsets(G);
    Cong(z[AVar(G, i, k)] * z[BVar(G, k, j)], z[PVar(G, i, j, k)], p)
  }

  /** The sum of the first k product wires of a cell. */
  function ProductSum(G: Circuit, i: nat, j: nat, k: nat, z: seq<int>): int
    requires IsLayout(G) && i < G.rows && j < G.cols && k <= G.inner && Vars(G) <= |z|
  {
    if k == 0 then 0
    else
      VarBounds(G, i, j, k - 1);
      ProductSum(G, i, j, k - 1, z) + z[PVar(G, i, j, k - 1)]
  }

  ghost predicate CellHolds(G: Circuit, i: nat, j: nat, z: seq<int>, p: Modulus)
    requires IsLayout(G) && i < G.rows && j < G.cols && Vars(G) <= |z|
  {
    && (forall k :: 0 <= k < G.inner ==> ProductHolds(G, i, j, k, z, p))
    && (CellBounds(G, i, j); Cong(z[CVar(G, i, j)], ProductSum(G, i, j, G.inner, z), p))
  }

  lemma {:induction false} SumTermsValue(G: Circuit, i: nat, j: nat, k: nat, z: seq<int>)
    requires IsLayout(G) && i < G.rows && j < G.cols && k <= G.inner && Vars(G) <= |z|
    ensures Below(SumTerms(G, i, j, k), |z|) && FormValue(SumTerms(G, i, j, k), z) == ProductSum(G, i, j, k, z)
  {
    if k > 0 {
      SumTermsValue(G, i, j, k - 1, z);
      VarBounds(G, i, j, k - 1);
      FormAppend(SumTerms(G, i, j, k - 1), (PVar(G, i, j, k - 1), 1), z);
    }
  }

  lemma ProductRowHolds(G: Circuit, i: nat, j: nat, k: nat, z: seq<int>, p: Modulus)
    requires IsLayout(G) && i < G.rows && j < G.cols && k < G.inner && Vars(G) <= |z|
    ensures Holds(ProductRow(G, i, j, k), z, p) <==> ProductHolds(G, i, j, k, z, p)
  {
    hide Cong, AVar, BVar, PVar, CVar, Vars, IsLayout;
    VarBounds(G, i, j, k);
    Offsets(G);
    WireValue(AVar(G, i, k), z);
    WireValue(BVar(G, k, j), z);
    WireValue(PVar(G, i, j, k), z);
  }

  lemma SumRowHolds(G: Circuit, i: nat, j: nat, z: seq<int>, p: Modulus)
    requires IsLayout(G) && i < G.rows && j < G.cols && Vars(G) <= |z| && Cong(z[0], 1, p)
    ensures CVar(G, i, j) < |z|
    ensures Holds(SumRow(G, i, j), z, p) <==> Cong(z[CVar(G, i, j)], ProductSum(G, i, j, G.inner, z), p)
  {
    hide Cong, SumTerms, CVar, ProductSum, IsLayout;
    CellBounds(G, i, j);
    WireValue(CVar(G, i, j), z);
    WireValue(0, z);
    SumTermsValue(G, i, j, G.inner, z);
    var c, v := z[CVar(G, i, j)], ProductSum(G, i, j, G.inner, z);
    CongRefl(c, p);
    CongMul(c, c, z[0], 1, p);
    CongSym(c * z[0], c, p);
    if Cong(c * z[0], v, p) { CongTrans(c, c * z[0], v, p); }
    if Cong(c, v, p) { CongTrans(c * z[0], c, v, p); }
  }

  lemma {:induction false} CellProductsHold(G: Circuit, i: nat, j: nat, k: nat, z: seq<int>, p: Modulus)
    requires IsLayout(G) && i < G.rows && j < G.cols && k <= G.inner && Vars(G) <= |z|
    ensures ListHolds(CellProducts(G, i, j, k), z, p) <==> forall l :: 0 <= l < k ==> ProductHolds(G, i, j, l, z, p)
  {
    hide Holds, ProductHolds, ProductRow, ListHolds, IsLayout;
    if k == 0 {
      ListNone(z, p);
    } else {
      CellProductsHold(G, i, j, k - 1, z, p);
      ProductRowHolds(G, i, j, k - 1, z, p);
      ListConcat(CellProducts(G, i, j, k - 1), [ProductRow(G, i, j, k - 1)], z, p);
      ListOne(ProductRow(G, i, j, k - 1), z, p);
    }
  }

  lemma CellRowsHold(G: Circuit, i: nat, j: nat, z: seq<int>, p: Modulus)
    requires IsLayout(G) && i < G.rows && j < G.cols && Vars(G) <= |z| && z != [] && Cong(z[0], 1, p)
    ensures ListHolds(CellRows(G, i, j), z, p) <==> CellHolds(G, i, j, z, p)
  {
    hide Holds, ProductHolds, SumRow, CellProducts, ListHolds, Cong, ProductSum, IsLayout;
    CellProductsHold(G, i, j, G.inner, z, p);
    SumRowHolds(G, i, j, z, p);
    ListConcat(CellProducts(G, i, j, G.inner), [SumRow(G, i, j)], z, p);
    ListOne(SumRow(G, i, j), z, p);
  }

  lemma {:induction false} RowCellsHold(G: Circuit, i: nat, j: nat, z: seq<int>, p: Modulus)
    requires IsLayout(G) && i < G.rows && j <= G.cols && Vars(G) <= |z| && z != [] && Cong(z[0], 1, p)
    ensures ListHolds(RowCells(G, i, j), z, p) <==> forall l :: 0 <= l < j ==> CellHolds(G, i, l, z, p)
  {
    hide CellHolds, CellRows, ListHolds, Cong, IsLayout;
    if j == 0 {
      ListNone(z, p);
    } else {
      RowCellsHold(G, i, j - 1, z, p);
      CellRowsHold(G, i, j - 1, z, p);
      ListConcat(RowCells(G, i, j - 1), CellRows(G, i, j - 1), z, p);
    }
  }

  /** All rows hold of z exactly when every cell holds. */
  lemma {:induction false} GemmRowsHold(G: Circuit, i: nat, z: seq<int>, p: Modulus)
    requires IsLayout(G) && i <= G.rows && Vars(G) <= |z| && z != [] && Cong(z[0], 1, p)
    ensures ListHolds(GemmRows(G, i), z, p) <==>
            forall l, j :: 0 <= l < i && 0 <= j < G.cols ==> CellHolds(G, l, j, z, p)
  {
    hide CellHolds, RowCells, ListHolds, Cong, IsLayout;
    if i == 0 {
      ListNone(z, p);
    } else {
      GemmRowsHold(G, i - 1, z, p);
      RowCellsHold(G, i - 1, G.cols, z, p);
      ListConcat(GemmRows(G, i - 1), RowCells(G, i - 1, G.cols), z, p);
    }
  }

  // ------------------------------------------------------------ the product

  /** The first k summands of entry (i, j) of A x B, read from the wires. */
  function Entry(G: Circuit, i: nat, j: nat, k: nat, z: seq<int>): int
    requires IsLayout(G) && i < G.rows && j < G.cols && k <= G.inner && G.c <= |z|
  {
    if k == 0 then 0
    else
      VarBounds(G, i, j, k - 1);
      Entry(G, i, j, k - 1, z) + z[AVar(G, i, k - 1)] * z[BVar(G, k - 1, j)]
  }

  /** The C wires carry A x B. */
  ghost predicate IsProduct(G: Circuit, z: seq<int>, p: Modulus)
    requires IsLayout(G) && G.p <= |z|
  {
    forall i, j :: 0 <= i < G.rows && 0 <= j < G.cols ==> EntryIs(G, i, j, z, p)
  }

  ghost predicate EntryIs(G: Circuit, i: nat, j: nat, z: seq<int>, p: Modulus)
    requires IsLayout(G) && i < G.rows && j < G.cols && G.p <= |z|
  {
    CellBounds(G, i, j);
    Cong(z[CVar(G, i, j)], Entry(G, i, j, G.inner, z), p)
  }

  /** When the product rows of a cell hold its product wires add up to the entry. */
  lemma {:induction false} SumIsEntry(G: Circuit, i: nat, j: nat, k: nat, z: seq<int>, p: Modulus)
    requires IsLayout(G) && i < G.rows && j < G.cols && k <= G.inner && Vars(G) <= |z| && G.c <= |z|
    requires forall l :: 0 <= l < G.inner ==> ProductHolds(G, i, j, l, z, p)
    ensures Cong(Entry(G, i, j, k, z), ProductSum(G, i, j, k, z), p)
  {
    hide Cong, AVar, BVar, PVar, IsLayout, Vars;
    if k == 0 {
      CongRefl(0, p);
    } else {
      SumIsEntry(G, i, j, k - 1, z, p);
      VarBounds(G, i, j, k - 1);
      assert ProductHolds(G, i, j, k - 1, z, p);
      CongAdd(Entry(G, i, j, k - 1, z), ProductSum(G, i, j, k - 1, z),
              z[AVar(G, i, k - 1)] * z[BVar(G, k - 1, j)], z[PVar(G, i, j, k - 1)], p);
    }
  }

  lemma SatisfiedCell(G: Circuit, i: nat, j: nat, z: seq<int>, p: Modulus)
    requires IsLayout(G) && i < G.rows && j < G.cols && Vars(G) <= |z| && CellHolds(G, i, j, z, p)
    ensures forall l :: 0 <= l < G.inner ==> ProductHolds(G, i, j, l, z, p)
  {
  }

  /** A satisfied cell carries its entry. */
  lemma CellEntry(G: Circuit, i: nat, j: nat, z: seq<int>, p: Modulus)
    requires IsLayout(G) && i < G.rows && j < G.cols && Vars(G) <= |z| && G.p <= |z|
    requires forall l :: 0 <= l < G.inner ==> ProductHolds(G, i, j, l, z, p)
    ensures CellHolds(G, i, j, z, p) <==> EntryIs(G, i, j, z, p)
  {
    hide Cong, Entry, ProductSum, ProductHolds, IsLayout, CVar;
    CellBounds(G, i, j);
    SumIsEntry(G, i, j, G.inner, z, p);
    var c, e, s := z[CVar(G, i, j)], Entry(G, i, j, G.inner, z), ProductSum(G, i, j, G.inner, z);
    CongSym(e, s, p);
    if Cong(c, e, p) { CongTrans(c, e, s, p); }
    if Cong(c, s, p) { CongTrans(c, s, e, p); }
  }

  // ------------------------------------------------------- the product witness

  lemma FlatCell(G: Circuit, q: nat)
    requires q < G.rows * G.cols * G.inner
    ensures G.inner > 0 && G.cols > 0 && 0 <= q / G.inner / G.cols < G.rows
  {
    QuotientBelow(q, G.rows * G.cols, G.inner);
    QuotientBelow(q / G.inner, G.rows, G.cols);
  }

  lemma QuotientRange(q: nat, m: nat, n: nat, d: int, r: int)
    requires n > 0 && 0 <= r < n && q == d * n + r && q < m * n
    ensures 0 <= d < m
  {
    if d < 0 { MultipleBounds(d, n); }
    if d >= m { MulMonotone(m, d, n); }
  }

  lemma QuotientBelow(q: nat, m: nat, n: nat)
    requires q < m * n
    ensures n > 0 && 0 <= q / n < m
  {
    if n > 0 {
      assert q == n * (q / n) + q % n;
      QuotientRange(q, m, n, q / n, q % n);
    }
  }

  /** The row, column and step of flat position q of the product wires. */
  function RowAt(G: Circuit, q: nat): (i: nat)
    requires q < G.rows * G.cols * G.inner
    ensures i < G.rows
  {
    FlatCell(G, q);
    q / G.inner / G.cols
  }

  function ColAt(G: Circuit, q: nat): (j: nat)
    requires q < G.rows * G.cols * G.inner
    ensures j < G.cols
  {
    FlatCell(G, q);
    q / G.inner % G.cols
  }

  function StepAt(G: Circuit, q: nat): (k: nat)
    requires q < G.rows * G.cols * G.inner
    ensures k < G.inner
  {
    FlatCell(G, q);
    q % G.inner
  }

  /** The product stored at flat position q. */
  function ProductAt(G: Circuit, q: nat, z: seq<int>, p: Modulus): int
    requires IsLayout(G) && G.c <= |z| && q < G.rows * G.cols * G.inner
  {
    var i, j, k := RowAt(G, q), ColAt(G, q), StepAt(G, q);
    VarBounds(G, i, j, k);
    FMul(z[AVar(G, i, k)], z[BVar(G, k, j)], p)
  }

  /** The product wires filled in. */
  function WithProducts(G: Circuit, z: seq<int>, p: Modulus): (w: seq<int>)
    requires IsLayout(G) && |z| == G.p
    ensures |w| == Vars(G) && w[..G.p] == z
  {
    z + seq(G.rows * G.cols * G.inner, q requires 0 <= q < G.rows * G.cols * G.inner => ProductAt(G, q, z, p))
  }

  lemma ProductAtIs(G: Circuit, i: nat, j: nat, k: nat, z: seq<int>, p: Modulus)
    requires IsLayout(G) && i < G.rows && j < G.cols && k < G.inner && G.c <= |z|
    ensures var q := (i * G.cols + j) * G.inner + k;
            && 0 <= q < G.rows * G.cols * G.inner && PVar(G, i, j, k) == G.p + q
            && AVar(G, i, k) < |z| && BVar(G, k, j) < |z|
            && ProductAt(G, q, z, p) == FMul(z[AVar(G, i, k)], z[BVar(G, k, j)], p)
  {
    hide AVar, BVar, FMul, IsLayout;
    VarBounds(G, i, j, k);
    Offsets(G);
    FlatBound(i, j, G.rows, G.cols);
    FlatBound(i * G.cols + j, k, G.rows * G.cols, G.inner);
    FlatDecode(i * G.cols + j, k, G.inner);
    FlatDecode(i, j, G.cols);
  }

  lemma ProductStored(G: Circuit, q: nat, z: seq<int>, w: seq<int>, p: Modulus)
    requires IsLayout(G) && |z| == G.p && w == WithProducts(G, z, p) && q < G.rows * G.cols * G.inner && G.c <= |z|
    ensures w[G.p + q] == ProductAt(G, q, z, p)
  {
    hide ProductAt;
  }

  /** The filled assignment satisfies every product row. */
  lemma FilledProducts(G: Circuit, i: nat, j: nat, k: nat, z: seq<int>, w: seq<int>, p: Modulus)
    requires IsLayout(G) && i < G.rows && j < G.cols && k < G.inner && |z| == G.p && w == WithProducts(G, z, p)
    ensures ProductHolds(G, i, j, k, w, p)
  {
    hide Cong, ProductAt, AVar, BVar, PVar, Vars, IsLayout;
    VarBounds(G, i, j, k);
    Offsets(G);
    ProductAtIs(G, i, j, k, z, p);
    var a, b := AVar(G, i, k), BVar(G, k, j);
    assert w[a] == w[..G.p][a] && w[b] == w[..G.p][b];
    ProductStored(G, (i * G.cols + j) * G.inner + k, z, w, p);
    CongMod(w[a] * w[b], p);
  }

  /** Reads below the product wires do not see them. */
  lemma {:induction false} EntryPrefix(G: Circuit, i: nat, j: nat, k: nat, z: seq<int>, w: seq<int>)
    requires IsLayout(G) && i < G.rows && j < G.cols && k <= G.inner && G.p == |z| <= |w| && w[..G.p] == z
    requires G.c <= G.p
    ensures Entry(G, i, j, k, w) == Entry(G, i, j, k, z)
  {
    if k > 0 {
      EntryPrefix(G, i, j, k - 1, z, w);
      VarBounds(G, i, j, k - 1);
      var a, b := AVar(G, i, k - 1), BVar(G, k - 1, j);
      assert w[a] == w[..G.p][a] && w[b] == w[..G.p][b];
    }
  }

  lemma EntryIsPrefix(G: Circuit, i: nat, j: nat, z: seq<int>, w: seq<int>, p: Modulus)
    requires IsLayout(G) && i < G.rows && j < G.cols && G.p == |z| <= |w| && w[..G.p] == z
    ensures EntryIs(G, i, j, w, p) <==> EntryIs(G, i, j, z, p)
  {
    CellBounds(G, i, j);
    EntryPrefix(G, i, j, G.inner, z, w);
    assert w[CVar(G, i, j)] == w[..G.p][CVar(G, i, j)];
  }

  /** w continues z with values of the product wires and satisfies all rows. */
  ghost predicate Completes(G: Circuit, z: seq<int>, w: seq<int>, p: Modulus)
    requires G.p <= Vars(G)
  {
    |w| == Vars(G) && w[..G.p] == z && ListHolds(GemmRows(G, G.rows), w, p)
  }

  /** Some values of the product wires satisfy all rows exactly when C = A x B. */
  lemma GemmExact(G: Circuit, z: seq<int>, p: Modulus)
    requires IsLayout(G) && |z| == G.p && z != [] && z[0] == 1
    ensures G.p <= Vars(G) && ((exists w :: Completes(G, z, w, p)) <==> IsProduct(G, z, p))
  {
    hide Cong, ListHolds, GemmRows, IsProduct, IsLayout, WithProducts;
    Offsets(G);
    var w := WithProducts(G, z, p);
    FilledRows(G, z, w, p);
    if IsProduct(G, z, p) { assert Completes(G, z, w, p); }
    if y :| Completes(G, z, y, p) {
      SatisfiedProduct(G, z, y, p);
    }
  }

  lemma FilledRows(G: Circuit, z: seq<int>, w: seq<int>, p: Modulus)
    requires IsLayout(G) && |z| == G.p && z != [] && z[0] == 1 && w == WithProducts(G, z, p)
    ensures ListHolds(GemmRows(G, G.rows), w, p) <==> IsProduct(G, z, p)
  {
    hide Cong, ListHolds, GemmRows, EntryIs, ProductHolds, IsLayout, WithProducts, CellHolds;
    CongRefl(1, p);
    Offsets(G);
    assert w[0] == w[..G.p][0];
    GemmRowsHold(G, G.rows, w, p);
    forall i, j | 0 <= i < G.rows && 0 <= j < G.cols
      ensures CellHolds(G, i, j, w, p) <==> EntryIs(G, i, j, z, p)
    {
      forall k | 0 <= k < G.inner ensures ProductHolds(G, i, j, k, w, p) {
        FilledProducts(G, i, j, k, z, w, p);
      }
      CellEntry(G, i, j, w, p);
      EntryIsPrefix(G, i, j, z, w, p);
    }
  }

  /** Any satisfying assignment carries A x B on its C wires. */
  lemma SatisfiedProduct(G: Circuit, z: seq<int>, y: seq<int>, p: Modulus)
    requires IsLayout(G) && |z| == G.p && |y| == Vars(G) && G.p <= |y| && y[..G.p] == z && z != [] && z[0] == 1
    requires ListHolds(GemmRows(G, G.rows), y, p)
    ensures IsProduct(G, z, p)
  {
    hide Cong, ListHolds, GemmRows, EntryIs, ProductHolds, IsLayout;
    CongRefl(1, p);
    Offsets(G);
    assert y[0] == y[..G.p][0];
    GemmRowsHold(G, G.rows, y, p);
    forall i, j | 0 <= i < G.rows && 0 <= j < G.cols ensures EntryIs(G, i, j, z, p) {
      SatisfiedCell(G, i, j, y, p);
      CellEntry(G, i, j, y, p);
      EntryIsPrefix(G, i, j, z, y, p);
    }
  }
}
