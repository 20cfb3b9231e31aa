/** Products of matrices given flat in row-major order, without wires: what the constraint system and
    its witness are measured against. */
module MatrixProduct {
  import opened Congruence
  import opened Gemm

  lemma FlatIndex(i: nat, j: nat, m: nat, n: nat)
    requires i < m && j < n
    ensures i * n + j < m * n
  {
    FlatBound(i, j, m, n);
  }

  /** The first k summands of entry (i, j): x is rows by inner, y is inner by cols. */
  function MatEntry(x: seq<int>, y: seq<int>, i: nat, j: nat, k: nat, rows: nat, inner: nat, cols: nat): int
    requires |x| == rows * inner && |y| == inner * cols && i < rows && j < cols && k <= inner
  {
    if k == 0 then 0
    else
      FlatIndex(i, k - 1, rows, inner);
      FlatIndex(k - 1, j, inner, cols);
      MatEntry(x, y, i, j, k - 1, rows, inner, cols) + x[i * inner + (k - 1)] * y[(k - 1) * cols + j]
  }

  /** c is x times y, modulo p. */
  ghost predicate IsMatProduct(x: seq<int>, y: seq<int>, c: seq<int>, rows: nat, inner: nat, cols: nat, p: Modulus)
    requires |x| == rows * inner && |y| == inner * cols && |c| == rows * cols
  {
    forall i, j :: 0 <= i < rows && 0 <= j < cols ==> CellIs(x, y, c, i, j, rows, inner, cols, p)
  }

  ghost predicate CellIs(x: seq<int>, y: seq<int>, c: seq<int>, i: nat, j: nat, rows: nat, inner: nat, cols: nat, p: Modulus)
    requires |x| == rows * inner && |y| == inner * cols && |c| == rows * cols && i < rows && j < cols
  {
    FlatIndex(i, j, rows, cols);
    Cong(c[i * cols + j], MatEntry(x, y, i, j, inner, rows, inner, cols), p)
  }

  // ------------------------------------------------------------ known answers

  lemma KnownEntry(x: seq<int>, y: seq<int>, i: nat, j: nat)
    requires x == [1, 2, 3, 4, 5, 6, 7, 8, 9] && y == [9, 8, 7, 6, 5, 4, 3, 2, 1] && i < 3 && j < 3
    ensures MatEntry(x, y, i, j, 3, 3, 3, 3) == [30, 24, 18, 84, 69, 54, 138, 114, 90][i * 3 + j]
  {
    assert MatEntry(x, y, i, j, 0, 3, 3, 3) == 0;
    assert MatEntry(x, y, i, j, 1, 3, 3, 3) == x[i * 3] * y[j];
    assert MatEntry(x, y, i, j, 2, 3, 3, 3) == x[i * 3] * y[j] + x[i * 3 + 1] * y[3 + j];
    assert MatEntry(x, y, i, j, 3, 3, 3, 3) == x[i * 3] * y[j] + x[i * 3 + 1] * y[3 + j] + x[i * 3 + 2] * y[6 + j];
    KnownSum(x, y, i, j);
  }

  lemma KnownSum(x: seq<int>, y: seq<int>, i: nat, j: nat)
    requires x == [1, 2, 3, 4, 5, 6, 7, 8, 9] && y == [9, 8, 7, 6, 5, 4, 3, 2, 1] && i < 3 && j < 3
    ensures x[i * 3] * y[j] + x[i * 3 + 1] * y[3 + j] + x[i * 3 + 2] * y[6 + j] ==
            [30, 24, 18, 84, 69, 54, 138, 114, 90][i * 3 + j]
  {
    if i == 0 {
      assert j == 0 || j == 1 || j == 2;
    } else if i == 1 {
      assert j == 0 || j == 1 || j == 2;
    } else {
      assert j == 0 || j == 1 || j == 2;
    }
  }

  /** A product that is not square: 1 by 2 times 2 by 3. */
  lemma KnownRow(x: seq<int>, y: seq<int>, j: nat)
    requires x == [1, 2] && y == [3, 4, 5, 6, 7, 8] && j < 3
    ensures MatEntry(x, y, 0, j, 2, 1, 2, 3) == [15, 18, 21][j]
  {
    assert MatEntry(x, y, 0, j, 0, 1, 2, 3) == 0;
    assert MatEntry(x, y, 0, j, 1, 1, 2, 3) == x[0] * y[j];
    assert MatEntry(x, y, 0, j, 2, 1, 2, 3) == x[0] * y[j] + x[1] * y[3 + j];
    assert j == 0 || j == 1 || j == 2;
  }

  // ------------------------------------------------------------- on the wires

  /** The matrices of a circuit as slices of an assignment. */
  lemma Spans(G: Circuit)
    requires IsLayout(G)
    ensures 0 < G.a <= G.b <= G.c <= G.p
    ensures G.b - G.a == G.rows * G.inner && G.c - G.b == G.inner * G.cols && G.p - G.c == G.rows * G.cols
  {
  }

  lemma StepIsMat(G: Circuit, i: nat, j: nat, k: nat, z: seq<int>)
    requires IsLayout(G) && i < G.rows && j < G.cols && k < G.inner && 0 < G.a <= G.b <= G.c <= |z|
    requires G.b - G.a == G.rows * G.inner && G.c - G.b == G.inner * G.cols
    ensures AVar(G, i, k) < |z| && BVar(G, k, j) < |z|
    ensures 0 <= i * G.inner + k < G.b - G.a && 0 <= k * G.cols + j < G.c - G.b
    ensures z[AVar(G, i, k)] == z[G.a..G.b][i * G.inner + k] && z[BVar(G, k, j)] == z[G.b..G.c][k * G.cols + j]
  {
    hide IsLayout;
    FlatIndex(i, k, G.rows, G.inner);
    FlatIndex(k, j, G.inner, G.cols);
    SliceAt(z, G.a, G.b, i * G.inner + k);
    SliceAt(z, G.b, G.c, k * G.cols + j);
  }

  lemma {:induction false} EntryIsMat(G: Circuit, i: nat, j: nat, k: nat, z: seq<int>)
    requires IsLayout(G) && i < G.rows && j < G.cols && k <= G.inner && 0 < G.a <= G.b <= G.c <= |z|
    requires G.b - G.a == G.rows * G.inner && G.c - G.b == G.inner * G.cols
    ensures Entry(G, i, j, k, z) == MatEntry(z[G.a..G.b], z[G.b..G.c], i, j, k, G.rows, G.inner, G.cols)
  {
    hide IsLayout, AVar, BVar;
    if k > 0 {
      EntryIsMat(G, i, j, k - 1, z);
      StepIsMat(G, i, j, k - 1, z);
    }
  }

  lemma SliceAt(z: seq<int>, a: nat, b: nat, i: nat)
    requires a <= b <= |z| && i < b - a
    ensures z[a..b][i] == z[a + i]
  {
  }

  /** The C wires carry A x B in the sense of the constraint system exactly when they are the product of
      the two slices before them. */
  lemma ProductMeans(G: Circuit, z: seq<int>, p: Modulus)
    requires IsLayout(G) && G.p <= |z|
    ensures 0 < G.a <= G.b <= G.c <= G.p
    ensures G.b - G.a == G.rows * G.inner && G.c - G.b == G.inner * G.cols && G.p - G.c == G.rows * G.cols
    ensures IsProduct(G, z, p) <==> IsMatProduct(z[G.a..G.b], z[G.b..G.c], z[G.c..G.p], G.rows, G.inner, G.cols, p)
  {
    hide IsLayout, EntryIs, CellIs;
    Spans(G);
    forall i, j | 0 <= i < G.rows && 0 <= j < G.cols
      ensures EntryIs(G, i, j, z, p) <==> CellIs(z[G.a..G.b], z[G.b..G.c], z[G.c..G.p], i, j, G.rows, G.inner, G.cols, p)
    {
      CellMeans(G, i, j, z, p);
    }
  }

  lemma CellMeans(G: Circuit, i: nat, j: nat, z: seq<int>, p: Modulus)
    requires IsLayout(G) && i < G.rows && j < G.cols && 0 < G.a <= G.b <= G.c <= G.p <= |z|
    requires G.b - G.a == G.rows * G.inner && G.c - G.b == G.inner * G.cols && G.p - G.c == G.rows * G.cols
    ensures EntryIs(G, i, j, z, p) <==> CellIs(z[G.a..G.b], z[G.b..G.c], z[G.c..G.p], i, j, G.rows, G.inner, G.cols, p)
  {
    hide IsLayout, Cong, Entry, MatEntry;
    CellBounds(G, i, j);
    EntryIsMat(G, i, j, G.inner, z);
    FlatIndex(i, j, G.rows, G.cols);
    SliceAt(z, G.c, G.p, i * G.cols + j);
  }

  /** Some values of the product wires satisfy all rows exactly when the third matrix on the wires is the
      product of the first two, all three flat in row-major order. */
  lemma GemmExactFlat(G: Circuit, z: seq<int>, p: Modulus)
    requires IsLayout(G) && |z| == G.p && z != [] && z[0] == 1
    ensures G.p <= Vars(G) && 0 < G.a <= G.b <= G.c <= G.p
    ensures G.b - G.a == G.rows * G.inner && G.c - G.b == G.inner * G.cols && G.p - G.c == G.rows * G.cols
    ensures (exists w :: Completes(G, z, w, p)) <==>
            IsMatProduct(z[G.a..G.b], z[G.b..G.c], z[G.c..G.p], G.rows, G.inner, G.cols, p)
  {
    hide IsLayout, IsProduct, IsMatProduct, Completes, Vars;
    GemmExact(G, z, p);
    ProductMeans(G, z, p);
  }

  /** Product wire (i, j, k) of a filled assignment, all wires at their row-major positions. */
  lemma StoredProduct(G: Circuit, i: nat, j: nat, k: nat, a: nat, b: nat, q: nat, z: seq<int>, w: seq<int>, p: Modulus)
    requires IsLayout(G) && |z| == G.p && w == WithProducts(G, z, p) && i < G.rows && j < G.cols && k < G.inner
    requires a == G.a + i * G.inner + k && b == G.b + k * G.cols + j && q == G.p + (i * G.cols + j) * G.inner + k
    ensures a < |z| && b < |z| && q < |w| && w[q] == z[a] * z[b] % p
  {
    hide IsLayout, ProductAt, WithProducts;
    VarBounds(G, i, j, k);
    Offsets(G);
    ProductAtIs(G, i, j, k, z, p);
    ProductStored(G, (i * G.cols + j) * G.inner + k, z, w, p);
  }
}
