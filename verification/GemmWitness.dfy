/** The loops that fill the witness of a matrix product: the factors, the products, and each output
    as the sum of its own products. */
module GemmWitness {
  import opened Congruence
  import opened FieldOps
  import opened ConstraintLists
  import opened Gemm
  import opened MatrixProduct

  /** Copies x row by row into w from the given offset. */
  method FillMatrix(w: array<int>, offset: nat, x: seq<int>, m: nat, n: nat)
    requires |x| == m * n && offset + |x| <= w.Length
    modifies w
    ensures w[..offset] == old(w[..offset]) && w[offset..offset + |x|] == x
    ensures w[offset + |x|..] == old(w[offset + |x|..])
  {
    var s := 0;
    for i := 0 to m
      invariant s == i * n <= |x|
      invariant w[..offset] == old(w[..offset]) && w[offset + |x|..] == old(w[offset + |x|..])
      invariant w[offset..offset + s] == x[..s]
    {
      RowSpan(i, m, n);
      for k := 0 to n
        invariant s == i * n + k <= |x|
        invariant w[..offset] == old(w[..offset]) && w[offset + |x|..] == old(w[offset + |x|..])
        invariant w[offset..offset + s] == x[..s]
      {
        w[offset + s] := x[s];
        assert w[offset..offset + s + 1] == w[offset..offset + s] + [x[s]];
        s := s + 1;
      }
    }
  }

  lemma RowSpan(i: nat, m: nat, n: nat)
    requires i < m
    ensures i * n + n == (i + 1) * n <= m * n
  {
    MulMonotone(i + 1, m, n);
  }

  /** The first n product wires, in flat order, carry their products. */
  ghost predicate ProductsUpTo(G: Circuit, w: seq<int>, base: seq<int>, n: nat, p: Modulus)
    requires IsLayout(G) && |w| == Vars(G) && |base| == G.p && n <= G.rows * G.cols * G.inner
  {
    Offsets(G);
    forall q :: 0 <= q < n ==> w[G.p + q] == ProductAt(G, q, base, p)
  }

  method FillProducts(G: Circuit, w: array<int>, p: Modulus)
    requires IsLayout(G) && w.Length == Vars(G) && G.p <= w.Length
    modifies w
    ensures w[..] == WithProducts(G, old(w[..G.p]), p)
  {
    hide ProductAt, AVar, BVar, FMul, IsLayout;
    ghost var base := w[..G.p];
    Offsets(G);
    var n := 0;
    for i := 0 to G.rows
      invariant n == (i * G.cols + 0) * G.inner <= G.rows * G.cols * G.inner
      invariant w[..G.p] == base && ProductsUpTo(G, w[..], base, n, p)
    {
      for j := 0 to G.cols
        invariant n == (i * G.cols + j) * G.inner <= G.rows * G.cols * G.inner
        invariant w[..G.p] == base && ProductsUpTo(G, w[..], base, n, p)
      {
        CellEnd(G, i, j);
        for k := 0 to G.inner
          invariant n == (i * G.cols + j) * G.inner + k
          invariant w[..G.p] == base && ProductsUpTo(G, w[..], base, n, p)
        {
          VarBounds(G, i, j, k);
          ProductAtIs(G, i, j, k, base, p);
          assert w[AVar(G, i, k)] == base[AVar(G, i, k)] && w[BVar(G, k, j)] == base[BVar(G, k, j)];
          w[PVar(G, i, j, k)] := FMul(w[AVar(G, i, k)], w[BVar(G, k, j)], p);
          n := n + 1;
        }
      }
      CellRowEnd(G, i);
    }
    ProductsDone(G, w[..], base, n, p);
  }

  lemma CellEnd(G: Circuit, i: nat, j: nat)
    requires i < G.rows && j < G.cols
    ensures (i * G.cols + j) * G.inner + G.inner == (i * G.cols + (j + 1)) * G.inner <= G.rows * G.cols * G.inner
  {
    var t := i * G.cols + j;
    FlatBound(i, j, G.rows, G.cols);
    MulMonotone(t + 1, G.rows * G.cols, G.inner);
    assert (t + 1) * G.inner == t * G.inner + G.inner;
  }

  lemma CellRowEnd(G: Circuit, i: nat)
    requires i < G.rows
    ensures (i * G.cols + G.cols) * G.inner == ((i + 1) * G.cols + 0) * G.inner <= G.rows * G.cols * G.inner
  {
    MulMonotone(i + 1, G.rows, G.cols);
    MulMonotone((i + 1) * G.cols, G.rows * G.cols, G.inner);
    assert i * G.cols + G.cols == (i + 1) * G.cols;
  }

  lemma ProductsDone(G: Circuit, w: seq<int>, base: seq<int>, n: nat, p: Modulus)
    requires IsLayout(G) && |w| == Vars(G) && G.p <= |w| && |base| == G.p && n == G.rows * G.cols * G.inner
    requires w[..G.p] == base && ProductsUpTo(G, w, base, n, p)
    ensures w == WithProducts(G, base, p)
  {
    hide ProductAt;
    var v := WithProducts(G, base, p);
    forall t | 0 <= t < |w| ensures w[t] == v[t] {
      if t < G.p {
        assert w[t] == w[..G.p][t] && v[t] == v[..G.p][t];
      } else {
        assert w[G.p + (t - G.p)] == ProductAt(G, t - G.p, base, p);
      }
    }
  }

  /** The sum of the first k products of cell t. */
  function FlatSum(ps: seq<int>, t: nat, inner: nat, k: nat): int
    requires k <= inner && t * inner + inner <= |ps|
  {
    if k == 0 then 0 else FlatSum(ps, t, inner, k - 1) + ps[t * inner + (k - 1)]
  }

  /** cs holds the reduced sums of the cells in order. */
  ghost predicate Sums(cs: seq<int>, ps: seq<int>, inner: nat, p: Modulus) {
    forall t :: 0 <= t < |cs| ==> SumIs(cs[t], ps, t, inner, p)
  }

  ghost predicate SumIs(c: int, ps: seq<int>, t: nat, inner: nat, p: Modulus) {
    t * inner + inner <= |ps| && c == FlatSum(ps, t, inner, inner) % p
  }

  lemma {:induction false} FlatSumIs(G: Circuit, i: nat, j: nat, k: nat, t: nat, w: seq<int>)
    requires IsLayout(G) && i < G.rows && j < G.cols && k <= G.inner && |w| == Vars(G) && G.p <= |w|
    requires t == i * G.cols + j && t * G.inner + G.inner <= |w| - G.p
    ensures ProductSum(G, i, j, k, w) == FlatSum(w[G.p..], t, G.inner, k)
  {
    hide IsLayout, Vars, PVar;
    if k > 0 {
      FlatSumIs(G, i, j, k - 1, t, w);
      ProductWire(G, i, j, k - 1, t);
      var x := t * G.inner + (k - 1);
      assert w[G.p..][x] == w[G.p + x];
    }
  }

  lemma ProductWire(G: Circuit, i: nat, j: nat, k: nat, t: nat)
    requires t == i * G.cols + j
    ensures PVar(G, i, j, k) == G.p + (t * G.inner + k)
  {
  }

  /** The outputs: each the sum of its own products, in the order of the sum row. */
  method FillOutputs(G: Circuit, w: array<int>, p: Modulus)
    requires IsLayout(G) && w.Length == Vars(G) && G.p <= w.Length && G.c + G.rows * G.cols == G.p
    modifies w
    ensures w[..G.c] == old(w[..G.c]) && w[G.p..] == old(w[G.p..]) && Sums(w[G.c..G.p], w[G.p..], G.inner, p)
  {
    hide IsLayout, FlatSum, SumIs;
    ghost var ps, head := w[G.p..], w[..G.c];
    var t := 0;
    for i := 0 to G.rows
      invariant t == i * G.cols + 0 <= G.rows * G.cols
      invariant w[..G.c] == head && w[G.p..] == ps && Sums(w[G.c..G.c + t], ps, G.inner, p)
    {
      RowSpan(i, G.rows, G.cols);
      for j := 0 to G.cols
        invariant t == i * G.cols + j <= G.rows * G.cols
        invariant w[..G.c] == head && w[G.p..] == ps && Sums(w[G.c..G.c + t], ps, G.inner, p)
      {
        CellEnd(G, i, j);
        FlatSize(G, w.Length);
        var acc := CellSum(G, w, t, p);
        w[G.c + t] := acc;
        assert w[G.c..G.c + t + 1] == w[G.c..G.c + t] + [acc];
        t := t + 1;
      }
    }
    assert w[G.c..G.c + t] == w[G.c..G.p];
  }

  lemma FlatSize(G: Circuit, n: nat)
    requires n == Vars(G)
    ensures n - G.p == G.rows * G.cols * G.inner
  {
  }

  /** acc is the sum of the first k products of cell t. */
  ghost predicate SumUpTo(acc: int, ps: seq<int>, t: nat, n: nat, k: nat, p: Modulus)
    requires t * n + n <= |ps| && k <= n
  {
    acc == FlatSum(ps, t, n, k) % p
  }

  lemma SumStart(ps: seq<int>, t: nat, n: nat, p: Modulus)
    requires t * n + n <= |ps|
    ensures SumUpTo(0, ps, t, n, 0, p)
  {
    SmallMod(0, p);
  }

  lemma SumNext(acc: int, ps: seq<int>, t: nat, n: nat, k: nat, p: Modulus)
    requires t * n + n <= |ps| && k < n && SumUpTo(acc, ps, t, n, k, p)
    ensures SumUpTo(FAdd(acc, ps[t * n + k], p), ps, t, n, k + 1, p)
  {
    AddReduced(FlatSum(ps, t, n, k), ps[t * n + k], acc, p);
  }

  lemma SumWhole(acc: int, ps: seq<int>, t: nat, n: nat, p: Modulus)
    requires t * n + n <= |ps| && SumUpTo(acc, ps, t, n, n, p)
    ensures SumIs(acc, ps, t, n, p)
  {
  }

  method CellSum(G: Circuit, w: array<int>, t: nat, p: Modulus) returns (acc: int)
    requires G.p <= w.Length && t * G.inner + G.inner <= w.Length - G.p
    ensures SumIs(acc, w[G.p..], t, G.inner, p)
  {
    hide SumIs, FlatSum;
    acc := 0;
    ghost var ps := w[G.p..];
    SumStart(ps, t, G.inner, p);
    var start := t * G.inner;
    for k := 0 to G.inner
      invariant SumUpTo(acc, ps, t, G.inner, k, p)
    {
      assert w[G.p + start + k] == ps[start + k];
      SumNext(acc, ps, t, G.inner, k, p);
      acc := FAdd(acc, w[G.p + start + k], p);
    }
    SumWhole(acc, ps, t, G.inner, p);
  }

  lemma AddReduced(s: int, x: int, acc: int, p: Modulus)
    requires acc == s % p
    ensures FAdd(acc, x, p) == (s + x) % p
  {
    hide Cong;
    CongMod(s, p);
    CongRefl(x, p);
    AddC(acc, s, x, x, p);
    CongResidue(FAdd(acc, x, p), s + x, p);
  }

  /** The factors, one after the other from wire a. */
  method FillFactors(G: Circuit, w: array<int>, x: seq<int>, y: seq<int>)
    requires IsLayout(G) && w.Length == Vars(G) && G.c <= w.Length
    requires |x| == G.rows * G.inner && |y| == G.inner * G.cols
    modifies w
    ensures G.a <= G.b <= G.c && w[..G.a] == old(w[..G.a]) && w[G.a..G.b] == x && w[G.b..G.c] == y
  {
    hide IsLayout, Vars;
    LayoutSpans(G);
    FillMatrix(w, G.a, x, G.rows, G.inner);
    ghost var below := w[..G.b];
    FillMatrix(w, G.b, y, G.inner, G.cols);
    assert w[..G.a] == below[..G.a] && w[G.a..G.b] == below[G.a..];
  }

  /** Products and outputs, from the factors on the wires below. */
  method FillCells(G: Circuit, w: array<int>, p: Modulus)
    requires IsLayout(G) && w.Length == Vars(G) && G.c <= G.p <= w.Length && w[0] == 1
    modifies w
    ensures w[..G.c] == old(w[..G.c])
    ensures ListHolds(GemmRows(G, G.rows), w[..], p) && IsProduct(G, w[..G.p], p)
  {
    hide ListHolds, GemmRows, IsProduct, WithProducts, Sums, IsLayout, Vars;
    Offsets(G);
    LayoutSpans(G);
    ghost var base := w[..G.p];
    FillProducts(G, w, p);
    assert w[..G.c] == w[..G.p][..G.c] == base[..G.c];
    FillOutputs(G, w, p);
    FirstWires(w[..], base, G.c);
    FilledSatisfies(G, w[..], base, p);
  }

  lemma FirstWires(w: seq<int>, base: seq<int>, c: nat)
    requires 0 < c <= |base| && c <= |w| && w[..c] == base[..c]
    ensures w[0] == base[0]
  {
    assert w[0] == w[..c][0];
  }

  /** The whole witness. It satisfies every row, and its C wires carry A x B. */
  method FillWitness(G: Circuit, w: array<int>, x: seq<int>, y: seq<int>, p: Modulus)
    requires IsLayout(G) && w.Length == Vars(G) && G.p <= w.Length && w[0] == 1
    requires |x| == G.rows * G.inner && |y| == G.inner * G.cols
    modifies w
    ensures G.a <= G.b <= G.c <= G.p && w[..G.a] == old(w[..G.a]) && w[G.a..G.b] == x && w[G.b..G.c] == y
    ensures ListHolds(GemmRows(G, G.rows), w[..], p) && IsProduct(G, w[..G.p], p)
    ensures G.p - G.c == G.rows * G.cols && IsMatProduct(x, y, w[G.c..G.p], G.rows, G.inner, G.cols, p)
  {
    hide ListHolds, GemmRows, IsProduct, IsMatProduct, IsLayout, Vars;
    Offsets(G);
    ghost var start := w[..G.a];
    FillFactors(G, w, x, y);
    FirstWires(w[..], start, G.a);
    ghost var factors := w[..G.c];
    FillCells(G, w, p);
    SameSlices(w[..], factors, G.a, G.b, G.c);
    FlatProduct(G, w[..], p);
  }

  lemma FlatProduct(G: Circuit, w: seq<int>, p: Modulus)
    requires IsLayout(G) && G.p <= |w| && IsProduct(G, w[..G.p], p)
    ensures 0 < G.a <= G.b <= G.c <= G.p && G.b - G.a == G.rows * G.inner && G.c - G.b == G.inner * G.cols
    ensures G.p - G.c == G.rows * G.cols
    ensures IsMatProduct(w[G.a..G.b], w[G.b..G.c], w[G.c..G.p], G.rows, G.inner, G.cols, p)
  {
    hide IsLayout, IsProduct, IsMatProduct;
    ProductMeans(G, w[..G.p], p);
    BelowProducts(w, G.a, G.b, G.c, G.p);
  }

  lemma BelowProducts(w: seq<int>, a: nat, b: nat, c: nat, p: nat)
    requires a <= b <= c <= p <= |w|
    ensures w[..p][a..b] == w[a..b] && w[..p][b..c] == w[b..c] && w[..p][c..p] == w[c..p]
  {
  }

  lemma SameSlice(w: seq<int>, f: seq<int>, i: nat, j: nat)
    requires i <= j <= |f| <= |w| && w[..|f|] == f
    ensures w[i..j] == f[i..j]
  {
    forall k | i <= k < j ensures w[k] == f[k] { assert w[k] == w[..|f|][k]; }
  }

  lemma SameSlices(w: seq<int>, f: seq<int>, a: nat, b: nat, c: nat)
    requires a <= b <= c == |f| <= |w| && w[..c] == f
    ensures w[..a] == f[..a] && w[a..b] == f[a..b] && w[b..c] == f[b..c]
  {
    SameSlice(w, f, 0, a);
    SameSlice(w, f, a, b);
    SameSlice(w, f, b, c);
  }

  lemma LayoutSpans(G: Circuit)
    requires IsLayout(G)
    ensures G.b == G.a + G.rows * G.inner && G.c == G.b + G.inner * G.cols && G.p == G.c + G.rows * G.cols
  {
  }

  lemma FilledSatisfies(G: Circuit, w: seq<int>, base: seq<int>, p: Modulus)
    requires IsLayout(G) && |w| == Vars(G) && 0 < G.c <= G.p <= |w| && w[0] == 1 && |base| == G.p
    requires w[..G.c] == base[..G.c] && w[G.p..] == WithProducts(G, base, p)[G.p..]
    requires Sums(w[G.c..G.p], w[G.p..], G.inner, p)
    ensures ListHolds(GemmRows(G, G.rows), w, p) && IsProduct(G, w[..G.p], p)
  {
    hide ListHolds, GemmRows, IsProduct, WithProducts, Sums, IsLayout, CellHolds, Cong;
    CongRefl(1, p);
    GemmRowsHold(G, G.rows, w, p);
    forall i, j | 0 <= i < G.rows && 0 <= j < G.cols ensures CellHolds(G, i, j, w, p) {
      FilledCell(G, i, j, w, base, p);
    }
    SatisfiedProduct(G, w[..G.p], w, p);
  }

  lemma FilledCell(G: Circuit, i: nat, j: nat, w: seq<int>, base: seq<int>, p: Modulus)
    requires IsLayout(G) && |w| == Vars(G) && 0 < G.c <= G.p <= |w| && |base| == G.p && i < G.rows && j < G.cols
    requires w[..G.c] == base[..G.c] && w[G.p..] == WithProducts(G, base, p)[G.p..]
    requires Sums(w[G.c..G.p], w[G.p..], G.inner, p)
    ensures CellHolds(G, i, j, w, p)
  {
    hide IsLayout, Cong, ProductSum, FlatSum, ProductHolds, WithProducts, Vars;
    forall k | 0 <= k < G.inner ensures ProductHolds(G, i, j, k, w, p) {
      FilledProduct(G, i, j, k, w, base, p);
    }
    CellBounds(G, i, j);
    var t, cs, ps := i * G.cols + j, w[G.c..G.p], w[G.p..];
    assert CVar(G, i, j) == G.c + t;
    assert SumIs(cs[t], ps, t, G.inner, p);
    FlatSumIs(G, i, j, G.inner, t, w);
    CongMod(ProductSum(G, i, j, G.inner, w), p);
  }

  lemma FilledProduct(G: Circuit, i: nat, j: nat, k: nat, w: seq<int>, base: seq<int>, p: Modulus)
    requires IsLayout(G) && |w| == Vars(G) && 0 < G.c <= G.p <= |w| && |base| == G.p
    requires i < G.rows && j < G.cols && k < G.inner
    requires w[..G.c] == base[..G.c] && w[G.p..] == WithProducts(G, base, p)[G.p..]
    ensures ProductHolds(G, i, j, k, w, p)
  {
    hide Cong, AVar, BVar, PVar, IsLayout, WithProducts;
    VarBounds(G, i, j, k);
    var v := WithProducts(G, base, p);
    FilledProducts(G, i, j, k, base, v, p);
    var a, b, x := AVar(G, i, k), BVar(G, k, j), PVar(G, i, j, k);
    assert v[..G.p] == base;
    assert w[a] == w[..G.c][a] == base[..G.c][a] == base[a] == v[..G.p][a] == v[a];
    assert w[b] == w[..G.c][b] == base[..G.c][b] == base[b] == v[..G.p][b] == v[b];
    assert x >= G.p by { ProductsAfter(G, i, j, k); }
    assert w[x] == w[G.p..][x - G.p] && v[x] == v[G.p..][x - G.p];
  }

  lemma ProductsAfter(G: Circuit, i: nat, j: nat, k: nat)
    ensures PVar(G, i, j, k) >= G.p
  {
  }
}
