/** Relaxed rank-one constraint systems, Az o Bz = u*Cz + E, and the folding of fresh instances into
    a running accumulator. */
module Folding {
  import opened IntegerLaws
  import opened Congruence
  import opened PrimeField
  import opened FieldOps
  import opened R1cs
  import ConstraintBuilder

  /** Three sparse matrices with n rows and m columns. */
  datatype Matrices = Matrices(A: Coo, B: Coo, C: Coo, n: nat, m: nat)

  predicate Fits(M: Coo, n: nat, m: nat) {
    Aligned(M) && RowsBelow(M, n) && forall t :: 0 <= t < |M.col| ==> M.col[t] < m
  }

  predicate ValidMatrices(S: Matrices) {
    Fits(S.A, S.n, S.m) && Fits(S.B, S.n, S.m) && Fits(S.C, S.n, S.m)
  }

  datatype Relaxed = Relaxed(u: int, z: seq<int>, E: seq<int>)

  predicate Shaped(R: Relaxed, S: Matrices) {
    |R.z| == S.m && |R.E| == S.n
  }

  function Fresh(z: seq<int>, n: nat): Relaxed {
    Relaxed(1, z, seq(n, _ => 0))
  }

  predicate IsFresh(R: Relaxed) {
    R.u == 1 && forall i :: 0 <= i < |R.E| ==> R.E[i] == 0
  }

  lemma {:induction false} EntriesBelow(M: Coo, i: nat, t: nat, n: nat, m: nat)
    requires Fits(M, n, m) && t <= |M.row|
    ensures Below(EntriesOf(M, i, t), m)
  {
    if t > 0 { EntriesBelow(M, i, t - 1, n, m); }
  }

  /** Row i of the matrix times z, before reduction. */
  function RowTimes(M: Coo, z: seq<int>, i: nat, n: nat): int
    requires Fits(M, n, |z|)
  {
    EntriesBelow(M, i, |M.row|, n, |z|);
    FormValue(RowForm(M, i), z)
  }

  /** Az*Bz - u*Cz - E at row i; the row is satisfied when this is zero in the field. */
  function Residual(S: Matrices, R: Relaxed, i: nat): int
    requires ValidMatrices(S) && Shaped(R, S) && i < S.n
  {
    RowTimes(S.A, R.z, i, S.n) * RowTimes(S.B, R.z, i, S.n) - R.u * RowTimes(S.C, R.z, i, S.n) - R.E[i]
  }

  ghost predicate RowSat(S: Matrices, R: Relaxed, i: nat, p: Modulus)
    requires ValidMatrices(S) && Shaped(R, S) && i < S.n
  {
    Cong(Residual(S, R, i), 0, p)
  }

  ghost predicate Sat(S: Matrices, R: Relaxed, p: Modulus)
    requires ValidMatrices(S) && Shaped(R, S)
  {
    forall i :: 0 <= i < S.n ==> RowSat(S, R, i, p)
  }

  /** The cross term at row i. */
  function CrossAt(S: Matrices, U: Relaxed, J: Relaxed, i: nat): int
    requires ValidMatrices(S) && Shaped(U, S) && Shaped(J, S) && i < S.n
  {
    RowTimes(S.A, U.z, i, S.n) * RowTimes(S.B, J.z, i, S.n) + RowTimes(S.A, J.z, i, S.n) * RowTimes(S.B, U.z, i, S.n)
    - U.u * RowTimes(S.C, J.z, i, S.n) - J.u * RowTimes(S.C, U.z, i, S.n)
  }

  function FoldSeq(x: seq<int>, y: seq<int>, r: int, p: Modulus): (s: seq<int>)
    requires |x| == |y|
    ensures |s| == |x|
  {
    seq(|x|, i requires 0 <= i < |x| => FAdd(x[i], FMul(r, y[i], p), p))
  }

  function CrossTerm(S: Matrices, U: Relaxed, J: Relaxed, p: Modulus): (T: seq<int>)
    requires ValidMatrices(S) && Shaped(U, S) && Shaped(J, S)
    ensures |T| == S.n
  {
    seq(S.n, i requires 0 <= i < S.n => CrossAt(S, U, J, i) % p)
  }

  /** z' = zU + r*zJ, u' = uU + r, E' = EU + r*T. */
  function Fold(S: Matrices, U: Relaxed, J: Relaxed, r: int, p: Modulus): (F: Relaxed)
    requires ValidMatrices(S) && Shaped(U, S) && Shaped(J, S)
    ensures Shaped(F, S)
  {
    Relaxed(FAdd(U.u, r, p), FoldSeq(U.z, J.z, r, p), FoldSeq(U.E, CrossTerm(S, U, J, p), r, p))
  }

  /** Coordinate by coordinate: z' = zU + r*zJ, u' = uU + r, and E' = EU + r*T. */
  lemma FoldCoordinates(S: Matrices, U: Relaxed, J: Relaxed, r: int, p: Modulus)
    requires ValidMatrices(S) && Shaped(U, S) && Shaped(J, S)
    ensures var F := Fold(S, U, J, r, p);
            && F.u == (U.u + r) % p && |F.z| == S.m && |F.E| == S.n
            && (forall i :: 0 <= i < S.m ==> Cong(F.z[i], U.z[i] + r * J.z[i], p) && 0 <= F.z[i] < p)
            && (forall i :: 0 <= i < S.n ==> Cong(F.E[i], U.E[i] + r * CrossAt(S, U, J, i), p) && 0 <= F.E[i] < p)
  {
    hide Cong, CrossAt;
    var F := Fold(S, U, J, r, p);
    forall i | 0 <= i < S.m ensures Cong(F.z[i], U.z[i] + r * J.z[i], p) { FoldAt(U.z[i], J.z[i], r, p); }
    forall i | 0 <= i < S.n ensures Cong(F.E[i], U.E[i] + r * CrossAt(S, U, J, i), p) { FoldError(S, U, J, r, i, p); }
  }

  /** A fresh instance is satisfied at a row exactly when the row product holds of its assignment. */
  lemma FreshRow(S: Matrices, z: seq<int>, i: nat, p: Modulus)
    requires ValidMatrices(S) && |z| == S.m && i < S.n
    ensures RowSat(S, Fresh(z, S.n), i, p) <==>
            Cong(RowTimes(S.A, z, i, S.n) * RowTimes(S.B, z, i, S.n), RowTimes(S.C, z, i, S.n), p)
  {
    hide Cong, RowTimes;
    var a, b, c := RowTimes(S.A, z, i, S.n), RowTimes(S.B, z, i, S.n), RowTimes(S.C, z, i, S.n);
    assert 1 * c == c;
    CongZeroSub(a * b, c, p);
  }

  /** An entry (r, c, v) adds v*z[c] to row r and nothing elsewhere. */
  lemma RowTimesPush(M: Coo, r: nat, t: Term, z: seq<int>, i: nat, n: nat)
    requires Fits(M, n, |z|) && r < n && t.0 < |z|
    ensures Fits(Push(M, r, t), n, |z|)
    ensures RowTimes(Push(M, r, t), z, i, n) == RowTimes(M, z, i, n) + if i == r then t.1 * z[t.0] else 0
  {
    PushFits(M, r, t, n, |z|);
    EntriesBelow(M, i, |M.row|, n, |z|);
    EntriesBelow(Push(M, r, t), i, |M.row| + 1, n, |z|);
    RowFormPush(M, r, t, i);
    if i == r {
      ConstraintBuilder.FormAppend(RowForm(M, i), t, z);
    } else {
      assert RowForm(M, i) + [] == RowForm(M, i);
    }
  }

  /** Two entries over two rows: row 0 is 5*z2 and row 1 is 4*z0. */
  lemma KnownRows(z: seq<int>)
    requires |z| == 3
    ensures var M := Coo([1, 0], [0, 2], [4, 5]);
            Fits(M, 2, 3) && RowTimes(M, z, 0, 2) == 5 * z[2] && RowTimes(M, z, 1, 2) == 4 * z[0]
  {
    hide RowTimes;
    var M0, M1 := Coo([], [], []), Coo([1], [0], [4]);
    KnownPushes();
    NoEntries(M0, z, 0, 2);
    NoEntries(M0, z, 1, 2);
    RowTimesPush(M0, 1, (0, 4), z, 0, 2);
    RowTimesPush(M0, 1, (0, 4), z, 1, 2);
    RowTimesPush(M1, 0, (2, 5), z, 0, 2);
    RowTimesPush(M1, 0, (2, 5), z, 1, 2);
  }

  lemma KnownPushes()
    ensures Push(Coo([], [], []), 1, (0, 4)) == Coo([1], [0], [4])
    ensures Push(Coo([1], [0], [4]), 0, (2, 5)) == Coo([1, 0], [0, 2], [4, 5])
  {
  }

  lemma PushFits(M: Coo, r: nat, t: Term, n: nat, m: nat)
    requires Fits(M, n, m) && r < n && t.0 < m
    ensures Fits(Push(M, r, t), n, m)
  {
  }

  lemma NoEntries(M: Coo, z: seq<int>, i: nat, n: nat)
    requires Fits(M, n, |z|) && M.row == []
    ensures RowTimes(M, z, i, n) == 0
  {
    assert RowForm(M, i) == [];
  }

  /** The cross term is what the product of the two pencils has at the first power of r, for instances
      relaxed in any way. */
  lemma CrossIsCoefficient(S: Matrices, U: Relaxed, J: Relaxed, r: int, i: nat)
    requires ValidMatrices(S) && Shaped(U, S) && Shaped(J, S) && i < S.n
    ensures var aU, bU, cU := RowTimes(S.A, U.z, i, S.n), RowTimes(S.B, U.z, i, S.n), RowTimes(S.C, U.z, i, S.n);
            var aJ, bJ, cJ := RowTimes(S.A, J.z, i, S.n), RowTimes(S.B, J.z, i, S.n), RowTimes(S.C, J.z, i, S.n);
            (aU + r * aJ) * (bU + r * bJ) - (U.u + r * J.u) * (cU + r * cJ) ==
            (aU * bU - U.u * cU) + r * CrossAt(S, U, J, i) + r * r * (aJ * bJ - J.u * cJ)
  {
    hide RowTimes;
    PencilProduct(RowTimes(S.A, U.z, i, S.n), RowTimes(S.B, U.z, i, S.n), RowTimes(S.C, U.z, i, S.n), U.u,
                  RowTimes(S.A, J.z, i, S.n), RowTimes(S.B, J.z, i, S.n), RowTimes(S.C, J.z, i, S.n), J.u, r);
  }

  lemma PencilProduct(aU: int, bU: int, cU: int, u: int, aJ: int, bJ: int, cJ: int, v: int, r: int)
    ensures (aU + r * aJ) * (bU + r * bJ) - (u + r * v) * (cU + r * cJ) ==
            (aU * bU - u * cU) + r * (aU * bJ + aJ * bU - u * cJ - v * cU) + r * r * (aJ * bJ - v * cJ)
  {
    ProductOfSums(aU, r * aJ, bU, r * bJ);
    SwapFirst(aU, r, bJ);
    Associate(r, aJ, bU);
    Exchange(r, aJ, r, bJ);
    ProductOfSums(u, r * v, cU, r * cJ);
    SwapFirst(u, r, cJ);
    Associate(r, v, cU);
    Exchange(r, v, r, cJ);
    DistributeSub(r, aU * bJ + aJ * bU - u * cJ, v * cU);
    DistributeSub(r, aU * bJ + aJ * bU, u * cJ);
    Distribute(r, aU * bJ, aJ * bU);
    DistributeSub(r * r, aJ * bJ, v * cJ);
  }

  // ----------------------------------------------------------- the fold law

  /** A linear form of the folded assignment. */
  lemma {:induction false} FormFold(f: seq<Term>, x: seq<int>, y: seq<int>, r: int, p: Modulus)
    requires |x| == |y| && Below(f, |x|)
    ensures Cong(FormValue(f, FoldSeq(x, y, r, p)), FormValue(f, x) + r * FormValue(f, y), p)
    decreases |f|
  {
    hide Cong;
    if f == [] {
      CongRefl(0, p);
      assert r * 0 == 0;
    } else {
      FormFold(f[1..], x, y, r, p);
      var (i, c) := f[0];
      FoldAt(x[i], y[i], r, p);
      CongRefl(c, p);
      var w := FAdd(x[i], FMul(r, y[i], p), p);
      CongMul(c, c, w, x[i] + r * y[i], p);
      var u, v := FormValue(f[1..], x), FormValue(f[1..], y);
      CongAdd(c * w, c * (x[i] + r * y[i]), FormValue(f[1..], FoldSeq(x, y, r, p)), u + r * v, p);
      Distribute(c, x[i], r * y[i]);
      SwapFirst(c, r, y[i]);
      Distribute(r, c * y[i], v);
    }
  }

  lemma FoldAt(x: int, y: int, r: int, p: Modulus)
    ensures Cong(FAdd(x, FMul(r, y, p), p), x + r * y, p)
  {
    hide Cong;
    CongRefl(x, p);
    CongMod(r * y, p);
    AddC(x, x, r * y % p, r * y, p);
  }

  lemma RowFold(M: Coo, x: seq<int>, y: seq<int>, r: int, i: nat, n: nat, p: Modulus)
    requires Fits(M, n, |x|) && |x| == |y|
    ensures Cong(RowTimes(M, FoldSeq(x, y, r, p), i, n), RowTimes(M, x, i, n) + r * RowTimes(M, y, i, n), p)
  {
    hide Cong;
    EntriesBelow(M, i, |M.row|, n, |x|);
    FormFold(RowForm(M, i), x, y, r, p);
  }

  /** The polynomial identity behind the fold, in the values of one row. */
  lemma FoldIdentity(aU: int, bU: int, cU: int, u: int, e: int, aJ: int, bJ: int, cJ: int, r: int)
    ensures (aU + r * aJ) * (bU + r * bJ) - (u + r) * (cU + r * cJ) - (e + r * (aU * bJ + aJ * bU - u * cJ - cU)) ==
            (aU * bU - u * cU - e) + r * r * (aJ * bJ - cJ)
  {
    var x, y, z := r * aJ, r * bJ, r * cJ;
    ProductOfSums(aU, x, bU, y);
    SwapFirst(aU, r, bJ);
    Associate(r, aJ, bU);
    Exchange(r, aJ, r, bJ);
    ProductOfSums(u, r, cU, z);
    SwapFirst(u, r, cJ);
    Associate(r, r, cJ);
    DistributeSub(r, aU * bJ + aJ * bU - u * cJ, cU);
    DistributeSub(r, aU * bJ + aJ * bU, u * cJ);
    Distribute(r, aU * bJ, aJ * bU);
    DistributeSub(r * r, aJ * bJ, cJ);
  }

  /** The residual of the fold is res(U) + r^2 * res(J), row by row, for every challenge. */
  lemma FoldResidual(S: Matrices, U: Relaxed, J: Relaxed, r: int, i: nat, p: Modulus)
    requires ValidMatrices(S) && Shaped(U, S) && Shaped(J, S) && IsFresh(J) && i < S.n
    ensures Cong(Residual(S, Fold(S, U, J, r, p), i), Residual(S, U, i) + r * r * Residual(S, J, i), p)
  {
    hide Cong, RowTimes, FoldSeq;
    var F := Fold(S, U, J, r, p);
    RowFold(S.A, U.z, J.z, r, i, S.n, p);
    RowFold(S.B, U.z, J.z, r, i, S.n, p);
    RowFold(S.C, U.z, J.z, r, i, S.n, p);
    var aU, bU, cU := RowTimes(S.A, U.z, i, S.n), RowTimes(S.B, U.z, i, S.n), RowTimes(S.C, U.z, i, S.n);
    var aJ, bJ, cJ := RowTimes(S.A, J.z, i, S.n), RowTimes(S.B, J.z, i, S.n), RowTimes(S.C, J.z, i, S.n);
    var t := CrossAt(S, U, J, i);
    FoldError(S, U, J, r, i, p);
    CongMod(U.u + r, p);
    CombineRow(RowTimes(S.A, F.z, i, S.n), aU + r * aJ, RowTimes(S.B, F.z, i, S.n), bU + r * bJ,
               F.u, U.u + r, RowTimes(S.C, F.z, i, S.n), cU + r * cJ, F.E[i], U.E[i] + r * t, p);
    FoldIdentity(aU, bU, cU, U.u, U.E[i], aJ, bJ, cJ, r);
    assert 1 * cU == cU && 1 * cJ == cJ;
  }

  lemma FoldError(S: Matrices, U: Relaxed, J: Relaxed, r: int, i: nat, p: Modulus)
    requires ValidMatrices(S) && Shaped(U, S) && Shaped(J, S) && i < S.n
    ensures Cong(Fold(S, U, J, r, p).E[i], U.E[i] + r * CrossAt(S, U, J, i), p)
  {
    hide Cong, CrossAt;
    var t := CrossAt(S, U, J, i);
    var e := CrossTerm(S, U, J, p)[i];
    FoldAt(U.E[i], e, r, p);
    CongMod(t, p);
    CongRefl(r, p);
    CongRefl(U.E[i], p);
    CongMul(r, r, e, t, p);
    CongAdd(U.E[i], U.E[i], r * e, r * t, p);
    CongTrans(Fold(S, U, J, r, p).E[i], U.E[i] + r * e, U.E[i] + r * t, p);
  }

  lemma CombineRow(a: int, a': int, b: int, b': int, u: int, u': int, c: int, c': int, e: int, e': int, p: Modulus)
    requires Cong(a, a', p) && Cong(b, b', p) && Cong(u, u', p) && Cong(c, c', p) && Cong(e, e', p)
    ensures Cong(a * b - u * c - e, a' * b' - u' * c' - e', p)
  {
    hide Cong;
    CongMul(a, a', b, b', p);
    CongMul(u, u', c, c', p);
    CongSub(a * b, a' * b', u * c, u' * c', p);
    CongSub(a * b - u * c, a' * b' - u' * c', e, e', p);
  }

  /** Folding into a satisfied accumulator stays satisfied exactly when the instance was satisfied or
      the challenge is zero: a tampered instance is never absorbed. */
  lemma FoldSat(S: Matrices, U: Relaxed, J: Relaxed, r: int, p: int)
    requires IsPrime(p) && ValidMatrices(S) && Shaped(U, S) && Shaped(J, S) && IsFresh(J) && Sat(S, U, p)
    ensures Sat(S, Fold(S, U, J, r, p), p) <==> Cong(r, 0, p) || Sat(S, J, p)
  {
    hide Cong, Residual, Fold, IsFresh;
    var F := Fold(S, U, J, r, p);
    forall i | 0 <= i < S.n ensures RowSat(S, F, i, p) <==> Cong(r, 0, p) || RowSat(S, J, i, p) {
      assert RowSat(S, U, i, p);
      FoldResidual(S, U, J, r, i, p);
      SquareScaled(Residual(S, F, i), Residual(S, U, i), Residual(S, J, i), r, p);
    }
  }

  lemma SquareScaled(f: int, u: int, j: int, r: int, p: int)
    requires IsPrime(p) && Cong(f, u + r * r * j, p) && Cong(u, 0, p)
    ensures Cong(f, 0, p) <==> Cong(r, 0, p) || Cong(j, 0, p)
  {
    hide Cong;
    var v := r * r * j;
    CongRefl(v, p);
    CongAdd(u, 0, v, v, p);
    CongTrans(f, u + v, v, p);
    CongSym(f, v, p);
    CongRefl(r, p);
    CongRefl(j, p);
    CongRefl(r * r, p);
    if Cong(r, 0, p) {
      CongMul(r, 0, r, 0, p);
      CongMul(r * r, 0, j, j, p);
      CongTrans(f, v, 0, p);
    }
    if Cong(j, 0, p) {
      CongMul(r * r, r * r, j, 0, p);
      CongTrans(f, v, 0, p);
    }
    if Cong(f, 0, p) {
      CongTrans(v, f, 0, p);
      NoZeroDivisors(r * r, j, p);
      if Cong(r * r, 0, p) { NoZeroDivisors(r, r, p); }
    }
  }

  // --------------------------------------------------------------- chains

  /** The instances folded in one after the other. */
  function FoldAll(S: Matrices, U: Relaxed, js: seq<Relaxed>, rs: seq<int>, p: Modulus): (F: Relaxed)
    requires ValidMatrices(S) && Shaped(U, S) && |js| == |rs|
    requires forall j :: 0 <= j < |js| ==> Shaped(js[j], S)
    ensures Shaped(F, S)
    decreases |js|
  {
    if js == [] then U
    else
      var k := |js| - 1;
      Fold(S, FoldAll(S, U, js[..k], rs[..k], p), js[k], rs[k], p)
  }

  /** Read from the front: the first instance is folded in with the first challenge, then the rest. */
  lemma {:induction false} FoldAllFront(S: Matrices, U: Relaxed, J: Relaxed, js: seq<Relaxed>, r: int, rs: seq<int>, p: Modulus)
    requires ValidMatrices(S) && Shaped(U, S) && Shaped(J, S) && |js| == |rs|
    requires forall j :: 0 <= j < |js| ==> Shaped(js[j], S)
    ensures FoldAll(S, U, [], [], p) == U
    ensures FoldAll(S, U, [J] + js, [r] + rs, p) == FoldAll(S, Fold(S, U, J, r, p), js, rs, p)
    decreases |js|
  {
    hide Fold;
    var ks, ts := [J] + js, [r] + rs;
    if js == [] {
      assert ks[..0] == [] && ts[..0] == [];
    } else {
      var k := |js| - 1;
      FoldAllFront(S, U, J, js[..k], r, rs[..k], p);
      assert ks[..k + 1] == [J] + js[..k] && ts[..k + 1] == [r] + rs[..k];
    }
  }

  /** A chain coordinate by coordinate: each instance enters with its own challenge. */
  lemma ChainCoordinate(S: Matrices, U: Relaxed, js: seq<Relaxed>, J: Relaxed, rs: seq<int>, r: int, t: nat, p: Modulus)
    requires ValidMatrices(S) && Shaped(U, S) && Shaped(J, S) && |js| == |rs| && t < S.m
    requires forall j :: 0 <= j < |js| ==> Shaped(js[j], S)
    ensures forall j :: 0 <= j < |js + [J]| ==> Shaped((js + [J])[j], S)
    ensures Cong(FoldAll(S, U, js + [J], rs + [r], p).z[t], FoldAll(S, U, js, rs, p).z[t] + r * J.z[t], p)
    ensures FoldAll(S, U, js + [J], rs + [r], p).u == (FoldAll(S, U, js, rs, p).u + r) % p
  {
    hide Cong, Fold;
    FoldAllSnoc(S, U, js, J, rs, r, p);
    FoldCoordinates(S, FoldAll(S, U, js, rs, p), J, r, p);
  }

  lemma FoldAllSnoc(S: Matrices, U: Relaxed, js: seq<Relaxed>, J: Relaxed, rs: seq<int>, r: int, p: Modulus)
    requires ValidMatrices(S) && Shaped(U, S) && Shaped(J, S) && |js| == |rs|
    requires forall j :: 0 <= j < |js| ==> Shaped(js[j], S)
    ensures forall j :: 0 <= j < |js + [J]| ==> Shaped((js + [J])[j], S)
    ensures FoldAll(S, U, js + [J], rs + [r], p) == Fold(S, FoldAll(S, U, js, rs, p), J, r, p)
  {
    hide Fold;
    assert (js + [J])[..|js|] == js && (rs + [r])[..|rs|] == rs;
  }

  /** Sum of r_j^2 * res(J_j) at row i. */
  function WeightedResiduals(S: Matrices, js: seq<Relaxed>, rs: seq<int>, i: nat): int
    requires ValidMatrices(S) && |js| == |rs| && i < S.n
    requires forall j :: 0 <= j < |js| ==> Shaped(js[j], S)
    decreases |js|
  {
    if js == [] then 0
    else
      var k := |js| - 1;
      WeightedResiduals(S, js[..k], rs[..k], i) + rs[k] * rs[k] * Residual(S, js[k], i)
  }

  /** The residual after any chain of folds, exactly. */
  lemma {:induction false} ChainResidual(S: Matrices, U: Relaxed, js: seq<Relaxed>, rs: seq<int>, i: nat, p: Modulus)
    requires ValidMatrices(S) && Shaped(U, S) && |js| == |rs| && i < S.n
    requires forall j :: 0 <= j < |js| ==> Shaped(js[j], S) && IsFresh(js[j])
    ensures Cong(Residual(S, FoldAll(S, U, js, rs, p), i), Residual(S, U, i) + WeightedResiduals(S, js, rs, i), p)
    decreases |js|
  {
    hide Cong, Residual, Fold, IsFresh;
    if js == [] {
      CongRefl(Residual(S, U, i), p);
    } else {
      var k := |js| - 1;
      ChainResidual(S, U, js[..k], rs[..k], i, p);
      var V := FoldAll(S, U, js[..k], rs[..k], p);
      FoldResidual(S, V, js[k], rs[k], i, p);
      var w := rs[k] * rs[k] * Residual(S, js[k], i);
      CongRefl(w, p);
      CongAdd(Residual(S, V, i), Residual(S, U, i) + WeightedResiduals(S, js[..k], rs[..k], i), w, w, p);
      CongTrans(Residual(S, Fold(S, V, js[k], rs[k], p), i), Residual(S, V, i) + w,
                Residual(S, U, i) + WeightedResiduals(S, js[..k], rs[..k], i) + w, p);
    }
  }

  /** A chain of any length of satisfied fresh instances, under any challenges, stays satisfied. */
  lemma {:induction false} ChainSat(S: Matrices, U: Relaxed, js: seq<Relaxed>, rs: seq<int>, p: int)
    requires IsPrime(p) && ValidMatrices(S) && Shaped(U, S) && |js| == |rs| && Sat(S, U, p)
    requires forall j :: 0 <= j < |js| ==> Shaped(js[j], S) && IsFresh(js[j]) && Sat(S, js[j], p)
    ensures Sat(S, FoldAll(S, U, js, rs, p), p)
    decreases |js|
  {
    hide Sat, Fold, Cong, IsFresh;
    if js != [] {
      var k := |js| - 1;
      ChainSat(S, U, js[..k], rs[..k], p);
      FoldSat(S, FoldAll(S, U, js[..k], rs[..k], p), js[k], rs[k], p);
    }
  }

  // ------------------------------------------------------- all at once instead

  /** Folds J into V with the cross term taken against U. */
  function FoldAgainst(S: Matrices, U: Relaxed, V: Relaxed, J: Relaxed, r: int, p: Modulus): (F: Relaxed)
    requires ValidMatrices(S) && Shaped(U, S) && Shaped(V, S) && Shaped(J, S)
    ensures Shaped(F, S)
  {
    Relaxed(FAdd(V.u, r, p), FoldSeq(V.z, J.z, r, p), FoldSeq(V.E, CrossTerm(S, U, J, p), r, p))
  }

  /** The instances folded in together, every cross term taken against the accumulator they started
      from: what the scheme did before it folded them one after the other. */
  function FoldTogether(S: Matrices, U: Relaxed, js: seq<Relaxed>, rs: seq<int>, p: Modulus): (F: Relaxed)
    requires ValidMatrices(S) && Shaped(U, S) && |js| == |rs|
    requires forall j :: 0 <= j < |js| ==> Shaped(js[j], S)
    ensures Shaped(F, S)
    decreases |js|
  {
    if js == [] then U
    else
      var k := |js| - 1;
      FoldAgainst(S, U, FoldTogether(S, U, js[..k], rs[..k], p), js[k], rs[k], p)
  }

  /** Sum of r_j * cross(J_j, J) at row i. */
  function MutualWith(S: Matrices, js: seq<Relaxed>, rs: seq<int>, J: Relaxed, i: nat): int
    requires ValidMatrices(S) && |js| == |rs| && Shaped(J, S) && i < S.n
    requires forall j :: 0 <= j < |js| ==> Shaped(js[j], S)
    decreases |js|
  {
    if js == [] then 0
    else
      var k := |js| - 1;
      MutualWith(S, js[..k], rs[..k], J, i) + rs[k] * CrossAt(S, js[k], J, i)
  }

  /** Sum of r_j * r_k * cross(J_j, J_k) over j < k at row i. */
  function MutualTerms(S: Matrices, js: seq<Relaxed>, rs: seq<int>, i: nat): int
    requires ValidMatrices(S) && |js| == |rs| && i < S.n
    requires forall j :: 0 <= j < |js| ==> Shaped(js[j], S)
    decreases |js|
  {
    if js == [] then 0
    else
      var k := |js| - 1;
      MutualTerms(S, js[..k], rs[..k], i) + rs[k] * MutualWith(S, js[..k], rs[..k], js[k], i)
  }

  /** The cross term is linear in its first instance. */
  lemma CrossLinear(S: Matrices, V: Relaxed, K: Relaxed, J: Relaxed, r: int, F: Relaxed, i: nat, p: Modulus)
    requires ValidMatrices(S) && Shaped(V, S) && Shaped(K, S) && Shaped(J, S) && Shaped(F, S) && i < S.n && K.u == 1
    requires F.u == FAdd(V.u, r, p) && F.z == FoldSeq(V.z, K.z, r, p)
    ensures Cong(CrossAt(S, F, J, i), CrossAt(S, V, J, i) + r * CrossAt(S, K, J, i), p)
  {
    hide Cong, RowTimes, FoldSeq;
    RowFold(S.A, V.z, K.z, r, i, S.n, p);
    RowFold(S.B, V.z, K.z, r, i, S.n, p);
    RowFold(S.C, V.z, K.z, r, i, S.n, p);
    CongMod(V.u + r, p);
    CrossValues(RowTimes(S.A, F.z, i, S.n), RowTimes(S.B, F.z, i, S.n), RowTimes(S.C, F.z, i, S.n), F.u,
                RowTimes(S.A, V.z, i, S.n), RowTimes(S.B, V.z, i, S.n), RowTimes(S.C, V.z, i, S.n), V.u,
                RowTimes(S.A, K.z, i, S.n), RowTimes(S.B, K.z, i, S.n), RowTimes(S.C, K.z, i, S.n),
                RowTimes(S.A, J.z, i, S.n), RowTimes(S.B, J.z, i, S.n), RowTimes(S.C, J.z, i, S.n), J.u, r, p);
  }

  lemma CrossValues(aF: int, bF: int, cF: int, uF: int, aV: int, bV: int, cV: int, uV: int, aK: int, bK: int, cK: int,
                    aJ: int, bJ: int, cJ: int, uJ: int, r: int, p: Modulus)
    requires Cong(aF, aV + r * aK, p) && Cong(bF, bV + r * bK, p) && Cong(cF, cV + r * cK, p) && Cong(uF, uV + r, p)
    ensures Cong(aF * bJ + aJ * bF - uF * cJ - uJ * cF,
                 aV * bJ + aJ * bV - uV * cJ - uJ * cV + r * (aK * bJ + aJ * bK - 1 * cJ - uJ * cK), p)
  {
    hide Cong;
    CongRefl(aJ, p);
    CongRefl(bJ, p);
    CongRefl(cJ, p);
    CongRefl(uJ, p);
    CongMul(aF, aV + r * aK, bJ, bJ, p);
    CongMul(aJ, aJ, bF, bV + r * bK, p);
    CongMul(uF, uV + r, cJ, cJ, p);
    CongMul(uJ, uJ, cF, cV + r * cK, p);
    CongAdd(aF * bJ, (aV + r * aK) * bJ, aJ * bF, aJ * (bV + r * bK), p);
    CongSub(aF * bJ + aJ * bF, (aV + r * aK) * bJ + aJ * (bV + r * bK), uF * cJ, (uV + r) * cJ, p);
    CongSub(aF * bJ + aJ * bF - uF * cJ, (aV + r * aK) * bJ + aJ * (bV + r * bK) - (uV + r) * cJ, uJ * cF, uJ * (cV + r * cK), p);
    CrossIdentity(aV, bV, cV, uV, aK, bK, cK, aJ, bJ, cJ, uJ, r);
  }

  lemma CrossIdentity(aV: int, bV: int, cV: int, uV: int, aK: int, bK: int, cK: int, aJ: int, bJ: int, cJ: int, uJ: int, r: int)
    ensures (aV + r * aK) * bJ + aJ * (bV + r * bK) - (uV + r) * cJ - uJ * (cV + r * cK) ==
            aV * bJ + aJ * bV - uV * cJ - uJ * cV + r * (aK * bJ + aJ * bK - 1 * cJ - uJ * cK)
  {
    Distribute(bJ, aV, r * aK);
    Associate(r, aK, bJ);
    Distribute(aJ, bV, r * bK);
    SwapFirst(aJ, r, bK);
    Distribute(cJ, uV, r);
    Distribute(uJ, cV, r * cK);
    SwapFirst(uJ, r, cK);
    DistributeSub(r, aK * bJ + aJ * bK - 1 * cJ, uJ * cK);
    DistributeSub(r, aK * bJ + aJ * bK, 1 * cJ);
    Distribute(r, aK * bJ, aJ * bK);
  }

  /** The cross term of the instances folded together with a further one. */
  lemma {:induction false} CrossTogether(S: Matrices, U: Relaxed, js: seq<Relaxed>, rs: seq<int>, J: Relaxed, i: nat, p: Modulus)
    requires ValidMatrices(S) && Shaped(U, S) && |js| == |rs| && Shaped(J, S) && i < S.n
    requires forall j :: 0 <= j < |js| ==> Shaped(js[j], S) && IsFresh(js[j])
    ensures Cong(CrossAt(S, FoldTogether(S, U, js, rs, p), J, i), CrossAt(S, U, J, i) + MutualWith(S, js, rs, J, i), p)
    decreases |js|
  {
    hide Cong, CrossAt, CrossTerm, FoldSeq;
    if js == [] {
      CongRefl(CrossAt(S, U, J, i), p);
    } else {
      var k := |js| - 1;
      var V := FoldTogether(S, U, js[..k], rs[..k], p);
      var F := FoldTogether(S, U, js, rs, p);
      CrossTogether(S, U, js[..k], rs[..k], J, i, p);
      CrossLinear(S, V, js[k], J, rs[k], F, i, p);
      var g := rs[k] * CrossAt(S, js[k], J, i);
      CongRefl(g, p);
      CongAdd(CrossAt(S, V, J, i), CrossAt(S, U, J, i) + MutualWith(S, js[..k], rs[..k], J, i), g, g, p);
      CongTrans(CrossAt(S, F, J, i), CrossAt(S, V, J, i) + g,
                CrossAt(S, U, J, i) + MutualWith(S, js[..k], rs[..k], J, i) + g, p);
    }
  }

  /** One step: the residual misses r times what the cross term against U leaves out. */
  lemma TogetherStep(S: Matrices, U: Relaxed, V: Relaxed, J: Relaxed, r: int, F: Relaxed, m: int, i: nat, p: Modulus)
    requires ValidMatrices(S) && Shaped(U, S) && Shaped(V, S) && Shaped(J, S) && IsFresh(J) && i < S.n
    requires Cong(CrossAt(S, V, J, i), CrossAt(S, U, J, i) + m, p)
    requires F == FoldAgainst(S, U, V, J, r, p)
    ensures Cong(Residual(S, F, i), Residual(S, V, i) + r * r * Residual(S, J, i) + r * m, p)
  {
    hide Cong, RowTimes, FoldSeq, CrossAt, FAdd;
    var G := Fold(S, V, J, r, p);
    var x, y := CrossAt(S, U, J, i), CrossAt(S, V, J, i);
    FoldResidual(S, V, J, r, i, p);
    FoldError(S, V, J, r, i, p);
    ErrorAt(S, U, J, V.E, r, i, p);
    CongSub(G.E[i], V.E[i] + r * y, F.E[i], V.E[i] + r * x, p);
    CongRefl(r, p);
    CongRefl(x, p);
    CongSub(y, x + m, x, x, p);
    CongMul(r, r, y - x, m, p);
    assert r * (y - x) == (V.E[i] + r * y) - (V.E[i] + r * x);
    CongTrans(G.E[i] - F.E[i], r * (y - x), r * m, p);
    CongAdd(Residual(S, G, i), Residual(S, V, i) + r * r * Residual(S, J, i), G.E[i] - F.E[i], r * m, p);
    assert Residual(S, F, i) == Residual(S, G, i) + (G.E[i] - F.E[i]);
  }

  lemma ErrorAt(S: Matrices, U: Relaxed, J: Relaxed, E: seq<int>, r: int, i: nat, p: Modulus)
    requires ValidMatrices(S) && Shaped(U, S) && Shaped(J, S) && |E| == S.n && i < S.n
    ensures Cong(FoldSeq(E, CrossTerm(S, U, J, p), r, p)[i], E[i] + r * CrossAt(S, U, J, i), p)
  {
    hide CrossAt;
    FoldError(S, U.(E := E), J, r, i, p);
    CrossIgnoresE(S, U, J, E, i, p);
  }

  lemma CrossIgnoresE(S: Matrices, U: Relaxed, J: Relaxed, E: seq<int>, i: nat, p: Modulus)
    requires ValidMatrices(S) && Shaped(U, S) && Shaped(J, S) && |E| == S.n && i < S.n
    ensures CrossAt(S, U.(E := E), J, i) == CrossAt(S, U, J, i)
    ensures CrossTerm(S, U.(E := E), J, p) == CrossTerm(S, U, J, p)
  {
    hide RowTimes;
  }

  /** The residual after folding any number of instances together, exactly: next to what folding them
      in sequence leaves, every pair contributes r_j * r_k times its mutual cross term. */
  lemma {:induction false} TogetherResidual(S: Matrices, U: Relaxed, js: seq<Relaxed>, rs: seq<int>, i: nat, p: Modulus)
    requires ValidMatrices(S) && Shaped(U, S) && |js| == |rs| && i < S.n
    requires forall j :: 0 <= j < |js| ==> Shaped(js[j], S) && IsFresh(js[j])
    ensures Cong(Residual(S, FoldTogether(S, U, js, rs, p), i),
                 Residual(S, U, i) + WeightedResiduals(S, js, rs, i) + MutualTerms(S, js, rs, i), p)
    decreases |js|
  {
    hide Cong, Residual, CrossAt, CrossTerm, FoldSeq, IsFresh, MutualWith;
    if js == [] {
      CongRefl(Residual(S, U, i), p);
    } else {
      var k := |js| - 1;
      var J, r := js[k], rs[k];
      var V, F := FoldTogether(S, U, js[..k], rs[..k], p), FoldTogether(S, U, js, rs, p);
      TogetherResidual(S, U, js[..k], rs[..k], i, p);
      CrossTogether(S, U, js[..k], rs[..k], J, i, p);
      var m := MutualWith(S, js[..k], rs[..k], J, i);
      TogetherStep(S, U, V, J, r, F, m, i, p);
      var w, e := r * r * Residual(S, J, i), Residual(S, U, i) + WeightedResiduals(S, js[..k], rs[..k], i) + MutualTerms(S, js[..k], rs[..k], i);
      CongRefl(w + r * m, p);
      CongAdd(Residual(S, V, i), e, w + r * m, w + r * m, p);
      CongTrans(Residual(S, F, i), Residual(S, V, i) + (w + r * m), e + (w + r * m), p);
    }
  }

  lemma {:induction false} WeightedZero(S: Matrices, js: seq<Relaxed>, rs: seq<int>, i: nat, p: Modulus)
    requires ValidMatrices(S) && |js| == |rs| && i < S.n
    requires forall j :: 0 <= j < |js| ==> Shaped(js[j], S) && RowSat(S, js[j], i, p)
    ensures Cong(WeightedResiduals(S, js, rs, i), 0, p)
    decreases |js|
  {
    hide Cong, Residual;
    if js == [] {
      CongRefl(0, p);
    } else {
      var k := |js| - 1;
      WeightedZero(S, js[..k], rs[..k], i, p);
      var r, e := rs[k] * rs[k], Residual(S, js[k], i);
      assert RowSat(S, js[k], i, p);
      CongRefl(r, p);
      CongMul(r, r, e, 0, p);
      CongAdd(WeightedResiduals(S, js[..k], rs[..k], i), 0, r * e, 0, p);
    }
  }

  /** Satisfied fresh instances folded together into a satisfied accumulator satisfy a row exactly when
      the weighted sum of their mutual cross terms vanishes there. In sequence they always do. */
  lemma SimultaneousFold(S: Matrices, U: Relaxed, js: seq<Relaxed>, rs: seq<int>, i: nat, p: Modulus)
    requires ValidMatrices(S) && Shaped(U, S) && |js| == |rs| && i < S.n && RowSat(S, U, i, p)
    requires forall j :: 0 <= j < |js| ==> Shaped(js[j], S) && IsFresh(js[j]) && RowSat(S, js[j], i, p)
    ensures RowSat(S, FoldTogether(S, U, js, rs, p), i, p) <==> Cong(MutualTerms(S, js, rs, i), 0, p)
  {
    hide Cong, Residual, MutualTerms, FoldTogether, WeightedResiduals, IsFresh;
    TogetherResidual(S, U, js, rs, i, p);
    WeightedZero(S, js, rs, i, p);
    var f, u, w, m := Residual(S, FoldTogether(S, U, js, rs, p), i), Residual(S, U, i), WeightedResiduals(S, js, rs, i), MutualTerms(S, js, rs, i);
    CongRefl(m, p);
    CongAdd(u, 0, w, 0, p);
    CongAdd(u + w, 0, m, m, p);
    CongTrans(f, u + w + m, m, p);
    CongSym(f, m, p);
    if Cong(f, 0, p) { CongTrans(m, f, 0, p); }
    if Cong(m, 0, p) { CongTrans(f, m, 0, p); }
  }

  /** Two instances: r1 * r2 times their cross term. */
  lemma TwoTogether(S: Matrices, U: Relaxed, J: Relaxed, K: Relaxed, r: int, s: int, i: nat, p: Modulus)
    requires ValidMatrices(S) && Shaped(U, S) && Shaped(J, S) && Shaped(K, S) && IsFresh(J) && IsFresh(K) && i < S.n
    requires RowSat(S, U, i, p) && RowSat(S, J, i, p) && RowSat(S, K, i, p)
    ensures RowSat(S, FoldTogether(S, U, [J, K], [r, s], p), i, p) <==> Cong(r * s * CrossAt(S, J, K, i), 0, p)
  {
    hide Cong, Residual, CrossAt, IsFresh, FoldTogether;
    SimultaneousFold(S, U, [J, K], [r, s], i, p);
    assert [J, K][..1] == [J] && [r, s][..1] == [r] && [J][..0] == [] && [r][..0] == [];
    assert MutualWith(S, [J], [r], K, i) == r * CrossAt(S, J, K, i);
    assert MutualTerms(S, [J], [r], i) == 0;
    assert s * (r * CrossAt(S, J, K, i)) == r * s * CrossAt(S, J, K, i);
  }

  /** The one-entry matrix. */
  lemma OneEntry(M: Coo, v: int)
    requires M == Coo([0], [0], [1])
    ensures Fits(M, 1, 1) && RowTimes(M, [v], 0, 1) == v
  {
    var f: seq<Term> := [(0, 1)];
    assert EntriesOf(M, 0, 0) == [];
    assert EntriesOf(M, 0, 1) == f;
    WireValue(0, [v]);
  }

  /** A concrete failure in every field: the row z * z = z and the instances 1 and 0, folded together
      into 0 with challenges 1. */
  lemma TogetherFails(S: Matrices, M: Coo, p: Modulus)
    requires p > 1 && M == Coo([0], [0], [1]) && S == Matrices(M, M, M, 1, 1)
    ensures ValidMatrices(S) && Sat(S, Fresh([0], 1), p) && Sat(S, Fresh([1], 1), p)
    ensures !Sat(S, FoldTogether(S, Fresh([0], 1), [Fresh([1], 1), Fresh([0], 1)], [1, 1], p), p)
  {
    hide Cong, FoldTogether, RowTimes, Fits;
    var U, J := Fresh([0], 1), Fresh([1], 1);
    OneEntry(M, 0);
    OneEntry(M, 1);
    CongRefl(0, p);
    assert CrossAt(S, J, U, 0) == -1;
    TwoTogether(S, U, J, U, 1, 1, 0, p);
    if Cong(-1, 0, p) {
      CongRefl(0, p);
      CongSub(0, 0, -1, 0, p);
      NonzeroResidue(1, p);
    }
    assert !RowSat(S, FoldTogether(S, U, [J, U], [1, 1], p), 0, p);
  }
}
