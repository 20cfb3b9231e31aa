/** The loops of the folding scheme: the satisfaction scan, the cross term, the fold in place, the
    k-fold and the epoch loop, each against the functions of Folding. */
module FoldingEngine {
  import opened Congruence
  import opened PrimeField
  import opened FieldOps
  import opened R1cs
  import opened ConstraintBuilder
  import opened Folding

  /** The product of a matrix and an assignment. */
  method MatVec(M: Coo, z: seq<int>, n: nat, p: Modulus) returns (out: seq<int>)
    requires Fits(M, n, |z|)
    ensures |out| == n && forall i :: 0 <= i < n ==> out[i] == RowTimes(M, z, i, n) % p
  {
    var a := Accumulate(M, z, n, p);
    out := a[..];
  }

  /** The first row that fails, or the number of rows. */
  method SatRelaxed(S: Matrices, R: Relaxed, p: Modulus) returns (first: nat)
    requires ValidMatrices(S) && Shaped(R, S)
    ensures first <= S.n && (forall i :: 0 <= i < first ==> RowSat(S, R, i, p))
    ensures first < S.n ==> !RowSat(S, R, first, p)
    ensures first == S.n <==> Sat(S, R, p)
  {
    hide Cong, Residual, RowTimes;
    var az := MatVec(S.A, R.z, S.n, p);
    var bz := MatVec(S.B, R.z, S.n, p);
    var cz := MatVec(S.C, R.z, S.n, p);
    first := 0;
    while first < S.n
      invariant first <= S.n && forall i :: 0 <= i < first ==> RowSat(S, R, i, p)
    {
      RowTest(S, R, first, az[first], bz[first], cz[first], p);
      if FMul(az[first], bz[first], p) != FAdd(FMul(R.u, cz[first], p), R.E[first], p) { return; }
      first := first + 1;
    }
  }

  lemma RowTest(S: Matrices, R: Relaxed, i: nat, a: int, b: int, c: int, p: Modulus)
    requires ValidMatrices(S) && Shaped(R, S) && i < S.n
    requires a == RowTimes(S.A, R.z, i, S.n) % p && b == RowTimes(S.B, R.z, i, S.n) % p
    requires c == RowTimes(S.C, R.z, i, S.n) % p
    ensures FMul(a, b, p) == FAdd(FMul(R.u, c, p), R.E[i], p) <==> RowSat(S, R, i, p)
  {
    hide Cong, RowTimes, FMul, FAdd;
    var x, y, v := RowTimes(S.A, R.z, i, S.n), RowTimes(S.B, R.z, i, S.n), RowTimes(S.C, R.z, i, S.n);
    var e := R.E[i];
    CongMod(x, p);
    CongMod(y, p);
    CongMod(v, p);
    CongRefl(R.u, p);
    CongRefl(e, p);
    MulC(a, x, b, y, p);
    MulC(R.u, R.u, c, v, p);
    AddC(FMul(R.u, c, p), R.u * v, e, e, p);
    var l, r := FMul(a, b, p), FAdd(FMul(R.u, c, p), e, p);
    CongSub(l, x * y, r, R.u * v + e, p);
    EqualC(l, r, p);
    CongZeroSub(l, r, p);
    assert x * y - (R.u * v + e) == Residual(S, R, i);
    if Cong(l - r, 0, p) {
      CongSym(l - r, x * y - (R.u * v + e), p);
      CongTrans(x * y - (R.u * v + e), l - r, 0, p);
    }
    if Cong(x * y - (R.u * v + e), 0, p) { CongTrans(l - r, x * y - (R.u * v + e), 0, p); }
  }

  method CrossTermRows(S: Matrices, U: Relaxed, J: Relaxed, p: Modulus) returns (T: seq<int>)
    requires ValidMatrices(S) && Shaped(U, S) && Shaped(J, S)
    ensures T == CrossTerm(S, U, J, p)
  {
    hide Cong, RowTimes;
    var azU := MatVec(S.A, U.z, S.n, p);
    var bzU := MatVec(S.B, U.z, S.n, p);
    var czU := MatVec(S.C, U.z, S.n, p);
    var azJ := MatVec(S.A, J.z, S.n, p);
    var bzJ := MatVec(S.B, J.z, S.n, p);
    var czJ := MatVec(S.C, J.z, S.n, p);
    T := [];
    for i := 0 to S.n
      invariant |T| == i && forall k :: 0 <= k < i ==> T[k] == CrossAt(S, U, J, k) % p
    {
      var t := FAdd(FMul(azU[i], bzJ[i], p), FMul(azJ[i], bzU[i], p), p);
      t := FSub(t, FMul(U.u, czJ[i], p), p);
      t := FSub(t, FMul(J.u, czU[i], p), p);
      CrossValue(RowTimes(S.A, U.z, i, S.n), RowTimes(S.B, U.z, i, S.n), RowTimes(S.C, U.z, i, S.n), U.u,
                 RowTimes(S.A, J.z, i, S.n), RowTimes(S.B, J.z, i, S.n), RowTimes(S.C, J.z, i, S.n), J.u, p);
      T := T + [t];
    }
  }

  lemma CrossValue(aU: int, bU: int, cU: int, uU: int, aJ: int, bJ: int, cJ: int, uJ: int, p: Modulus)
    ensures FSub(FSub(FAdd(FMul(aU % p, bJ % p, p), FMul(aJ % p, bU % p, p), p), FMul(uU, cJ % p, p), p), FMul(uJ, cU % p, p), p) ==
            (aU * bJ + aJ * bU - uU * cJ - uJ * cU) % p
  {
    hide Cong, FMul, FAdd, FSub;
    CongMod(aU, p);
    CongMod(bU, p);
    CongMod(cU, p);
    CongMod(aJ, p);
    CongMod(bJ, p);
    CongMod(cJ, p);
    CongRefl(uU, p);
    CongRefl(uJ, p);
    MulC(aU % p, aU, bJ % p, bJ, p);
    MulC(aJ % p, aJ, bU % p, bU, p);
    MulC(uU, uU, cJ % p, cJ, p);
    MulC(uJ, uJ, cU % p, cU, p);
    var s := FAdd(FMul(aU % p, bJ % p, p), FMul(aJ % p, bU % p, p), p);
    AddC(FMul(aU % p, bJ % p, p), aU * bJ, FMul(aJ % p, bU % p, p), aJ * bU, p);
    var t := FSub(s, FMul(uU, cJ % p, p), p);
    SubC(s, aU * bJ + aJ * bU, FMul(uU, cJ % p, p), uU * cJ, p);
    SubC(t, aU * bJ + aJ * bU - uU * cJ, FMul(uJ, cU % p, p), uJ * cU, p);
    CongResidue(FSub(t, FMul(uJ, cU % p, p), p), aU * bJ + aJ * bU - uU * cJ - uJ * cU, p);
  }

  // ------------------------------------------------------------ the accumulator

  /** The running instance, updated in place. */
  class Accumulator {
    var u: int
    const z: array<int>
    const E: array<int>

    ghost predicate Valid()
      reads this
    {
      z != E
    }

    ghost function Contents(): Relaxed
      reads this, z, E
    {
      Relaxed(u, z[..], E[..])
    }

    constructor (R: Relaxed)
      ensures Valid() && Contents() == R && fresh(z) && fresh(E)
    {
      var zs := new int[|R.z|](i requires 0 <= i < |R.z| => R.z[i]);
      var es := new int[|R.E|](i requires 0 <= i < |R.E| => R.E[i]);
      u, z, E := R.u, zs, es;
      new;
      assert z[..] == R.z && E[..] == R.E;
    }

    method Snapshot() returns (R: Relaxed)
      ensures R == Contents()
    {
      R := Relaxed(u, z[..], E[..]);
    }

    /** Adds r times an instance and its cross term. */
    method Absorb(J: Relaxed, r: int, T: seq<int>, p: Modulus)
      requires Valid() && |J.z| == z.Length && |T| == E.Length
      modifies this`u, z, E
      ensures Contents() == Relaxed(FAdd(old(u), r, p), FoldSeq(old(z[..]), J.z, r, p), FoldSeq(old(E[..]), T, r, p))
    {
      u := FAdd(u, r, p);
      AddScaled(z, J.z, r, p);
      AddScaled(E, T, r, p);
    }
  }

  /** x[t] := x[t] + r * y[t] for every t. */
  method AddScaled(x: array<int>, y: seq<int>, r: int, p: Modulus)
    requires x.Length == |y|
    modifies x
    ensures x[..] == FoldSeq(old(x[..]), y, r, p)
  {
    hide FAdd, FMul;
    ghost var was := x[..];
    for t := 0 to x.Length
      invariant forall k :: 0 <= k < t ==> x[k] == FAdd(was[k], FMul(r, y[k], p), p)
      invariant forall k :: t <= k < x.Length ==> x[k] == was[k]
    {
      x[t] := FAdd(x[t], FMul(r, y[t], p), p);
    }
    assert x[..] == FoldSeq(was, y, r, p);
  }

  /** The cross terms as they are applied, one per instance. */
  ghost predicate AppliedTerms(S: Matrices, U: Relaxed, js: seq<Relaxed>, rs: seq<int>, T: seq<seq<int>>, p: Modulus)
    requires ValidMatrices(S) && Shaped(U, S) && |js| == |rs| && |T| <= |js|
    requires forall j :: 0 <= j < |js| ==> Shaped(js[j], S)
  {
    forall j :: 0 <= j < |T| ==> T[j] == CrossTerm(S, FoldAll(S, U, js[..j], rs[..j], p), js[j], p)
  }

  /** Folds k fresh instances in, each against the current accumulator. With a single instance the
      cross term computed for the transcript is reused. */
  method Multifold(S: Matrices, U: Relaxed, js: seq<Relaxed>, rs: seq<int>, p: Modulus) returns (folded: Relaxed, T: seq<seq<int>>)
    requires ValidMatrices(S) && Shaped(U, S) && |js| == |rs|
    requires forall j :: 0 <= j < |js| ==> Shaped(js[j], S) && IsFresh(js[j])
    ensures folded == FoldAll(S, U, js, rs, p)
    ensures |T| == |js| && AppliedTerms(S, U, js, rs, T, p)
  {
    hide CrossTerm, FoldSeq, IsFresh, FAdd;
    var k := |js|;
    var transcript: seq<seq<int>> := [];
    for j := 0 to k
      invariant |transcript| == j && forall i :: 0 <= i < j ==> transcript[i] == CrossTerm(S, U, js[i], p)
    {
      var t := CrossTermRows(S, U, js[j], p);
      transcript := transcript + [t];
    }
    var acc := new Accumulator(U);
    T := [];
    for j := 0 to k
      invariant acc.Valid() && fresh(acc) && fresh(acc.z) && fresh(acc.E)
      invariant acc.Contents() == FoldAll(S, U, js[..j], rs[..j], p)
      invariant |T| == j && AppliedTerms(S, U, js, rs, T, p)
    {
      var current := acc.Snapshot();
      var Tj;
      if j == 0 && k == 1 { Tj := transcript[0]; } else { Tj := CrossTermRows(S, current, js[j], p); }
      FoldAllStep(S, U, js, rs, j, p);
      acc.Absorb(js[j], rs[j], Tj, p);
      T := T + [Tj];
    }
    assert js[..k] == js && rs[..k] == rs;
    folded := acc.Snapshot();
  }

  lemma FoldAllStep(S: Matrices, U: Relaxed, js: seq<Relaxed>, rs: seq<int>, j: nat, p: Modulus)
    requires ValidMatrices(S) && Shaped(U, S) && |js| == |rs| && j < |js|
    requires forall i :: 0 <= i < |js| ==> Shaped(js[i], S)
    ensures FoldAll(S, U, js[..j + 1], rs[..j + 1], p) == Fold(S, FoldAll(S, U, js[..j], rs[..j], p), js[j], rs[j], p)
    ensures j == 0 ==> FoldAll(S, U, js[..j], rs[..j], p) == U
  {
    hide Fold;
    assert js[..j + 1][..j] == js[..j] && rs[..j + 1][..j] == rs[..j];
  }

  /** The fresh instances of the witnesses after the first. */
  function FreshTail(zs: seq<seq<int>>, n: nat): (js: seq<Relaxed>)
    requires zs != []
    ensures |js| == |zs| - 1
    ensures forall i :: 0 <= i < |js| ==> js[i].z == zs[i + 1] && |js[i].E| == n && IsFresh(js[i])
  {
    seq(|zs| - 1, i requires 0 <= i < |zs| - 1 => Fresh(zs[i + 1], n))
  }

  /** One step of the epoch: check the instance, fold it in, check the fold; failures are counted. */
  method EpochStep(S: Matrices, U: Relaxed, J: Relaxed, r: int, before: nat, p: int) returns (folded: Relaxed, failures: nat)
    requires IsPrime(p) && ValidMatrices(S) && Shaped(U, S) && Shaped(J, S) && IsFresh(J)
    requires before == 0 ==> Sat(S, U, p)
    ensures folded == Fold(S, U, J, r, p)
    ensures failures == 0 <==> before == 0 && Sat(S, J, p)
    ensures failures == 0 ==> Sat(S, folded, p)
    ensures failures == before + (if Sat(S, J, p) then 0 else 1) + if Sat(S, folded, p) then 0 else 1
  {
    hide Sat, Fold, Cong, IsFresh, Residual;
    failures := before;
    var atInstance := SatRelaxed(S, J, p);
    if atInstance != S.n { failures := failures + 1; }
    var T;
    folded, T := Multifold(S, U, [J], [r], p);
    SingleFold(S, U, J, r, p);
    if failures == 0 { FoldSat(S, U, J, r, p); }
    var atFold := SatRelaxed(S, folded, p);
    if atFold != S.n { failures := failures + 1; }
  }

  /** The witnesses among the first n that do not satisfy the system. */
  ghost function BadWitnesses(S: Matrices, zs: seq<seq<int>>, n: nat, p: Modulus): set<int>
    requires ValidMatrices(S) && n <= |zs| && forall k :: 0 <= k < |zs| ==> |zs[k]| == S.m
  {
    set k | 0 <= k < n && !Sat(S, Fresh(zs[k], S.n), p)
  }

  /** The numbers k below n, from 1 on, after which the folded instance is not satisfied. */
  ghost function BadFolds(S: Matrices, zs: seq<seq<int>>, rs: seq<int>, n: nat, p: Modulus): set<int>
    requires ValidMatrices(S) && zs != [] && |rs| == |zs| - 1 && n <= |zs|
    requires forall k :: 0 <= k < |zs| ==> |zs[k]| == S.m
  {
    set k | 1 <= k < n && !Sat(S, FoldAll(S, Fresh(zs[0], S.n), FreshTail(zs, S.n)[..k], rs[..k], p), p)
  }

  lemma OneWitnessMore(S: Matrices, zs: seq<seq<int>>, n: nat, p: Modulus)
    requires ValidMatrices(S) && n < |zs| && forall k :: 0 <= k < |zs| ==> |zs[k]| == S.m
    ensures |BadWitnesses(S, zs, n + 1, p)| ==
            |BadWitnesses(S, zs, n, p)| + if Sat(S, Fresh(zs[n], S.n), p) then 0 else 1
  {
    hide Sat;
    OneMore(BadWitnesses(S, zs, n, p), BadWitnesses(S, zs, n + 1, p), n);
  }

  lemma OneFoldMore(S: Matrices, zs: seq<seq<int>>, rs: seq<int>, n: nat, p: Modulus)
    requires ValidMatrices(S) && zs != [] && |rs| == |zs| - 1 && 1 <= n < |zs|
    requires forall k :: 0 <= k < |zs| ==> |zs[k]| == S.m
    ensures var U := FoldAll(S, Fresh(zs[0], S.n), FreshTail(zs, S.n)[..n], rs[..n], p);
            |BadFolds(S, zs, rs, n + 1, p)| == |BadFolds(S, zs, rs, n, p)| + if Sat(S, U, p) then 0 else 1
  {
    hide Sat, FoldAll;
    OneMore(BadFolds(S, zs, rs, n, p), BadFolds(S, zs, rs, n + 1, p), n);
  }

  lemma OneMore(s: set<int>, t: set<int>, n: int)
    requires n !in s && s <= t <= s + {n}
    ensures |t| == |s| + if n in t then 1 else 0
  {
    if n in t { assert t == s + {n}; } else { assert t == s; }
  }

  lemma TailStep(S: Matrices, zs: seq<seq<int>>, rs: seq<int>, k: nat, p: Modulus)
    requires ValidMatrices(S) && zs != [] && |rs| == |zs| - 1 && 1 <= k < |zs|
    requires forall j :: 0 <= j < |zs| ==> |zs[j]| == S.m
    ensures var U, js := Fresh(zs[0], S.n), FreshTail(zs, S.n);
            FoldAll(S, U, js[..k], rs[..k], p) ==
            Fold(S, FoldAll(S, U, js[..k - 1], rs[..k - 1], p), Fresh(zs[k], S.n), rs[k - 1], p)
  {
    hide Fold, FoldAll;
    FoldAllStep(S, Fresh(zs[0], S.n), FreshTail(zs, S.n), rs, k - 1, p);
  }

  lemma BeforeFolding(S: Matrices, zs: seq<seq<int>>, rs: seq<int>, p: Modulus)
    requires ValidMatrices(S) && zs != [] && |rs| == |zs| - 1
    requires forall k :: 0 <= k < |zs| ==> |zs[k]| == S.m
    ensures |BadWitnesses(S, zs, 1, p)| == (if Sat(S, Fresh(zs[0], S.n), p) then 0 else 1)
    ensures |BadFolds(S, zs, rs, 1, p)| == 0
  {
    hide Sat, FoldAll;
    var s := BadWitnesses(S, zs, 1, p);
    if 0 in s { assert s == {0}; } else { assert s == {}; }
    assert BadFolds(S, zs, rs, 1, p) == {};
  }

  /** The epoch loop: every witness becomes a fresh instance, is checked, folded in, and the fold is
      checked; failures are counted. The run is clean exactly when every witness satisfies the system. */
  method Epoch(S: Matrices, zs: seq<seq<int>>, rs: seq<int>, p: int) returns (U: Relaxed, foldCount: nat, failures: nat)
    requires IsPrime(p) && ValidMatrices(S) && zs != [] && |rs| == |zs| - 1
    requires forall k :: 0 <= k < |zs| ==> |zs[k]| == S.m
    ensures Shaped(U, S) && U == FoldAll(S, Fresh(zs[0], S.n), FreshTail(zs, S.n), rs, p)
    ensures foldCount == |zs| - 1
    ensures failures == 0 <==> forall k :: 0 <= k < |zs| ==> Sat(S, Fresh(zs[k], S.n), p)
    ensures failures == |BadWitnesses(S, zs, |zs|, p)| + |BadFolds(S, zs, rs, |zs|, p)|
  {
    hide Sat, Fold, FoldAll, IsFresh, BadWitnesses, BadFolds, FreshTail;
    ghost var js := FreshTail(zs, S.n);
    U := Fresh(zs[0], S.n);
    NoFold(S, U, js, rs, p);
    var first := SatRelaxed(S, U, p);
    failures := if first != S.n then 1 else 0;
    foldCount := 0;
    BeforeFolding(S, zs, rs, p);
    for step := 1 to |zs|
      invariant foldCount == step - 1 && Shaped(U, S)
      invariant U == FoldAll(S, Fresh(zs[0], S.n), js[..step - 1], rs[..step - 1], p)
      invariant failures == 0 <==> forall k :: 0 <= k < step ==> Sat(S, Fresh(zs[k], S.n), p)
      invariant failures == 0 ==> Sat(S, U, p)
      invariant failures == |BadWitnesses(S, zs, step, p)| + |BadFolds(S, zs, rs, step, p)|
    {
      OneWitnessMore(S, zs, step, p);
      OneFoldMore(S, zs, rs, step, p);
      FreshIsFresh(zs[step], S.n);
      TailStep(S, zs, rs, step, p);
      U, failures := EpochStep(S, U, Fresh(zs[step], S.n), rs[step - 1], failures, p);
      foldCount := foldCount + 1;
    }
    assert js[..|zs| - 1] == js && rs[..|zs| - 1] == rs;
  }

  lemma NoFold(S: Matrices, U: Relaxed, js: seq<Relaxed>, rs: seq<int>, p: Modulus)
    requires ValidMatrices(S) && Shaped(U, S)
    ensures FoldAll(S, U, js[..0], rs[..0], p) == U
  {
  }

  lemma FreshIsFresh(z: seq<int>, n: nat)
    ensures IsFresh(Fresh(z, n))
  {
  }

  lemma SingleFold(S: Matrices, U: Relaxed, J: Relaxed, r: int, p: Modulus)
    requires ValidMatrices(S) && Shaped(U, S) && Shaped(J, S)
    ensures FoldAll(S, U, [J], [r], p) == Fold(S, U, J, r, p)
  {
    hide Fold;
    assert [J][..0] == [] && [r][..0] == [];
  }
}
