/** Pedersen commitments over a group of order p and their fold: recommitting to the folded
    assignment with the folded blinding gives the folded commitment. */
module CommitmentFold {
  import opened Congruence
  import opened FieldOps
  import opened Ladder
  import Folding

  ghost predicate Commutative<T(!new)>(add: (T, T) -> T, on: T -> bool) {
    forall a, b :: on(a) && on(b) ==> add(a, b) == add(b, a)
  }

  /** Every element vanishes p-fold. */
  ghost predicate OfOrder<T(!new)>(add: (T, T) -> T, zero: T, on: T -> bool, p: nat) {
    forall a :: on(a) ==> Times(add, zero, a, p) == zero
  }

  ghost predicate PrimeGroup<T(!new)>(add: (T, T) -> T, zero: T, on: T -> bool, p: nat) {
    Law(add, zero, on) && Commutative(add, on) && OfOrder(add, zero, on, p)
  }

  ghost predicate AllOn<T(!new)>(on: T -> bool, H: seq<T>) {
    forall i :: 0 <= i < |H| ==> on(H[i])
  }

  predicate Scalars(m: seq<int>) {
    forall i :: 0 <= i < |m| ==> m[i] >= 0
  }

  // ------------------------------------------------------- the scalar action

  lemma ClosedSum<T(!new)>(add: (T, T) -> T, zero: T, on: T -> bool, a: T, b: T)
    requires Law(add, zero, on) && on(a) && on(b)
    ensures on(add(a, b))
  {
  }

  /** Scalars act modulo the group order: reduction modulo p changes nothing. */
  lemma TimesMod<T(!new)>(add: (T, T) -> T, zero: T, on: T -> bool, P: T, k: nat, p: nat)
    requires PrimeGroup(add, zero, on, p) && on(P) && p > 0
    ensures Times(add, zero, P, k % p) == Times(add, zero, P, k)
  {
    hide Law, Times, Commutative;
    var q, r := k / p, k % p;
    assert k == p * q + r;
    TimesTimes(add, zero, on, P, p, q);
    UnitTimes(add, zero, on, q);
    TimesAdd(add, zero, on, P, p * q, r);
    TimesOn(add, zero, on, P, r);
    UnitOf(add, zero, on, Times(add, zero, P, r));
  }

  /** (a + b) + (c + d) = (a + c) + (b + d). */
  lemma Interchange<T(!new)>(add: (T, T) -> T, zero: T, on: T -> bool, a: T, b: T, c: T, d: T)
    requires Law(add, zero, on) && Commutative(add, on) && on(a) && on(b) && on(c) && on(d)
    ensures add(add(a, b), add(c, d)) == add(add(a, c), add(b, d))
  {
    hide Law;
    ClosedSum(add, zero, on, c, d);
    ClosedSum(add, zero, on, b, d);
    Assoc(add, zero, on, a, b, add(c, d));
    Assoc(add, zero, on, b, c, d);
    Assoc(add, zero, on, c, b, d);
    Assoc(add, zero, on, a, c, add(b, d));
    assert add(b, c) == add(c, b);
  }

  lemma Assoc<T(!new)>(add: (T, T) -> T, zero: T, on: T -> bool, a: T, b: T, c: T)
    requires Law(add, zero, on) && on(a) && on(b) && on(c)
    ensures add(add(a, b), c) == add(a, add(b, c))
  {
    assert AssociatesAt(add, a, b, c);
  }

  /** k(P + Q) = kP + kQ. */
  lemma {:induction false} TimesOfSum<T(!new)>(add: (T, T) -> T, zero: T, on: T -> bool, P: T, Q: T, k: nat)
    requires Law(add, zero, on) && Commutative(add, on) && on(P) && on(Q)
    ensures Times(add, zero, add(P, Q), k) == add(Times(add, zero, P, k), Times(add, zero, Q, k))
  {
    hide Law, Commutative;
    if k == 0 {
      assert on(zero) by { ZeroOn(add, zero, on); }
      UnitOf(add, zero, on, zero);
    } else {
      TimesOfSum(add, zero, on, P, Q, k - 1);
      TimesOn(add, zero, on, P, k - 1);
      TimesOn(add, zero, on, Q, k - 1);
      Interchange(add, zero, on, Times(add, zero, P, k - 1), Times(add, zero, Q, k - 1), P, Q);
    }
  }

  lemma ZeroOn<T(!new)>(add: (T, T) -> T, zero: T, on: T -> bool)
    requires Law(add, zero, on)
    ensures on(zero)
  {
  }

  /** The folded scalar x + r*y, reduced modulo p, acts as x plus r times y. */
  lemma FoldedScalar<T(!new)>(add: (T, T) -> T, zero: T, on: T -> bool, P: T, x: nat, y: nat, r: nat, p: Modulus)
    requires PrimeGroup(add, zero, on, p) && on(P)
    ensures Times(add, zero, P, FAdd(x, FMul(r, y, p), p)) ==
            add(Times(add, zero, P, x), Times(add, zero, Times(add, zero, P, y), r))
  {
    hide Law, Times, Commutative, OfOrder, Cong;
    var s := FAdd(x, FMul(r, y, p), p);
    assert y * r >= 0;
    CongRefl(x, p);
    CongMod(r * y, p);
    AddC(x, x, FMul(r, y, p), r * y, p);
    CongResidue(s, x + y * r, p);
    TimesMod(add, zero, on, P, x + y * r, p);
    TimesAdd(add, zero, on, P, x, y * r);
    TimesTimes(add, zero, on, P, y, r);
  }

  // ------------------------------------------------------------ commitments

  /** rho*G + m_0*H_0 + m_1*H_1 + ... */
  ghost function Commit<T(!new)>(add: (T, T) -> T, zero: T, G: T, H: seq<T>, m: seq<int>, rho: nat): T
    requires |H| == |m| && Scalars(m)
    decreases |m|
  {
    if m == [] then Times(add, zero, G, rho)
    else
      var k := |m| - 1;
      add(Commit(add, zero, G, H[..k], m[..k], rho), Times(add, zero, H[k], m[k]))
  }

  /** No message: the blinding alone. */
  lemma CommitBlinding<T(!new)>(add: (T, T) -> T, zero: T, G: T, rho: nat)
    ensures Commit(add, zero, G, [], [], rho) == Times(add, zero, G, rho)
  {
  }

  /** More blinding adds that multiple of G, whatever the message. */
  lemma {:induction false} BlindingAdds<T(!new)>(add: (T, T) -> T, zero: T, on: T -> bool, G: T, H: seq<T>, m: seq<int>, rho: nat, t: nat)
    requires Law(add, zero, on) && Commutative(add, on) && on(G) && AllOn(on, H) && |H| == |m| && Scalars(m)
    ensures Commit(add, zero, G, H, m, rho + t) == add(Commit(add, zero, G, H, m, rho), Times(add, zero, G, t))
    decreases |m|
  {
    hide Law, Commutative, Times;
    if m == [] {
      TimesAdd(add, zero, on, G, rho, t);
    } else {
      var k := |m| - 1;
      BlindingAdds(add, zero, on, G, H[..k], m[..k], rho, t);
      var c, b, x := Commit(add, zero, G, H[..k], m[..k], rho), Times(add, zero, G, t), Times(add, zero, H[k], m[k]);
      CommitOn(add, zero, on, G, H[..k], m[..k], rho);
      TimesOn(add, zero, on, G, t);
      TimesOn(add, zero, on, H[k], m[k]);
      Assoc(add, zero, on, c, b, x);
      Assoc(add, zero, on, c, x, b);
      assert add(b, x) == add(x, b) by { CommuteAt(add, on, b, x); }
    }
  }

  lemma CommuteAt<T(!new)>(add: (T, T) -> T, on: T -> bool, a: T, b: T)
    requires Commutative(add, on) && on(a) && on(b)
    ensures add(a, b) == add(b, a)
  {
  }

  /** Scalar i counts multiples of base i: the commitment with it, from the commitment with zero there. */
  lemma {:induction false} CommitAt<T(!new)>(add: (T, T) -> T, zero: T, on: T -> bool, G: T, H: seq<T>, m: seq<int>, i: nat, rho: nat)
    requires Law(add, zero, on) && Commutative(add, on) && on(G) && AllOn(on, H) && |H| == |m| && Scalars(m) && i < |m|
    ensures Scalars(m[i := 0])
    ensures Commit(add, zero, G, H, m, rho) ==
            add(Commit(add, zero, G, H, m[i := 0], rho), Times(add, zero, H[i], m[i]))
    decreases |m|
  {
    hide Law, Commutative, Times;
    var k, n := |m| - 1, m[i := 0];
    var c, x := Commit(add, zero, G, H[..k], m[..k], rho), Times(add, zero, H[k], m[k]);
    CommitOn(add, zero, on, G, H[..k], m[..k], rho);
    TimesOn(add, zero, on, H[k], m[k]);
    if i == k {
      assert n[..k] == m[..k];
      TimesNone(add, zero, H[k]);
      UnitOf(add, zero, on, c);
    } else {
      assert n[..k] == m[..k][i := 0];
      CommitAt(add, zero, on, G, H[..k], m[..k], i, rho);
      var c0, y := Commit(add, zero, G, H[..k], n[..k], rho), Times(add, zero, H[i], m[i]);
      CommitOn(add, zero, on, G, H[..k], n[..k], rho);
      TimesOn(add, zero, on, H[i], m[i]);
      Assoc(add, zero, on, c0, y, x);
      Assoc(add, zero, on, c0, x, y);
      CommuteAt(add, on, x, y);
    }
  }

  /** No message and no blinding: the zero of the group. */
  lemma {:induction false} CommitZero<T(!new)>(add: (T, T) -> T, zero: T, on: T -> bool, G: T, H: seq<T>, m: seq<int>)
    requires Law(add, zero, on) && AllOn(on, H) && |H| == |m| && forall i :: 0 <= i < |m| ==> m[i] == 0
    ensures Commit(add, zero, G, H, m, 0) == zero
    decreases |m|
  {
    hide Law;
    TimesNone(add, zero, G);
    if m != [] {
      var k := |m| - 1;
      CommitZero(add, zero, on, G, H[..k], m[..k]);
      TimesNone(add, zero, H[k]);
      ZeroOn(add, zero, on);
      UnitOf(add, zero, on, zero);
    }
  }

  /** A one at position i and nothing else, unblinded, commits to base i. */
  lemma CommitUnit<T(!new)>(add: (T, T) -> T, zero: T, on: T -> bool, G: T, H: seq<T>, m: seq<int>, i: nat)
    requires Law(add, zero, on) && Commutative(add, on) && on(G) && AllOn(on, H) && |H| == |m| && i < |m|
    requires forall j :: 0 <= j < |m| ==> m[j] == if j == i then 1 else 0
    ensures Commit(add, zero, G, H, m, 0) == H[i]
  {
    hide Law, Commutative, Times, Commit;
    CommitAt(add, zero, on, G, H, m, i, 0);
    CommitZero(add, zero, on, G, H, m[i := 0]);
    TimesOne(add, zero, on, H[i]);
    UnitOf(add, zero, on, H[i]);
  }

  lemma TimesOne<T(!new)>(add: (T, T) -> T, zero: T, on: T -> bool, a: T)
    requires Law(add, zero, on) && on(a)
    ensures Times(add, zero, a, 1) == a
  {
    hide Law;
    TimesNone(add, zero, a);
    UnitOf(add, zero, on, a);
  }

  lemma {:induction false} CommitOn<T(!new)>(add: (T, T) -> T, zero: T, on: T -> bool, G: T, H: seq<T>, m: seq<int>, rho: nat)
    requires Law(add, zero, on) && on(G) && AllOn(on, H) && |H| == |m| && Scalars(m)
    ensures on(Commit(add, zero, G, H, m, rho))
    decreases |m|
  {
    hide Law;
    if m == [] {
      TimesOn(add, zero, on, G, rho);
    } else {
      var k := |m| - 1;
      CommitOn(add, zero, on, G, H[..k], m[..k], rho);
      TimesOn(add, zero, on, H[k], m[k]);
      ClosedSum(add, zero, on, Commit(add, zero, G, H[..k], m[..k], rho), Times(add, zero, H[k], m[k]));
    }
  }

  lemma FoldScalars(x: seq<int>, y: seq<int>, r: int, p: Modulus)
    requires |x| == |y|
    ensures Scalars(Folding.FoldSeq(x, y, r, p))
  {
  }

  /** The commitment to the folded assignment, under the folded blinding, is the folded commitment. */
  lemma {:induction false} CommitmentFolds<T(!new)>(add: (T, T) -> T, zero: T, on: T -> bool, G: T, H: seq<T>,
                                                     x: seq<int>, y: seq<int>, rhoX: nat, rhoY: nat, r: nat, p: Modulus)
    requires PrimeGroup(add, zero, on, p) && on(G) && AllOn(on, H)
    requires |H| == |x| == |y| && Scalars(x) && Scalars(y)
    ensures Scalars(Folding.FoldSeq(x, y, r, p))
    ensures Commit(add, zero, G, H, Folding.FoldSeq(x, y, r, p), FAdd(rhoX, FMul(r, rhoY, p), p)) ==
            add(Commit(add, zero, G, H, x, rhoX), Times(add, zero, Commit(add, zero, G, H, y, rhoY), r))
    decreases |x|
  {
    hide Law, Commutative, OfOrder, Times, FAdd, FMul;
    FoldScalars(x, y, r, p);
    if x == [] {
      FoldedScalar(add, zero, on, G, rhoX, rhoY, r, p);
    } else {
      var k := |x| - 1;
      var H', x', y' := H[..k], x[..k], y[..k];
      var z := Folding.FoldSeq(x, y, r, p);
      assert z[..k] == Folding.FoldSeq(x', y', r, p);
      CommitmentFolds(add, zero, on, G, H', x', y', rhoX, rhoY, r, p);
      FoldedScalar(add, zero, on, H[k], x[k], y[k], r, p);
      var cx, cy := Commit(add, zero, G, H', x', rhoX), Commit(add, zero, G, H', y', rhoY);
      var tx, ty := Times(add, zero, H[k], x[k]), Times(add, zero, H[k], y[k]);
      CommitOn(add, zero, on, G, H', x', rhoX);
      CommitOn(add, zero, on, G, H', y', rhoY);
      TimesOn(add, zero, on, H[k], x[k]);
      TimesOn(add, zero, on, H[k], y[k]);
      TimesOn(add, zero, on, cy, r);
      TimesOn(add, zero, on, ty, r);
      TimesOfSum(add, zero, on, cy, ty, r);
      Interchange(add, zero, on, cx, Times(add, zero, cy, r), tx, Times(add, zero, ty, r));
    }
  }

  // ---------------------------------------------------- committed instances

  /** The first n coordinates, with zeros for the missing ones: one scalar a base. */
  function Batch(z: seq<int>, n: nat): (m: seq<int>)
    ensures |m| == n && (Scalars(z) ==> Scalars(m))
  {
    seq(n, i requires 0 <= i < n => if i < |z| then z[i] else 0)
  }

  /** Coordinate i is that of z, or zero beyond it. */
  lemma BatchAt(z: seq<int>, n: nat, i: nat)
    requires i < n
    ensures i < |z| ==> Batch(z, n)[i] == z[i]
    ensures i >= |z| ==> Batch(z, n)[i] == 0
  {
  }

  lemma BatchFolds(x: seq<int>, y: seq<int>, r: int, n: nat, p: Modulus)
    requires |x| == |y|
    ensures Batch(Folding.FoldSeq(x, y, r, p), n) == Folding.FoldSeq(Batch(x, n), Batch(y, n), r, p)
  {
    SmallMod(0, p);
    assert r * 0 == 0;
  }

  /** An instance with its blinding and its commitment. */
  datatype Committed<T> = Committed(rel: Folding.Relaxed, W: T, rho: nat)

  ghost predicate Opens<T(!new)>(add: (T, T) -> T, zero: T, G: T, H: seq<T>, C: Committed<T>) {
    Scalars(C.rel.z) && C.W == Commit(add, zero, G, H, Batch(C.rel.z, |H|), C.rho)
  }

  function Instances<T>(cs: seq<Committed<T>>): (js: seq<Folding.Relaxed>)
    ensures |js| == |cs| && forall j :: 0 <= j < |cs| ==> js[j] == cs[j].rel
  {
    seq(|cs|, j requires 0 <= j < |cs| => cs[j].rel)
  }

  /** rho_U + r_0*rho_0 + r_1*rho_1 + ... in the field. */
  function FoldedRho<T>(rho: nat, cs: seq<Committed<T>>, rs: seq<nat>, p: Modulus): nat
    requires |cs| == |rs|
    decreases |cs|
  {
    if cs == [] then rho
    else
      var k := |cs| - 1;
      FAdd(FoldedRho(rho, cs[..k], rs[..k], p), FMul(rs[k], cs[k].rho, p), p)
  }

  /** W_U + r_0*W_0 + r_1*W_1 + ... in the group. */
  function FoldedPoint<T>(add: (T, T) -> T, zero: T, W: T, cs: seq<Committed<T>>, rs: seq<nat>): T
    requires |cs| == |rs|
    decreases |cs|
  {
    if cs == [] then W
    else
      var k := |cs| - 1;
      add(FoldedPoint(add, zero, W, cs[..k], rs[..k]), Times(add, zero, cs[k].W, rs[k]))
  }

  /** Read from the front: the first commitment joins the accumulator, then the rest. */
  lemma {:induction false} FoldedPointFront<T>(add: (T, T) -> T, zero: T, W: T, c: Committed<T>, cs: seq<Committed<T>>, r: nat, rs: seq<nat>)
    requires |cs| == |rs|
    ensures FoldedPoint(add, zero, W, [], []) == W
    ensures FoldedPoint(add, zero, W, [c] + cs, [r] + rs) == FoldedPoint(add, zero, add(W, Times(add, zero, c.W, r)), cs, rs)
    decreases |cs|
  {
    var ds, ts := [c] + cs, [r] + rs;
    if cs == [] {
      assert ds[..0] == [] && ts[..0] == [];
    } else {
      var k := |cs| - 1;
      FoldedPointFront(add, zero, W, c, cs[..k], r, rs[..k]);
      assert ds[..k + 1] == [c] + cs[..k] && ts[..k + 1] == [r] + rs[..k];
    }
  }

  lemma {:induction false} FoldedRhoFront<T>(rho: nat, c: Committed<T>, cs: seq<Committed<T>>, r: nat, rs: seq<nat>, p: Modulus)
    requires |cs| == |rs|
    ensures FoldedRho<T>(rho, [], [], p) == rho
    ensures r * c.rho >= 0 && FoldedRho(rho, [c] + cs, [r] + rs, p) == FoldedRho((rho + (r * c.rho) % p) % p, cs, rs, p)
    decreases |cs|
  {
    assert r * c.rho >= 0;
    var ds, ts := [c] + cs, [r] + rs;
    if cs == [] {
      assert ds[..0] == [] && ts[..0] == [];
    } else {
      var k := |cs| - 1;
      FoldedRhoFront(rho, c, cs[..k], r, rs[..k], p);
      assert ds[..k + 1] == [c] + cs[..k] && ts[..k + 1] == [r] + rs[..k];
    }
  }

  ghost predicate Committable<T(!new)>(add: (T, T) -> T, zero: T, G: T, H: seq<T>, S: Folding.Matrices, U: Committed<T>, cs: seq<Committed<T>>) {
    && Folding.ValidMatrices(S) && Folding.Shaped(U.rel, S) && Opens(add, zero, G, H, U)
    && forall j :: 0 <= j < |cs| ==> Folding.Shaped(cs[j].rel, S) && Opens(add, zero, G, H, cs[j])
  }

  /** Folding any number of committed instances in, one after the other: the recommitment to the folded
      assignment under the folded blinding is the accumulator's commitment plus the scaled
      commitments of the instances. */
  lemma {:induction false} CommitmentChain<T(!new)>(add: (T, T) -> T, zero: T, on: T -> bool, G: T, H: seq<T>, S: Folding.Matrices,
                                                     U: Committed<T>, cs: seq<Committed<T>>, rs: seq<nat>, p: Modulus)
    requires PrimeGroup(add, zero, on, p) && on(G) && AllOn(on, H) && |cs| == |rs|
    requires Committable(add, zero, G, H, S, U, cs)
    ensures var z := Folding.FoldAll(S, U.rel, Instances(cs), rs, p).z;
            && Scalars(z)
            && Commit(add, zero, G, H, Batch(z, |H|), FoldedRho(U.rho, cs, rs, p)) == FoldedPoint(add, zero, U.W, cs, rs)
    decreases |cs|
  {
    hide PrimeGroup, Commit, Times, FAdd, FMul, AllOn, Folding.Shaped, Folding.ValidMatrices;
    if cs != [] {
      var k, n := |cs| - 1, |H|;
      var js := Instances(cs);
      assert Instances(cs[..k]) == js[..k];
      CommitmentChain(add, zero, on, G, H, S, U, cs[..k], rs[..k], p);
      var V := Folding.FoldAll(S, U.rel, js[..k], rs[..k], p);
      FoldedAssignment(S, U.rel, js, rs, k, p);
      var x, y, r := V.z, js[k].z, rs[k];
      BatchFolds(x, y, r, n, p);
      FoldScalars(x, y, r, p);
      FoldScalars(Batch(x, n), Batch(y, n), r, p);
      CommitmentFolds(add, zero, on, G, H, Batch(x, n), Batch(y, n), FoldedRho(U.rho, cs[..k], rs[..k], p), cs[k].rho, r, p);
    }
  }

  lemma FoldedAssignment(S: Folding.Matrices, U: Folding.Relaxed, js: seq<Folding.Relaxed>, rs: seq<int>, k: nat, p: Modulus)
    requires Folding.ValidMatrices(S) && Folding.Shaped(U, S) && |js| == |rs| == k + 1
    requires forall j :: 0 <= j < |js| ==> Folding.Shaped(js[j], S)
    ensures var V := Folding.FoldAll(S, U, js[..k], rs[..k], p);
            |V.z| == |js[k].z| && Folding.FoldAll(S, U, js, rs, p).z == Folding.FoldSeq(V.z, js[k].z, rs[k], p)
  {
    hide Folding.FoldSeq, Folding.CrossTerm;
  }

  // ---------------------------------------------------------------- the loops

  /** The commitment loop. */
  method CommitTo<T(!new)>(add: (T, T) -> T, zero: T, G: T, H: seq<T>, m: seq<int>, rho: nat) returns (C: T)
    requires |H| == |m| && Scalars(m)
    ensures C == Commit(add, zero, G, H, m, rho)
  {
    C := Times(add, zero, G, rho);
    assert H[..0] == [] && m[..0] == [];
    for i := 0 to |m|
      invariant C == Commit(add, zero, G, H[..i], m[..i], rho)
    {
      assert H[..i + 1][..i] == H[..i] && m[..i + 1][..i] == m[..i];
      C := add(C, Times(add, zero, H[i], m[i]));
    }
    assert H[..|m|] == H && m[..|m|] == m;
  }

  method FoldCommitments<T>(add: (T, T) -> T, zero: T, U: Committed<T>, cs: seq<Committed<T>>, rs: seq<nat>) returns (acc: T)
    requires |cs| == |rs|
    ensures acc == FoldedPoint(add, zero, U.W, cs, rs)
  {
    acc := U.W;
    for j := 0 to |cs|
      invariant acc == FoldedPoint(add, zero, U.W, cs[..j], rs[..j])
    {
      assert cs[..j + 1][..j] == cs[..j] && rs[..j + 1][..j] == rs[..j];
      acc := add(acc, Times(add, zero, cs[j].W, rs[j]));
    }
    assert cs[..|cs|] == cs && rs[..|cs|] == rs;
  }

  /** The consistency check: recommit to z under the folded blinding and compare with the folded
      commitment; the point at infinity, which has no affine coordinates, is refused. For the
      assignment of the chained fold it succeeds exactly when that commitment is not infinity. */
  method CommitmentConsistent<T(==,!new)>(add: (T, T) -> T, zero: T, ghost on: T -> bool, G: T, H: seq<T>, ghost S: Folding.Matrices,
                                          U: Committed<T>, cs: seq<Committed<T>>, rs: seq<nat>, z: seq<int>, p: Modulus) returns (ok: bool)
    requires PrimeGroup(add, zero, on, p) && on(G) && AllOn(on, H) && |cs| == |rs|
    requires Committable(add, zero, G, H, S, U, cs) && Scalars(z)
    ensures ok <==> FoldedPoint(add, zero, U.W, cs, rs) != zero &&
                    Commit(add, zero, G, H, Batch(z, |H|), FoldedRho(U.rho, cs, rs, p)) == FoldedPoint(add, zero, U.W, cs, rs)
    ensures z == Folding.FoldAll(S, U.rel, Instances(cs), rs, p).z ==> (ok <==> FoldedPoint(add, zero, U.W, cs, rs) != zero)
  {
    hide PrimeGroup, Commit, Times, FAdd, FMul, AllOn, Opens;
    var rho := U.rho;
    for j := 0 to |cs|
      invariant rho == FoldedRho(U.rho, cs[..j], rs[..j], p)
    {
      assert cs[..j + 1][..j] == cs[..j] && rs[..j + 1][..j] == rs[..j];
      rho := FAdd(rho, FMul(rs[j], cs[j].rho, p), p);
    }
    assert cs[..|cs|] == cs && rs[..|cs|] == rs;
    var Wre := CommitTo(add, zero, G, H, Batch(z, |H|), rho);
    var Wfo := FoldCommitments(add, zero, U, cs, rs);
    CommitmentChain(add, zero, on, G, H, S, U, cs, rs, p);
    ok := Wre != zero && Wfo != zero && Wre == Wfo;
  }
}
