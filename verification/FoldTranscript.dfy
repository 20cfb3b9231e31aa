/** The k-fold with its challenges drawn from a sponge that has absorbed the accumulator, every
    instance and every cross term. */
module FoldTranscript {
  import opened Congruence
  import opened Poseidon
  import opened Sponge
  import opened Folding
  import FoldingEngine

  /** What one instance adds to the transcript, its cross term being taken against U. */
  function InstancePart(S: Matrices, U: Relaxed, J: Relaxed, p: Modulus): (t: seq<int>)
    requires ValidMatrices(S) && Shaped(U, S) && Shaped(J, S)
    ensures |t| == 1 + S.m + 2 * S.n
  {
    [J.u] + J.z + J.E + CrossTerm(S, U, J, p)
  }

  /** The accumulator, then every instance. */
  function Transcript(S: Matrices, U: Relaxed, js: seq<Relaxed>, p: Modulus): (t: seq<int>)
    requires ValidMatrices(S) && Shaped(U, S)
    requires forall j :: 0 <= j < |js| ==> Shaped(js[j], S)
    ensures |t| >= 1 + S.m + S.n
    decreases |js|
  {
    if js == [] then [U.u] + U.z + U.E
    else
      var k := |js| - 1;
      Transcript(S, U, js[..k], p) + InstancePart(S, U, js[k], p)
  }

  /** Where everything stands: after the accumulator and the earlier instances, an instance's u, z, E and
      the residues of its cross term. */
  lemma PartLayout(S: Matrices, U: Relaxed, J: Relaxed, p: Modulus)
    requires ValidMatrices(S) && Shaped(U, S) && Shaped(J, S)
    ensures var t := InstancePart(S, U, J, p);
            && t[0] == J.u && t[1..1 + S.m] == J.z && t[1 + S.m..1 + S.m + S.n] == J.E
            && forall i :: 0 <= i < S.n ==> t[1 + S.m + S.n..][i] == CrossAt(S, U, J, i) % p
  {
    hide CrossAt;
    var t := InstancePart(S, U, J, p);
    assert t[1 + S.m + S.n..] == CrossTerm(S, U, J, p);
  }

  lemma {:induction false} TranscriptLayout(S: Matrices, U: Relaxed, js: seq<Relaxed>, j: nat, p: Modulus)
    requires ValidMatrices(S) && Shaped(U, S) && j < |js|
    requires forall i :: 0 <= i < |js| ==> Shaped(js[i], S)
    ensures Transcript(S, U, js[..j], p) + InstancePart(S, U, js[j], p) <= Transcript(S, U, js, p)
    decreases |js|
  {
    hide InstancePart;
    var k := |js| - 1;
    if j < k {
      TranscriptLayout(S, U, js[..k], j, p);
      assert js[..k][..j] == js[..j];
    }
  }

  lemma TranscriptStart(S: Matrices, U: Relaxed, p: Modulus)
    requires ValidMatrices(S) && Shaped(U, S)
    ensures Transcript(S, U, [], p) == [U.u] + U.z + U.E
  {
  }

  /** Cross terms that differ give parts that differ, even for one instance. */
  lemma CrossTermCounts(S: Matrices, U: Relaxed, V: Relaxed, J: Relaxed, i: nat, p: Modulus)
    requires ValidMatrices(S) && Shaped(U, S) && Shaped(V, S) && Shaped(J, S) && i < S.n
    requires CrossAt(S, U, J, i) % p != CrossAt(S, V, J, i) % p
    ensures InstancePart(S, U, J, p) != InstancePart(S, V, J, p)
  {
    hide CrossAt;
    var n := 1 + S.m + S.n + i;
    assert InstancePart(S, U, J, p)[n] == CrossTerm(S, U, J, p)[i];
    assert InstancePart(S, V, J, p)[n] == CrossTerm(S, V, J, p)[i];
  }

  /** The transcript determines the accumulator, the number of instances and each of them. */
  lemma {:induction false} TranscriptInjective(S: Matrices, U: Relaxed, js: seq<Relaxed>, V: Relaxed, ks: seq<Relaxed>, p: Modulus)
    requires ValidMatrices(S) && Shaped(U, S) && Shaped(V, S)
    requires forall j :: 0 <= j < |js| ==> Shaped(js[j], S)
    requires forall j :: 0 <= j < |ks| ==> Shaped(ks[j], S)
    requires Transcript(S, U, js, p) == Transcript(S, V, ks, p)
    ensures U == V && js == ks
    decreases |js|
  {
    hide CrossTerm;
    if js == [] || ks == [] {
      SameLength(S, U, js, V, ks, p);
      SameInstance(U.u, U.z, U.E, [], V.u, V.z, V.E, []);
    } else {
      var a, b := |js| - 1, |ks| - 1;
      var x, y := Transcript(S, U, js[..a], p), Transcript(S, V, ks[..b], p);
      var J, K := InstancePart(S, U, js[a], p), InstancePart(S, V, ks[b], p);
      SplitEqual(x, J, y, K);
      TranscriptInjective(S, U, js[..a], V, ks[..b], p);
      SameInstance(js[a].u, js[a].z, js[a].E, CrossTerm(S, U, js[a], p), ks[b].u, ks[b].z, ks[b].E, CrossTerm(S, V, ks[b], p));
      assert js == js[..a] + [js[a]] && ks == ks[..b] + [ks[b]];
    }
  }

  /** One of two equal transcripts without instances: so is the other. */
  lemma SameLength(S: Matrices, U: Relaxed, js: seq<Relaxed>, V: Relaxed, ks: seq<Relaxed>, p: Modulus)
    requires ValidMatrices(S) && Shaped(U, S) && Shaped(V, S)
    requires forall j :: 0 <= j < |js| ==> Shaped(js[j], S)
    requires forall j :: 0 <= j < |ks| ==> Shaped(ks[j], S)
    requires Transcript(S, U, js, p) == Transcript(S, V, ks, p) && (js == [] || ks == [])
    ensures js == [] && ks == []
  {
    TranscriptLength(S, U, js, p);
    TranscriptLength(S, V, ks, p);
  }

  lemma TranscriptLength(S: Matrices, U: Relaxed, js: seq<Relaxed>, p: Modulus)
    requires ValidMatrices(S) && Shaped(U, S)
    requires forall j :: 0 <= j < |js| ==> Shaped(js[j], S)
    ensures |Transcript(S, U, js, p)| == 1 + S.m + S.n <==> js == []
  {
    hide InstancePart;
  }

  lemma SplitEqual(x: seq<int>, a: seq<int>, y: seq<int>, b: seq<int>)
    requires x + a == y + b && |a| == |b|
    ensures x == y && a == b
  {
    assert x == (x + a)[..|x|] && y == (y + b)[..|y|];
    assert a == (x + a)[|x|..] && b == (y + b)[|y|..];
  }

  lemma SameInstance(u: int, z: seq<int>, E: seq<int>, t: seq<int>, u': int, z': seq<int>, E': seq<int>, t': seq<int>)
    requires [u] + z + E + t == [u'] + z' + E' + t' && |z| == |z'| && |E| == |E'| && |t| == |t'|
    ensures u == u' && z == z' && E == E' && t == t'
  {
    SplitEqual([u] + z + E, t, [u'] + z' + E', t');
    SplitEqual([u] + z, E, [u'] + z', E');
    SplitEqual([u], z, [u'], z');
    assert [u][0] == [u'][0];
  }

  /** Reduced instances with the same block stream are the same instances: nothing that is folded is
      left out of what the challenges are drawn from. */
  lemma StreamBinds(S: Matrices, U: Relaxed, js: seq<Relaxed>, V: Relaxed, ks: seq<Relaxed>, p: Modulus)
    requires p > 1 && ValidMatrices(S) && Shaped(U, S) && Shaped(V, S)
    requires forall j :: 0 <= j < |js| ==> Shaped(js[j], S)
    requires forall j :: 0 <= j < |ks| ==> Shaped(ks[j], S)
    requires var t, t' := Transcript(S, U, js, p), Transcript(S, V, ks, p);
             Message(t, p) && Message(t', p) && Stream(t, |t|, p) == Stream(t', |t'|, p)
    ensures U == V && js == ks
  {
    hide Transcript, Stream;
    StreamInjective(Transcript(S, U, js, p), Transcript(S, V, ks, p), p);
    TranscriptInjective(S, U, js, V, ks, p);
  }

  /** The seed is the sponge's value of the transcript. */
  function Seed(S: Matrices, U: Relaxed, js: seq<Relaxed>, iv: int, perm: State3 -> State3, p: Modulus): int
    requires ValidMatrices(S) && Shaped(U, S)
    requires forall j :: 0 <= j < |js| ==> Shaped(js[j], S)
  {
    var t := Transcript(S, U, js, p);
    Finished(Start(iv), t, |t|, perm, p).s0
  }

  /** Challenge j is the two-to-one hash of the seed and j. */
  function Challenges(seed: int, k: nat, iv: int, perm: State3 -> State3): (rs: seq<int>)
    ensures |rs| == k
  {
    seq(k, j requires 0 <= j < k => perm(State3(seed, j, iv)).s0)
  }

  /** Where lane 0 of the permutation separates the indices below k, the k challenges are pairwise different. */
  lemma ChallengesDiffer(seed: int, k: nat, iv: int, perm: State3 -> State3)
    requires forall i, j :: 0 <= i < j < k ==> perm(State3(seed, i, iv)).s0 != perm(State3(seed, j, iv)).s0
    ensures forall i, j :: 0 <= i < j < k ==> Challenges(seed, k, iv, perm)[i] != Challenges(seed, k, iv, perm)[j]
  {
  }

  method AbsorbSeq(sponge: Absorber, xs: seq<int>, ghost before: seq<int>, ghost iv: int)
    requires sponge.Valid() && sponge.count == |before| && |before| + |xs| < WORD
    requires sponge.View() == AbsorbAll(Start(iv), before, sponge.perm, sponge.p)
    modifies sponge
    ensures sponge.Valid() && sponge.count == |before| + |xs|
    ensures sponge.View() == AbsorbAll(Start(iv), before + xs, sponge.perm, sponge.p)
  {
    hide AbsorbOne;
    assert before + xs[..0] == before;
    for i := 0 to |xs|
      invariant sponge.Valid() && sponge.count == |before| + i
      invariant sponge.View() == AbsorbAll(Start(iv), before + xs[..i], sponge.perm, sponge.p)
    {
      AbsorbSnoc(Start(iv), before + xs[..i], xs[i], sponge.perm, sponge.p);
      assert before + xs[..i + 1] == before + xs[..i] + [xs[i]];
      sponge.Absorb(xs[i]);
    }
    assert xs[..|xs|] == xs;
  }

  method AbsorbInstance(sponge: Absorber, J: Relaxed, ghost before: seq<int>, ghost iv: int)
    requires sponge.Valid() && sponge.count == |before| && |before| + 1 + |J.z| + |J.E| < WORD
    requires sponge.View() == AbsorbAll(Start(iv), before, sponge.perm, sponge.p)
    modifies sponge
    ensures sponge.Valid() && sponge.count == |before| + 1 + |J.z| + |J.E|
    ensures sponge.View() == AbsorbAll(Start(iv), before + ([J.u] + J.z + J.E), sponge.perm, sponge.p)
  {
    hide AbsorbOne, AbsorbAll;
    AbsorbSeq(sponge, [J.u], before, iv);
    AbsorbSeq(sponge, J.z, before + [J.u], iv);
    AbsorbSeq(sponge, J.E, before + [J.u] + J.z, iv);
    assert before + [J.u] + J.z + J.E == before + ([J.u] + J.z + J.E);
  }

  /** The cross terms of the transcript, all against U. */
  method TranscriptTerms(S: Matrices, U: Relaxed, js: seq<Relaxed>, p: Modulus) returns (terms: seq<seq<int>>)
    requires ValidMatrices(S) && Shaped(U, S)
    requires forall j :: 0 <= j < |js| ==> Shaped(js[j], S)
    ensures |terms| == |js| && forall j :: 0 <= j < |js| ==> terms[j] == CrossTerm(S, U, js[j], p)
  {
    hide CrossTerm;
    terms := [];
    for j := 0 to |js|
      invariant |terms| == j && forall i :: 0 <= i < j ==> terms[i] == CrossTerm(S, U, js[i], p)
    {
      var t := FoldingEngine.CrossTermRows(S, U, js[j], p);
      terms := terms + [t];
    }
  }

  /** The transcript absorbed and the seed squeezed. */
  method DrawSeed(S: Matrices, U: Relaxed, js: seq<Relaxed>, iv: int, perm: State3 -> State3, p: Modulus) returns (seed: int)
    requires ValidMatrices(S) && Shaped(U, S)
    requires forall j :: 0 <= j < |js| ==> Shaped(js[j], S)
    requires |Transcript(S, U, js, p)| < WORD
    ensures seed == Seed(S, U, js, iv, perm, p)
    ensures var t := Transcript(S, U, js, p);
            seed == Flush(AbsorbAll(Duplex(State3(0, 0, iv), 0), t + [|t|, 1], perm, p), perm).s0
  {
    hide AbsorbOne, AbsorbAll, CrossTerm, Flush, Transcript;
    var terms := TranscriptTerms(S, U, js, p);
    var sponge := new Absorber(p, perm, iv);
    NothingAbsorbed(iv, perm, p);
    TranscriptGrows(S, U, js, 0, p);
    TranscriptNone(S, U, js, p);
    AbsorbInstance(sponge, U, [], iv);
    for j := 0 to |js|
      invariant sponge.Valid() && fresh(sponge) && sponge.p == p && sponge.perm == perm
      invariant sponge.count == |Transcript(S, U, js[..j], p)|
      invariant sponge.View() == AbsorbAll(Start(iv), Transcript(S, U, js[..j], p), perm, p)
    {
      ghost var before := Transcript(S, U, js[..j], p);
      ghost var front := [js[j].u] + js[j].z + js[j].E;
      TranscriptGrows(S, U, js, j + 1, p);
      TranscriptStep(S, U, js, j, p);
      AbsorbInstance(sponge, js[j], before, iv);
      AbsorbSeq(sponge, terms[j], before + front, iv);
      assert before + front + terms[j] == before + (front + terms[j]);
    }
    assert js[..|js|] == js;
    Trailer(Start(iv), Transcript(S, U, js, p), |Transcript(S, U, js, p)|, perm, p);
    seed := sponge.Squeeze();
  }

  method DrawChallenges(seed: int, k: nat, iv: int, perm: State3 -> State3) returns (rs: seq<int>)
    ensures rs == Challenges(seed, k, iv, perm)
  {
    rs := [];
    for j := 0 to k
      invariant |rs| == j && forall i :: 0 <= i < j ==> rs[i] == perm(State3(seed, i, iv)).s0
    {
      rs := rs + [perm(State3(seed, j, iv)).s0];
    }
  }

  /** Cross terms, transcript, seed, challenges, and then the chained fold with those challenges. */
  method MultifoldDrawn(S: Matrices, U: Relaxed, js: seq<Relaxed>, iv: int, perm: State3 -> State3, p: Modulus)
    returns (folded: Relaxed, T: seq<seq<int>>, rs: seq<int>, seed: int)
    requires ValidMatrices(S) && Shaped(U, S)
    requires forall j :: 0 <= j < |js| ==> Shaped(js[j], S) && IsFresh(js[j])
    requires |Transcript(S, U, js, p)| < WORD
    ensures seed == Seed(S, U, js, iv, perm, p) && |rs| == |js|
    ensures forall j :: 0 <= j < |js| ==> rs[j] == perm(State3(seed, j, iv)).s0
    ensures folded == FoldAll(S, U, js, rs, p)
    ensures |T| == |js| && FoldingEngine.AppliedTerms(S, U, js, rs, T, p)
  {
    hide IsFresh, Seed, FoldAll, FoldingEngine.AppliedTerms, Transcript;
    seed := DrawSeed(S, U, js, iv, perm, p);
    rs := DrawChallenges(seed, |js|, iv, perm);
    folded, T := FoldingEngine.Multifold(S, U, js, rs, p);
  }

  lemma TranscriptNone(S: Matrices, U: Relaxed, js: seq<Relaxed>, p: Modulus)
    requires ValidMatrices(S) && Shaped(U, S)
    ensures Transcript(S, U, js[..0], p) == [U.u] + U.z + U.E == [] + ([U.u] + U.z + U.E)
  {
  }

  lemma NothingAbsorbed(iv: int, perm: State3 -> State3, p: Modulus)
    ensures AbsorbAll(Start(iv), [], perm, p) == Start(iv)
  {
  }

  lemma TranscriptStep(S: Matrices, U: Relaxed, js: seq<Relaxed>, j: nat, p: Modulus)
    requires ValidMatrices(S) && Shaped(U, S) && j < |js|
    requires forall i :: 0 <= i < |js| ==> Shaped(js[i], S)
    ensures Transcript(S, U, js[..j + 1], p) == Transcript(S, U, js[..j], p) + InstancePart(S, U, js[j], p)
  {
    hide InstancePart;
    assert js[..j + 1][..j] == js[..j];
  }

  /** A shorter list has no longer transcript. */
  lemma {:induction false} TranscriptGrows(S: Matrices, U: Relaxed, js: seq<Relaxed>, j: nat, p: Modulus)
    requires ValidMatrices(S) && Shaped(U, S) && j <= |js|
    requires forall i :: 0 <= i < |js| ==> Shaped(js[i], S)
    ensures |Transcript(S, U, js[..j], p)| <= |Transcript(S, U, js, p)|
    decreases |js| - j
  {
    hide InstancePart, Transcript;
    if j == |js| {
      assert js[..j] == js;
    } else {
      TranscriptStep(S, U, js, j, p);
      TranscriptGrows(S, U, js, j + 1, p);
    }
  }
}
