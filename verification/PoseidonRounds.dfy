/** What a round and the permutation are, lane by lane and round by round, without the functions
    that compute them. */
module PoseidonRounds {
  import opened Congruence
  import opened PrimeField
  import opened Poseidon
  import opened PoseidonGadget
  import GadgetAgreement

  /** A row of the mix over lanes known up to the modulus. */
  lemma RowOfLanes(m: seq<int>, s: State3, a: int, b: int, c: int, p: Modulus)
    requires |m| == 3 && Cong(s.s0, a, p) && Cong(s.s1, b, p) && Cong(s.s2, c, p)
    ensures Dot3(m, s, p) == (m[0] * a + m[1] * b + m[2] * c) % p
  {
    hide Cong;
    CongRefl(m[0], p);
    CongRefl(m[1], p);
    CongRefl(m[2], p);
    CongMul(m[0], m[0], s.s0, a, p);
    CongMul(m[1], m[1], s.s1, b, p);
    CongMul(m[2], m[2], s.s2, c, p);
    CongAdd(m[0] * s.s0, m[0] * a, m[1] * s.s1, m[1] * b, p);
    CongAdd(m[0] * s.s0 + m[1] * s.s1, m[0] * a + m[1] * b, m[2] * s.s2, m[2] * c, p);
    CongToMod(m[0] * s.s0 + m[1] * s.s1 + m[2] * s.s2, m[0] * a + m[1] * b + m[2] * c, p);
  }

  /** Lane i of a full round is row i of the matrix times the fifth powers of lane plus constant. */
  lemma FullRoundLanes(s: State3, c0: int, c1: int, c2: int, M: seq<seq<int>>, p: Modulus)
    requires IsTable(M)
    ensures var a, b, c := Pow(s.s0 + c0, 5), Pow(s.s1 + c1, 5), Pow(s.s2 + c2, 5);
            FullRound(s, c0, c1, c2, M, p) == State3((M[0][0] * a + M[0][1] * b + M[0][2] * c) % p,
                                                     (M[1][0] * a + M[1][1] * b + M[1][2] * c) % p,
                                                     (M[2][0] * a + M[2][1] * b + M[2][2] * c) % p)
  {
    hide Cong, Sbox, Dot3, Pow;
    var a, b, c := Pow(s.s0 + c0, 5), Pow(s.s1 + c1, 5), Pow(s.s2 + c2, 5);
    GadgetAgreement.SboxC(s.s0 + c0, p);
    GadgetAgreement.SboxC(s.s1 + c1, p);
    GadgetAgreement.SboxC(s.s2 + c2, p);
    var u := State3(Sbox((s.s0 + c0) % p, p), Sbox((s.s1 + c1) % p, p), Sbox((s.s2 + c2) % p, p));
    RowOfLanes(M[0], u, a, b, c, p);
    RowOfLanes(M[1], u, a, b, c, p);
    RowOfLanes(M[2], u, a, b, c, p);
  }

  /** In a partial round only lane 0 takes a constant and a fifth power. */
  lemma PartialRoundLanes(s: State3, k: int, M: seq<seq<int>>, p: Modulus)
    requires IsTable(M)
    ensures var a := Pow(s.s0 + k, 5);
            PartialRound(s, k, M, p) == State3((M[0][0] * a + M[0][1] * s.s1 + M[0][2] * s.s2) % p,
                                               (M[1][0] * a + M[1][1] * s.s1 + M[1][2] * s.s2) % p,
                                               (M[2][0] * a + M[2][1] * s.s1 + M[2][2] * s.s2) % p)
  {
    hide Cong, Sbox, Dot3, Pow;
    var a := Pow(s.s0 + k, 5);
    GadgetAgreement.SboxC(s.s0 + k, p);
    CongRefl(s.s1, p);
    CongRefl(s.s2, p);
    var u := State3(Sbox((s.s0 + k) % p, p), s.s1, s.s2);
    RowOfLanes(M[0], u, a, s.s1, s.s2, p);
    RowOfLanes(M[1], u, a, s.s1, s.s2, p);
    RowOfLanes(M[2], u, a, s.s1, s.s2, p);
  }

  /** The partial round of the attic's gadget: row 2 reads lane 1 after row 1 has replaced it. */
  lemma InPlaceLanes(s: State3, k: int, M: seq<seq<int>>, p: Modulus)
    requires IsTable(M)
    ensures var a := Pow(s.s0 + k, 5);
            var x := (M[0][0] * a + M[0][1] * s.s1 + M[0][2] * s.s2) % p;
            var y := (M[1][0] * a + M[1][1] * s.s1 + M[1][2] * s.s2) % p;
            PartialRound(s, k, InPlaceMix(M), p) == State3(x, y, (M[2][0] * a + M[2][1] * y + M[2][2] * s.s2) % p)
  {
    hide Cong, Sbox, Dot3, Pow;
    var a := Pow(s.s0 + k, 5);
    PartialRoundLanes(s, k, M, p);
    GadgetAgreement.SboxC(s.s0 + k, p);
    var u := State3(Sbox((s.s0 + k) % p, p), s.s1, s.s2);
    var y := Dot3(M[1], u, p);
    InPlaceRow(M, u, y, p);
    CongRefl(y, p);
    CongRefl(s.s2, p);
    RowOfLanes(M[2], State3(u.s0, y, u.s2), a, y, s.s2, p);
  }

  // ---------------------------------------------------------------- schedules

  /** States that follow one another by full rounds, each with the next three constants. */
  lemma {:induction false} FullTrace(t: seq<State3>, rc: seq<int>, k: nat, r: nat, M: seq<seq<int>>, p: Modulus)
    requires IsTable(M) && k + 3 * r <= |rc| && |t| > r
    requires forall i :: 0 <= i < r ==>
               t[i + 1] == FullRound(t[i], rc[k + 3 * i], rc[k + 3 * i + 1], rc[k + 3 * i + 2], M, p)
    ensures FullRounds(t[0], rc, k, r, M, p) == t[r]
  {
    hide FullRound;
    if r > 0 {
      FullTrace(t, rc, k, r - 1, M, p);
      assert t[r - 1 + 1] == t[r];
    }
  }

  lemma {:induction false} PartialTrace(t: seq<State3>, rc: seq<int>, k: nat, r: nat, M: seq<seq<int>>, p: Modulus)
    requires IsTable(M) && k + r <= |rc| && |t| > r
    requires forall i :: 0 <= i < r ==> t[i + 1] == PartialRound(t[i], rc[k + i], M, p)
    ensures PartialRounds(t[0], rc, k, r, M, p) == t[r]
  {
    hide PartialRound;
    if r > 0 {
      PartialTrace(t, rc, k, r - 1, M, p);
      assert t[r - 1 + 1] == t[r];
    }
  }

  /** rf full rounds, rp partial rounds, rf full rounds, the constants consumed in order: every run
      of that schedule ends in the permutation, with L = M the reference and with L the in-place mix
      the attic's gadget. */
  lemma PermuteTrace(t: seq<State3>, rc: seq<int>, rf: nat, rp: nat, M: seq<seq<int>>, L: seq<seq<int>>, p: Modulus)
    requires IsTable(M) && IsTable(L) && 6 * rf + rp <= |rc| && |t| == 2 * rf + rp + 1
    requires forall i :: 0 <= i < rf ==> t[i + 1] == FullRound(t[i], rc[3 * i], rc[3 * i + 1], rc[3 * i + 2], M, p)
    requires forall i :: rf <= i < rf + rp ==> t[i + 1] == PartialRound(t[i], rc[3 * rf + (i - rf)], L, p)
    requires forall i :: rf + rp <= i < 2 * rf + rp ==>
               var j := 3 * rf + rp + 3 * (i - rf - rp);
               t[i + 1] == FullRound(t[i], rc[j], rc[j + 1], rc[j + 2], M, p)
    ensures PermuteWith(t[0], rc, rf, rp, M, L, p) == t[2 * rf + rp]
    ensures L == M ==> Permute(t[0], rc, rf, rp, M, p) == t[2 * rf + rp]
  {
    hide FullRound, PartialRound, FullRounds, PartialRounds;
    FullTrace(t, rc, 0, rf, M, p);
    var u, v := t[rf..], t[rf + rp..];
    forall i | 0 <= i < rp ensures u[i + 1] == PartialRound(u[i], rc[3 * rf + i], L, p) {
      assert u[i + 1] == t[rf + i + 1] && u[i] == t[rf + i];
    }
    PartialTrace(u, rc, 3 * rf, rp, L, p);
    forall i | 0 <= i < rf
      ensures v[i + 1] == FullRound(v[i], rc[3 * rf + rp + 3 * i], rc[3 * rf + rp + 3 * i + 1], rc[3 * rf + rp + 3 * i + 2], M, p)
    {
      assert v[i + 1] == t[rf + rp + i + 1] && v[i] == t[rf + rp + i];
    }
    FullTrace(v, rc, 3 * rf + rp, rf, M, p);
  }
}
