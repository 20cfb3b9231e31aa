/** The width-3 Poseidon permutation on residues: rounds of constants, fifth powers and a 3x3 mix,
    in the order full, partial, full. */
module Poseidon {
  import opened Congruence
  import opened PrimeField
  import opened SquareRoot

  datatype State3 = State3(s0: int, s1: int, s2: int)

  predicate IsTable(M: seq<seq<int>>) {
    |M| == 3 && |M[0]| == 3 && |M[1]| == 3 && |M[2]| == 3
  }

  function Sbox(x: int, p: Modulus): (r: int)
    ensures 0 <= r < p
  {
    PowMod(x, 5, p)
  }

  function Dot3(m: seq<int>, s: State3, p: Modulus): (r: int)
    requires |m| == 3
    ensures 0 <= r < p
  {
    (m[0] * s.s0 + m[1] * s.s1 + m[2] * s.s2) % p
  }

  function Mix(M: seq<seq<int>>, s: State3, p: Modulus): State3
    requires IsTable(M)
  {
    State3(Dot3(M[0], s, p), Dot3(M[1], s, p), Dot3(M[2], s, p))
  }

  /** Constants on every lane, fifth powers on every lane, mix. */
  function FullRound(s: State3, c0: int, c1: int, c2: int, M: seq<seq<int>>, p: Modulus): State3
    requires IsTable(M)
  {
    Mix(M, State3(Sbox((s.s0 + c0) % p, p), Sbox((s.s1 + c1) % p, p), Sbox((s.s2 + c2) % p, p)), p)
  }

  /** Constant and fifth power on lane 0 only, mix. */
  function PartialRound(s: State3, c: int, L: seq<seq<int>>, p: Modulus): State3
    requires IsTable(L)
  {
    Mix(L, State3(Sbox((s.s0 + c) % p, p), s.s1, s.s2), p)
  }

  function FullRounds(s: State3, rc: seq<int>, k: nat, r: nat, M: seq<seq<int>>, p: Modulus): State3
    requires IsTable(M) && k + 3 * r <= |rc|
    decreases r
  {
    if r == 0 then s
    else
      var j := k + 3 * (r - 1);
      FullRound(FullRounds(s, rc, k, r - 1, M, p), rc[j], rc[j + 1], rc[j + 2], M, p)
  }

  function PartialRounds(s: State3, rc: seq<int>, k: nat, r: nat, L: seq<seq<int>>, p: Modulus): State3
    requires IsTable(L) && k + r <= |rc|
    decreases r
  {
    if r == 0 then s else PartialRound(PartialRounds(s, rc, k, r - 1, L, p), rc[k + r - 1], L, p)
  }

  /** The permutation with the mix L in the partial rounds; the reference has L = M. */
  function PermuteWith(s: State3, rc: seq<int>, rf: nat, rp: nat, M: seq<seq<int>>, L: seq<seq<int>>, p: Modulus): State3
    requires IsTable(M) && IsTable(L) && 6 * rf + rp <= |rc|
  {
    FullRounds(PartialRounds(FullRounds(s, rc, 0, rf, M, p), rc, 3 * rf, rp, L, p), rc, 3 * rf + rp, rf, M, p)
  }

  function Permute(s: State3, rc: seq<int>, rf: nat, rp: nat, M: seq<seq<int>>, p: Modulus): State3
    requires IsTable(M) && 6 * rf + rp <= |rc|
  {
    PermuteWith(s, rc, rf, rp, M, M, p)
  }

  /** The reference loops over s and the constant index k. None where the source fails: an index
      past the constants, or the closing assertion that all of them were consumed. */
  method Poseidon3Ref(p: Modulus, iv: int, l: int, r: int, M: seq<seq<int>>, rc: seq<int>, rf: nat, rp: nat)
    returns (out: Option<int>)
    requires IsTable(M)
    ensures out == if |rc| == 6 * rf + rp then Some(Permute(State3(l, r, iv), rc, rf, rp, M, p).s0) else None
  {
    hide FullRound, PartialRound;
    var s, k := State3(l, r, iv), 0;
    for i := 0 to rf
      invariant k == 3 * i <= |rc| && s == FullRounds(State3(l, r, iv), rc, 0, i, M, p)
    {
      if k + 3 > |rc| { return None; }
      s := FullRound(s, rc[k], rc[k + 1], rc[k + 2], M, p);
      k := k + 3;
    }
    ghost var s1 := s;
    for i := 0 to rp
      invariant k == 3 * rf + i <= |rc| && s == PartialRounds(s1, rc, 3 * rf, i, M, p)
    {
      if k >= |rc| { return None; }
      s := PartialRound(s, rc[k], M, p);
      k := k + 1;
    }
    ghost var s2 := s;
    for i := 0 to rf
      invariant k == 3 * rf + rp + 3 * i <= |rc| && s == FullRounds(s2, rc, 3 * rf + rp, i, M, p)
    {
      if k + 3 > |rc| { return None; }
      s := FullRound(s, rc[k], rc[k + 1], rc[k + 2], M, p);
      k := k + 3;
    }
    if k != |rc| { return None; }
    out := Some(s.s0);
  }
}
