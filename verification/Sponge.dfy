/** The rate-2 sponge over a width-3 permutation: the incremental object, the reference, and the
    stream of blocks both absorb. */
module Sponge {
  import opened Congruence
  import opened FieldOps
  import opened Poseidon

  /** The state before the permutation fires, and the next rate slot. */
  datatype Duplex = Duplex(st: State3, idx: nat)

  /** Adds x into slot idx; a full block is permuted. */
  function AbsorbOne(d: Duplex, x: int, perm: State3 -> State3, p: Modulus): (e: Duplex)
    requires d.idx < 2
    ensures e.idx < 2
  {
    if d.idx == 0 then Duplex(d.st.(s0 := FAdd(d.st.s0, x, p)), 1)
    else Duplex(perm(d.st.(s1 := FAdd(d.st.s1, x, p))), 0)
  }

  function AbsorbAll(d: Duplex, xs: seq<int>, perm: State3 -> State3, p: Modulus): (e: Duplex)
    requires d.idx < 2
    ensures e.idx < 2
    decreases |xs|
  {
    if xs == [] then d else AbsorbOne(AbsorbAll(d, xs[..|xs| - 1], perm, p), xs[|xs| - 1], perm, p)
  }

  lemma AbsorbSnoc(d: Duplex, xs: seq<int>, x: int, perm: State3 -> State3, p: Modulus)
    requires d.idx < 2
    ensures AbsorbAll(d, xs + [x], perm, p) == AbsorbOne(AbsorbAll(d, xs, perm, p), x, perm, p)
  {
    assert (xs + [x])[..|xs|] == xs;
  }

  /** A half-filled block is permuted as it stands. */
  function Flush(d: Duplex, perm: State3 -> State3): State3 {
    if d.idx != 0 then perm(d.st) else d.st
  }

  /** The state after a message and its trailer: the length, then one, then the flush. */
  function Finished(d: Duplex, xs: seq<int>, n: int, perm: State3 -> State3, p: Modulus): State3
    requires d.idx < 2
  {
    Flush(AbsorbAll(d, xs + [n, 1], perm, p), perm)
  }

  function Start(iv: int): Duplex {
    Duplex(State3(0, 0, iv), 0)
  }

  /** The reference: absorb every element, the count, one, and permute a half-filled block. */
  method SpongeRef(p: Modulus, iv: int, elems: seq<int>, perm: State3 -> State3) returns (out: int)
    ensures out == Finished(Start(iv), elems, |elems|, perm, p).s0
  {
    hide AbsorbOne;
    var d := Start(iv);
    for i := 0 to |elems|
      invariant d == AbsorbAll(Start(iv), elems[..i], perm, p)
    {
      AbsorbSnoc(Start(iv), elems[..i], elems[i], perm, p);
      assert elems[..i + 1] == elems[..i] + [elems[i]];
      d := AbsorbOne(d, elems[i], perm, p);
    }
    assert elems[..|elems|] == elems;
    Trailer(Start(iv), elems, |elems|, perm, p);
    d := AbsorbOne(d, |elems|, perm, p);
    d := AbsorbOne(d, 1, perm, p);
    if d.idx != 0 { d := Duplex(perm(d.st), d.idx); }
    out := d.st.s0;
  }

  lemma Trailer(d: Duplex, xs: seq<int>, n: int, perm: State3 -> State3, p: Modulus)
    requires d.idx < 2
    ensures AbsorbAll(d, xs + [n, 1], perm, p) ==
            AbsorbOne(AbsorbOne(AbsorbAll(d, xs, perm, p), n, perm, p), 1, perm, p)
  {
    AbsorbSnoc(d, xs, n, perm, p);
    AbsorbSnoc(d, xs + [n], 1, perm, p);
    assert xs + [n] + [1] == xs + [n, 1];
  }

  // ------------------------------------------------------ the incremental sponge

  const WORD := 0x1_0000_0000_0000_0000

  class Absorber {
    const p: Modulus
    const perm: State3 -> State3
    var st: State3
    var idx: nat
    var count: nat

    ghost predicate Valid()
      reads this
    {
      idx < 2 && count < WORD
    }

    ghost function View(): Duplex
      reads this
    {
      Duplex(st, idx)
    }

    constructor (p: Modulus, perm: State3 -> State3, iv: int)
      ensures Valid() && View() == Start(iv) && count == 0 && this.p == p && this.perm == perm
    {
      this.p, this.perm := p, perm;
      st, idx, count := State3(0, 0, iv), 0, 0;
    }

    method Absorb(x: int)
      requires Valid()
      modifies this
      ensures Valid() && View() == AbsorbOne(old(View()), x, perm, p) && count == (old(count) + 1) % WORD
    {
      match idx {
        case 0 => st := st.(s0 := FAdd(st.s0, x, p));
        case _ => st := st.(s1 := FAdd(st.s1, x, p));
      }
      idx := idx + 1;
      if idx == 2 {
        st := perm(st);
        idx := 0;
      }
      count := (count + 1) % WORD;
    }

    /** The corrected squeeze: the block is permuted only when half filled. */
    method Squeeze() returns (out: int)
      requires Valid()
      modifies this
      ensures Valid() && idx == 0 && count == 0 && out == st.s0
      ensures st == Flush(AbsorbOne(AbsorbOne(old(View()), old(count), perm, p), 1, perm, p), perm)
    {
      Absorb(count);
      Absorb(1);
      if idx != 0 {
        st := perm(st);
        idx := 0;
      }
      count := 0;
      out := st.s0;
    }

    /** The squeeze it replaces: permutes once more than the reference. */
    method UncorrectedSqueeze() returns (out: int)
      requires Valid()
      modifies this
      ensures Valid() && idx == 0 && count == 0 && out == st.s0
      ensures st == perm(Flush(AbsorbOne(AbsorbOne(old(View()), old(count), perm, p), 1, perm, p), perm))
    {
      Absorb(count);
      Absorb(1);
      if idx != 0 { st := perm(st); }
      st := perm(st);
      idx := 0;
      count := 0;
      out := st.s0;
    }
  }

  /** Absorbing a message of fewer than 2^64 elements into a new sponge and squeezing gives the
      reference value; the sponge then stands at a block boundary with its count reset. */
  method Hash(p: Modulus, iv: int, elems: seq<int>, perm: State3 -> State3) returns (sponge: Absorber, out: int)
    requires |elems| < WORD
    ensures fresh(sponge) && sponge.Valid() && sponge.idx == 0 && sponge.count == 0
    ensures sponge.st == Finished(Start(iv), elems, |elems|, perm, p) && out == sponge.st.s0
  {
    hide AbsorbOne;
    sponge := new Absorber(p, perm, iv);
    for i := 0 to |elems|
      invariant fresh(sponge) && sponge.Valid() && sponge.p == p && sponge.perm == perm && sponge.count == i
      invariant sponge.View() == AbsorbAll(Start(iv), elems[..i], perm, p)
    {
      AbsorbSnoc(Start(iv), elems[..i], elems[i], perm, p);
      assert elems[..i + 1] == elems[..i] + [elems[i]];
      sponge.Absorb(elems[i]);
    }
    assert elems[..|elems|] == elems;
    Trailer(Start(iv), elems, |elems|, perm, p);
    out := sponge.Squeeze();
  }

  // ------------------------------------------------------------- the block stream

  /** What is absorbed, block by block: the residues of the elements, the length and one, completed
      to an even number by the zero that an unfilled slot contributes. */
  function Stream(xs: seq<int>, n: int, p: Modulus): (s: seq<int>)
    ensures |s| % 2 == 0
  {
    var body := seq(|xs|, i requires 0 <= i < |xs| => xs[i] % p) + [n % p, 1 % p];
    if |body| % 2 == 0 then body else body + [0]
  }

  /** Adding blocks of two into the rate, permuting after each. */
  function AbsorbBlocks(s: State3, blocks: seq<int>, perm: State3 -> State3, p: Modulus): State3
    requires |blocks| % 2 == 0
    decreases |blocks|
  {
    if blocks == [] then s
    else
      var k := |blocks| - 2;
      var t := AbsorbBlocks(s, blocks[..k], perm, p);
      perm(State3(FAdd(t.s0, blocks[k], p), FAdd(t.s1, blocks[k + 1], p), t.s2))
  }

  /** Slot additions see only residues. */
  lemma AddResidue(a: int, x: int, p: Modulus)
    ensures FAdd(a, x % p, p) == FAdd(a, x, p)
  {
    hide Cong;
    CongMod(x, p);
    CongRefl(a, p);
    AddC(a, a, x % p, x, p);
    CongResidue(FAdd(a, x % p, p), a + x, p);
  }

  predicate ReducedState(s: State3, p: Modulus) {
    0 <= s.s0 < p && 0 <= s.s1 < p
  }

  /** Every state the permutation returns is reduced. */
  ghost predicate Reduces(perm: State3 -> State3, p: Modulus) {
    forall s: State3 :: ReducedState(perm(s), p)
  }

  function Residues(xs: seq<int>, p: Modulus): (s: seq<int>)
    ensures |s| == |xs|
  {
    seq(|xs|, i requires 0 <= i < |xs| => xs[i] % p)
  }

  lemma ResiduesSnoc(xs: seq<int>, x: int, p: Modulus)
    ensures Residues(xs + [x], p) == Residues(xs, p) + [x % p]
  {
    assert forall i :: 0 <= i < |xs| ==> (xs + [x])[i] == xs[i];
  }

  /** Element by element and block by block come to the same state. */
  lemma {:induction false} ElementsAreBlocks(s: State3, xs: seq<int>, perm: State3 -> State3, p: Modulus)
    requires |xs| % 2 == 0
    ensures AbsorbAll(Duplex(s, 0), xs, perm, p) == Duplex(AbsorbBlocks(s, Residues(xs, p), perm, p), 0)
    decreases |xs|
  {
    hide FAdd;
    if xs != [] {
      var k := |xs| - 2;
      var ys, rs := xs[..k], Residues(xs, p);
      ElementsAreBlocks(s, ys, perm, p);
      assert xs == ys + [xs[k]] + [xs[k + 1]];
      AbsorbSnoc(Duplex(s, 0), ys, xs[k], perm, p);
      AbsorbSnoc(Duplex(s, 0), ys + [xs[k]], xs[k + 1], perm, p);
      assert rs[..k] == Residues(ys, p);
      var t := AbsorbBlocks(s, Residues(ys, p), perm, p);
      AddResidue(t.s0, xs[k], p);
      AddResidue(t.s1, xs[k + 1], p);
    }
  }

  /** The sponge is the block fold of the stream, for a permutation that returns residues. */
  lemma FinishedIsBlocks(iv: int, xs: seq<int>, n: int, perm: State3 -> State3, p: Modulus)
    requires Reduces(perm, p)
    ensures Finished(Start(iv), xs, n, perm, p) == AbsorbBlocks(State3(0, 0, iv), Stream(xs, n, p), perm, p)
  {
    hide FAdd, AbsorbBlocks;
    var s, ys := State3(0, 0, iv), xs + [n, 1];
    assert Residues(ys, p) == seq(|xs|, i requires 0 <= i < |xs| => xs[i] % p) + [n % p, 1 % p];
    if |ys| % 2 == 0 {
      ElementsAreBlocks(s, ys, perm, p);
    } else {
      var k := |ys| - 1;
      assert ys == ys[..k] + [ys[k]];
      ElementsAreBlocks(s, ys[..k], perm, p);
      AbsorbSnoc(Duplex(s, 0), ys[..k], ys[k], perm, p);
      ResiduesSnoc(ys[..k], ys[k], p);
      LastBlock(s, ys[..k], ys[k], perm, p);
    }
  }

  lemma BlocksSnoc(s: State3, bs: seq<int>, a: int, b: int, perm: State3 -> State3, p: Modulus)
    requires |bs| % 2 == 0
    ensures var t := AbsorbBlocks(s, bs, perm, p);
            AbsorbBlocks(s, bs + [a] + [b], perm, p) == perm(State3(FAdd(t.s0, a, p), FAdd(t.s1, b, p), t.s2))
  {
    hide FAdd;
    assert (bs + [a] + [b])[..|bs|] == bs;
  }

  lemma BlocksReduced(s: State3, bs: seq<int>, perm: State3 -> State3, p: Modulus)
    requires |bs| % 2 == 0 && Reduces(perm, p) && s.s1 == 0
    ensures 0 <= AbsorbBlocks(s, bs, perm, p).s1 < p
  {
    hide FAdd;
  }

  /** A half-filled block behaves as one completed by zero. */
  lemma LastBlock(s: State3, ys: seq<int>, y: int, perm: State3 -> State3, p: Modulus)
    requires |ys| % 2 == 0 && Reduces(perm, p) && s.s1 == 0
    ensures Flush(AbsorbOne(Duplex(AbsorbBlocks(s, Residues(ys, p), perm, p), 0), y, perm, p), perm) ==
            AbsorbBlocks(s, Residues(ys, p) + [y % p] + [0], perm, p)
  {
    hide FAdd, AbsorbBlocks, Reduces, Residues;
    var bs := Residues(ys, p);
    var t := AbsorbBlocks(s, bs, perm, p);
    BlocksSnoc(s, bs, y % p, 0, perm, p);
    AddResidue(t.s0, y, p);
    BlocksReduced(s, bs, perm, p);
    AddZero(t.s1, p);
  }

  lemma AddZero(a: int, p: Modulus)
    requires 0 <= a < p
    ensures FAdd(a, 0, p) == a
  {
    SmallMod(a, p);
  }

  /** States that follow one another by blocks of two. */
  lemma {:induction false} BlocksTrace(t: seq<State3>, e: seq<int>, k: nat, perm: State3 -> State3, p: Modulus)
    requires 2 * k <= |e| && k < |t|
    requires forall b :: 0 <= b < k ==>
               t[b + 1] == perm(State3((t[b].s0 + e[2 * b]) % p, (t[b].s1 + e[2 * b + 1]) % p, t[b].s2))
    ensures AbsorbBlocks(t[0], Residues(e[..2 * k], p), perm, p) == t[k]
  {
    var s, rs := t[0], Residues(e[..2 * k], p);
    if k > 0 {
      var i := k - 1;
      BlocksTrace(t, e, i, perm, p);
      assert rs[..2 * i] == Residues(e[..2 * i], p);
      assert t[i + 1] == t[k];
      AddResidue(t[i].s0, e[2 * i], p);
      AddResidue(t[i].s1, e[2 * i + 1], p);
    }
  }

  /** The message, its length, one, and a zero where the last block would be half filled: every run
      over the blocks of two of that sequence, from (0, 0, iv), ends in the state that is squeezed. */
  lemma SpongeTrace(iv: int, xs: seq<int>, e: seq<int>, t: seq<State3>, perm: State3 -> State3, p: Modulus)
    requires Reduces(perm, p) && e == xs + [|xs|, 1] + if |xs| % 2 == 1 then [0] else []
    requires |t| == |e| / 2 + 1 && t[0] == State3(0, 0, iv)
    requires forall b :: 0 <= b < |e| / 2 ==>
               t[b + 1] == perm(State3((t[b].s0 + e[2 * b]) % p, (t[b].s1 + e[2 * b + 1]) % p, t[b].s2))
    ensures Finished(Start(iv), xs, |xs|, perm, p) == t[|e| / 2]
  {
    hide Finished, AbsorbBlocks, Reduces;
    FinishedIsBlocks(iv, xs, |xs|, perm, p);
    BlocksTrace(t, e, |e| / 2, perm, p);
    assert e[..2 * (|e| / 2)] == e;
    SmallMod(0, p);
    assert Stream(xs, |xs|, p) == Residues(e, p);
  }

  predicate Message(xs: seq<int>, p: Modulus) {
    forall i :: 0 <= i < |xs| ==> 0 <= xs[i] < p
  }

  /** Different messages of residues are absorbed as different streams, whatever their lengths. */
  lemma StreamInjective(xs: seq<int>, ys: seq<int>, p: Modulus)
    requires p > 1 && Message(xs, p) && Message(ys, p) && Stream(xs, |xs|, p) == Stream(ys, |ys|, p)
    ensures xs == ys
  {
    var s, t := Stream(xs, |xs|, p), Stream(ys, |ys|, p);
    SmallMod(1, p);
    assert s[|xs| + 1] == 1 && t[|ys| + 1] == 1;
    assert |xs| % 2 == 1 ==> s[|xs| + 2] == 0;
    assert |ys| % 2 == 1 ==> t[|ys| + 2] == 0;
    assert |xs| == |ys|;
    forall i | 0 <= i < |xs| ensures xs[i] == ys[i] {
      assert s[i] == xs[i] % p && t[i] == ys[i] % p;
      SmallMod(xs[i], p);
      SmallMod(ys[i], p);
    }
  }

  /** The permutation of the system returns residues whenever it has at least one round. */
  lemma PermuteReduces(s: State3, rc: seq<int>, rf: nat, rp: nat, M: seq<seq<int>>, p: Modulus)
    requires IsTable(M) && 6 * rf + rp <= |rc| && rf + rp > 0
    ensures ReducedState(Permute(s, rc, rf, rp, M, p), p)
  {
    hide FullRounds, PartialRounds;
    var s1 := FullRounds(s, rc, 0, rf, M, p);
    if rf > 0 {
      LastRound(PartialRounds(s1, rc, 3 * rf, rp, M, p), rc, 3 * rf + rp, rf, M, p);
    } else {
      LastPartial(s1, rc, 3 * rf, rp, M, p);
      NoFullRound(PartialRounds(s1, rc, 3 * rf, rp, M, p), rc, 3 * rf + rp, M, p);
    }
  }

  lemma LastPartial(s: State3, rc: seq<int>, k: nat, r: nat, M: seq<seq<int>>, p: Modulus)
    requires IsTable(M) && k + r <= |rc| && r > 0
    ensures ReducedState(PartialRounds(s, rc, k, r, M, p), p)
  {
    hide Sbox;
  }

  lemma NoFullRound(s: State3, rc: seq<int>, k: nat, M: seq<seq<int>>, p: Modulus)
    requires IsTable(M) && k <= |rc|
    ensures FullRounds(s, rc, k, 0, M, p) == s
  {
  }

  lemma LastRound(s: State3, rc: seq<int>, k: nat, r: nat, M: seq<seq<int>>, p: Modulus)
    requires IsTable(M) && k + 3 * r <= |rc| && r > 0
    ensures ReducedState(FullRounds(s, rc, k, r, M, p), p)
  {
    hide Sbox;
  }
}
