/** The ring laws of the integers, one product equation a lemma: proofs of polynomial identities call
    them instead of leaving the whole identity to the solver. */
module IntegerLaws {

  lemma Distribute(a: int, b: int, c: int)
    ensures a * (b + c) == a * b + a * c && (b + c) * a == b * a + c * a
  {
  }

  lemma DistributeSub(a: int, b: int, c: int)
    ensures a * (b - c) == a * b - a * c && (b - c) * a == b * a - c * a
  {
  }

  lemma Associate(a: int, b: int, c: int)
    ensures (a * b) * c == a * (b * c)
  {
  }

  /** The last two of three factors exchanged. */
  lemma SwapLast(a: int, b: int, c: int)
    ensures (a * b) * c == (a * c) * b
  {
  }

  /** The first two of three factors exchanged. */
  lemma SwapFirst(a: int, b: int, c: int)
    ensures a * (b * c) == b * (a * c)
  {
  }

  /** The second of three factors moved to the front. */
  lemma SecondOut(a: int, b: int, c: int)
    ensures a * b * c == b * (a * c)
  {
  }

  lemma Commute(a: int, b: int)
    ensures a * b == b * a
  {
  }

  /** The inner two of four factors exchanged. */
  lemma Exchange(a: int, b: int, c: int, d: int)
    ensures (a * b) * (c * d) == (a * c) * (b * d)
  {
    Associate(a, b, c * d);
    SwapFirst(b, c, d);
    Associate(a, c, b * d);
  }

  lemma ProductOfSums(a: int, b: int, c: int, d: int)
    ensures (a + b) * (c + d) == a * c + a * d + b * c + b * d
  {
    Distribute(a + b, c, d);
    Distribute(c, a, b);
    Distribute(d, a, b);
  }

  /** The square of a sum. */
  lemma SquareSum(a: int, b: int)
    ensures (a + b) * (a + b) == a * a + 2 * (a * b) + b * b
  {
    Distribute(a + b, a, b);
    Distribute(a, a, b);
    Distribute(b, a, b);
  }
}
