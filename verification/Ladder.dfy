/** Double-and-add over any associative law with a unit: k-fold sums, most significant bit first
    and least significant bit first. */
module Ladder {

  /** zero is a unit and add is closed and associative on the elements satisfying on. */
  ghost predicate Law<T(!new)>(add: (T, T) -> T, zero: T, on: T -> bool) {
    && on(zero)
    && (forall a :: on(a) ==> add(zero, a) == a && add(a, zero) == a)
    && (forall a, b :: on(a) && on(b) ==> on(add(a, b)))
    && Associative(add, on)
  }

  ghost predicate Associative<T(!new)>(add: (T, T) -> T, on: T -> bool) {
    forall a, b, c {:trigger AssociatesAt(add, a, b, c)} :: on(a) && on(b) && on(c) ==> AssociatesAt(add, a, b, c)
  }

  ghost predicate AssociatesAt<T>(add: (T, T) -> T, a: T, b: T, c: T) {
    add(add(a, b), c) == add(a, add(b, c))
  }

  /** P added to zero k times. */
  function Times<T>(add: (T, T) -> T, zero: T, P: T, k: nat): T {
    if k == 0 then zero else add(Times(add, zero, P, k - 1), P)
  }

  lemma {:induction false} TimesOn<T(!new)>(add: (T, T) -> T, zero: T, on: T -> bool, P: T, k: nat)
    requires Law(add, zero, on) && on(P)
    ensures on(Times(add, zero, P, k))
  {
    if k > 0 { TimesOn(add, zero, on, P, k - 1); }
  }

  lemma {:induction false} TimesAdd<T(!new)>(add: (T, T) -> T, zero: T, on: T -> bool, P: T, i: nat, j: nat)
    requires Law(add, zero, on) && on(P)
    ensures Times(add, zero, P, i + j) == add(Times(add, zero, P, i), Times(add, zero, P, j))
    decreases j
  {
    TimesOn(add, zero, on, P, i);
    if j > 0 {
      TimesAdd(add, zero, on, P, i, j - 1);
      TimesOn(add, zero, on, P, j - 1);
      assert i + j - 1 == i + (j - 1);
      assert AssociatesAt(add, Times(add, zero, P, i), Times(add, zero, P, j - 1), P);
    }
  }

  /** One step from the top: double, then add P when the bit is set. */
  lemma DoubleAndAdd<T(!new)>(add: (T, T) -> T, zero: T, on: T -> bool, P: T, h: nat)
    requires Law(add, zero, on) && on(P)
    ensures Times(add, zero, P, 2 * h) == add(Times(add, zero, P, h), Times(add, zero, P, h))
    ensures Times(add, zero, P, 2 * h + 1) == add(Times(add, zero, P, 2 * h), P)
  {
    TimesAdd(add, zero, on, P, h, h);
    assert h + h == 2 * h;
  }

  /** Doubling the point halves the count. */
  lemma {:induction false} TimesDouble<T(!new)>(add: (T, T) -> T, zero: T, on: T -> bool, A: T, h: nat)
    requires Law(add, zero, on) && on(A)
    ensures Times(add, zero, add(A, A), h) == Times(add, zero, A, 2 * h)
  {
    if h > 0 {
      TimesDouble(add, zero, on, A, h - 1);
      TimesOn(add, zero, on, A, 2 * h - 2);
      assert AssociatesAt(add, Times(add, zero, A, 2 * h - 2), A, A);
      assert 2 * (h - 1) == 2 * h - 2;
      assert Times(add, zero, A, 2 * h - 1) == add(Times(add, zero, A, 2 * h - 2), A);
      assert Times(add, zero, A, 2 * h) == add(Times(add, zero, A, 2 * h - 1), A);
    }
  }

  /** One step from the bottom: the accumulator takes A when k is odd, A doubles and k halves. */
  lemma HalveAndAdd<T(!new)>(add: (T, T) -> T, zero: T, on: T -> bool, R: T, A: T, k: nat)
    requires Law(add, zero, on) && on(R) && on(A)
    ensures add(R, Times(add, zero, A, k)) ==
            add(if k % 2 == 1 then add(R, A) else R, Times(add, zero, add(A, A), k / 2))
  {
    var h := k / 2;
    TimesDouble(add, zero, on, A, h);
    TimesOn(add, zero, on, A, 2 * h);
    if k % 2 == 1 {
      TimesAdd(add, zero, on, A, 1, 2 * h);
      assert Times(add, zero, A, 0) == zero;
      assert Times(add, zero, A, 1) == A;
      assert k == 1 + 2 * h;
      assert AssociatesAt(add, R, A, Times(add, zero, A, 2 * h));
    } else {
      assert k == 2 * h;
    }
  }

  lemma UnitOf<T(!new)>(add: (T, T) -> T, zero: T, on: T -> bool, a: T)
    requires Law(add, zero, on) && on(a)
    ensures add(zero, a) == a && add(a, zero) == a
  {
  }

  lemma TimesNone<T>(add: (T, T) -> T, zero: T, a: T)
    ensures Times(add, zero, a, 0) == zero
  {
  }

  /** (a^i)^j = a^(ij) for any law. */
  lemma {:induction false} TimesTimes<T(!new)>(add: (T, T) -> T, zero: T, on: T -> bool, a: T, i: nat, j: nat)
    requires Law(add, zero, on) && on(a)
    ensures i * j >= 0 && Times(add, zero, Times(add, zero, a, i), j) == Times(add, zero, a, i * j)
    decreases j
  {
    if j > 0 {
      TimesTimes(add, zero, on, a, i, j - 1);
      assert i * j == i * (j - 1) + i;
      TimesAdd(add, zero, on, a, i * (j - 1), i);
    }
  }

  lemma {:induction false} UnitTimes<T(!new)>(add: (T, T) -> T, zero: T, on: T -> bool, k: nat)
    requires Law(add, zero, on)
    ensures Times(add, zero, zero, k) == zero
  {
    if k > 0 { UnitTimes(add, zero, on, k - 1); }
  }

  lemma TimesOnce<T(!new)>(add: (T, T) -> T, zero: T, on: T -> bool, a: T)
    requires Law(add, zero, on) && on(a)
    ensures Times(add, zero, a, 1) == a
  {
    assert Times(add, zero, a, 0) == zero;
  }

  lemma Cube<T(!new)>(add: (T, T) -> T, zero: T, on: T -> bool, a: T)
    requires Law(add, zero, on) && on(a)
    ensures Times(add, zero, a, 3) == add(add(a, a), a)
  {
    hide Law;
    TimesOnce(add, zero, on, a);
    assert Times(add, zero, a, 2) == add(Times(add, zero, a, 1), a);
  }
}
