/** Lists of constraints: what it means that they hold, and appending them as rows. */
module ConstraintLists {
  import opened Congruence
  import opened R1cs
  import opened ConstraintBuilder

  /** Every constraint of the list holds of z. */
  ghost predicate ListHolds(ks: seq<Constraint>, z: seq<int>, p: Modulus) {
    forall t :: 0 <= t < |ks| ==> Holds(ks[t], z, p)
  }

  lemma ListConcat(k: seq<Constraint>, l: seq<Constraint>, z: seq<int>, p: Modulus)
    ensures ListHolds(k + l, z, p) <==> ListHolds(k, z, p) && ListHolds(l, z, p)
  {
    hide Holds;
    if ListHolds(k + l, z, p) {
      assert forall t :: 0 <= t < |k| ==> (k + l)[t] == k[t];
      assert forall t :: 0 <= t < |l| ==> (k + l)[|k| + t] == l[t];
    }
  }

  lemma ListOne(k: Constraint, z: seq<int>, p: Modulus)
    ensures ListHolds([k], z, p) <==> Holds(k, z, p)
  {
    hide Holds;
    if ListHolds([k], z, p) { assert Holds([k][0], z, p); }
  }

  lemma ListNone(z: seq<int>, p: Modulus)
    ensures ListHolds([], z, p)
  {
  }

  ghost function PushList(S: System, ks: seq<Constraint>): (T: System)
    ensures T.w == S.w && T.row == S.row + |ks|
    decreases |ks|
  {
    if ks == [] then S else PushConstraint(PushList(S, ks[..|ks| - 1]), ks[|ks| - 1])
  }

  lemma PushListSnoc(S: System, ks: seq<Constraint>, k: Constraint)
    ensures PushList(S, ks + [k]) == PushConstraint(PushList(S, ks), k)
  {
    assert (ks + [k])[..|ks|] == ks;
  }

  /** No entry of any matrix at row i. */
  ghost predicate EmptyRow(S: System, i: nat)
    requires Aligned(S.A) && Aligned(S.B) && Aligned(S.C)
  {
    RowOf(S, i) == Constraint([], [], [])
  }

  function Joined(k: Constraint, l: Constraint): Constraint {
    Constraint(k.a + l.a, k.b + l.b, k.c + l.c)
  }

  lemma PushConstraintJoins(S: System, k: Constraint, i: nat)
    requires Aligned(S.A) && Aligned(S.B) && Aligned(S.C)
    ensures var T := PushConstraint(S, k);
            && Aligned(T.A) && Aligned(T.B) && Aligned(T.C)
            && RowOf(T, i) == if i == S.row then Joined(RowOf(S, i), k) else RowOf(S, i)
  {
    hide PushAll, RowForm;
    RowFormPushAll(S.A, S.row, k.a, i);
    RowFormPushAll(S.B, S.row, k.b, i);
    RowFormPushAll(S.C, S.row, k.c, i);
  }

  /** Appending at any row index, even one already in use: rows outside the appended range stay, and
      inside it the new entries follow the old. */
  lemma {:induction false} PushListJoins(S: System, ks: seq<Constraint>, i: nat)
    requires Aligned(S.A) && Aligned(S.B) && Aligned(S.C)
    ensures var T := PushList(S, ks);
            && Aligned(T.A) && Aligned(T.B) && Aligned(T.C)
            && RowOf(T, i) == if S.row <= i < S.row + |ks| then Joined(RowOf(S, i), ks[i - S.row]) else RowOf(S, i)
    decreases |ks|
  {
    hide PushConstraint, RowOf;
    if ks != [] {
      var m := |ks| - 1;
      PushListJoins(S, ks[..m], i);
      PushConstraintJoins(PushList(S, ks[..m]), ks[m], i);
    }
  }

  lemma JoinedIs(S: System, i: nat, l: Constraint)
    requires Aligned(S.A) && Aligned(S.B) && Aligned(S.C)
    ensures Joined(RowOf(S, i), l) == l <==> EmptyRow(S, i)
  {
    hide RowOf;
    var k := RowOf(S, i);
    if Joined(k, l) == l { assert |k.a| + |l.a| == |l.a| && |k.b| + |l.b| == |l.b| && |k.c| + |l.c| == |l.c|; }
    if EmptyRow(S, i) { assert k.a + l.a == l.a && k.b + l.b == l.b && k.c + l.c == l.c; }
  }

  /** Rows from row on are the constraints of the list. */
  ghost predicate ListedAt(T: System, ks: seq<Constraint>, row: nat)
    requires Aligned(T.A) && Aligned(T.B) && Aligned(T.C)
  {
    forall i :: row <= i < row + |ks| ==> RowOf(T, i) == ks[i - row]
  }

  ghost predicate Unused(S: System, from: nat, to: nat)
    requires Aligned(S.A) && Aligned(S.B) && Aligned(S.C)
  {
    forall i :: from <= i < to ==> EmptyRow(S, i)
  }

  lemma AppendRow(S: System, ks: seq<Constraint>, T: System, i: nat)
    requires Aligned(S.A) && Aligned(S.B) && Aligned(S.C) && T == PushList(S, ks)
    ensures Aligned(T.A) && Aligned(T.B) && Aligned(T.C)
    ensures !(S.row <= i < S.row + |ks|) ==> RowOf(T, i) == RowOf(S, i)
    ensures S.row <= i < S.row + |ks| ==> (RowOf(T, i) == ks[i - S.row] <==> EmptyRow(S, i))
  {
    hide PushList, RowOf, EmptyRow, Joined;
    PushListJoins(S, ks, i);
    if S.row <= i < S.row + |ks| { JoinedIs(S, i, ks[i - S.row]); }
  }

  lemma ListedUnused(S: System, ks: seq<Constraint>, T: System)
    requires Aligned(S.A) && Aligned(S.B) && Aligned(S.C) && T == PushList(S, ks)
    requires Aligned(T.A) && Aligned(T.B) && Aligned(T.C) && ListedAt(T, ks, S.row)
    ensures Unused(S, S.row, S.row + |ks|)
  {
    hide PushList, RowOf, EmptyRow, Aligned;
    forall i | S.row <= i < S.row + |ks| ensures EmptyRow(S, i) { AppendRow(S, ks, T, i); }
  }

  lemma UnusedListed(S: System, ks: seq<Constraint>, T: System)
    requires Aligned(S.A) && Aligned(S.B) && Aligned(S.C) && T == PushList(S, ks)
    requires Aligned(T.A) && Aligned(T.B) && Aligned(T.C) && Unused(S, S.row, S.row + |ks|)
    ensures ListedAt(T, ks, S.row)
  {
    hide PushList, RowOf, EmptyRow, Aligned;
    forall i | S.row <= i < S.row + |ks| ensures RowOf(T, i) == ks[i - S.row] { AppendRow(S, ks, T, i); }
  }

  /** So the appended rows are the listed ones exactly when the row indices they take were unused: what
      numbering rows by the count of entries of A relies on. Other rows keep their value in any case. */
  lemma AppendExact(S: System, ks: seq<Constraint>, T: System)
    requires Aligned(S.A) && Aligned(S.B) && Aligned(S.C) && T == PushList(S, ks)
    ensures Aligned(T.A) && Aligned(T.B) && Aligned(T.C)
    ensures forall i: nat :: !(S.row <= i < S.row + |ks|) ==> RowOf(T, i) == RowOf(S, i)
    ensures ListedAt(T, ks, S.row) <==> Unused(S, S.row, S.row + |ks|)
  {
    hide PushList, RowOf, ListedAt, Unused;
    AppendRow(S, ks, T, 0);
    forall i: nat | !(S.row <= i < S.row + |ks|) ensures RowOf(T, i) == RowOf(S, i) { AppendRow(S, ks, T, i); }
    if ListedAt(T, ks, S.row) { ListedUnused(S, ks, T); }
    if Unused(S, S.row, S.row + |ks|) { UnusedListed(S, ks, T); }
  }

  /** The list becomes the next rows, in order, and earlier rows stay. */
  lemma {:induction false} PushListRows(S: System, ks: seq<Constraint>)
    requires Appendable(S)
    ensures var T := PushList(S, ks);
            && Appendable(T)
            && (forall i :: 0 <= i < S.row ==> RowOf(T, i) == RowOf(S, i))
            && (forall t :: 0 <= t < |ks| ==> RowOf(T, S.row + t) == ks[t])
    decreases |ks|
  {
    hide PushConstraint, RowOf, Appendable;
    AppendableAligned(S);
    if ks != [] {
      var m := |ks| - 1;
      var U := PushList(S, ks[..m]);
      PushListRows(S, ks[..m]);
      AppendableAligned(U);
      PushConstraintRows(U, ks[m]);
      AppendableAligned(PushList(S, ks));
    }
  }

  /** The rows of the list hold of y exactly when the list does. */
  lemma ListRows(S: System, ks: seq<Constraint>, y: seq<int>, p: Modulus)
    requires Appendable(S)
    ensures var T := PushList(S, ks); Appendable(T) && (RowsHold(T, S.row, T.row, y, p) <==> ListHolds(ks, y, p))
  {
    hide RowOf, Appendable, Holds;
    PushListRows(S, ks);
    var T := PushList(S, ks);
    AppendableAligned(T);
    if RowsHold(T, S.row, T.row, y, p) {
      forall t | 0 <= t < |ks| ensures Holds(ks[t], y, p) { assert Holds(RowOf(T, S.row + t), y, p); }
    }
    if ListHolds(ks, y, p) {
      forall i | S.row <= i < T.row ensures Holds(RowOf(T, i), y, p) {
        assert RowOf(T, S.row + (i - S.row)) == ks[i - S.row];
      }
    }
  }

  /** Rows do not depend on the wires or on the counter. */
  lemma SameMatrices(S: System, T: System)
    requires Aligned(S.A) && Aligned(S.B) && Aligned(S.C) && S.A == T.A && S.B == T.B && S.C == T.C
    ensures forall i: nat :: RowOf(S, i) == RowOf(T, i)
  {
  }

  lemma AppendableWires(S: System, T: System)
    requires Appendable(S) && S.A == T.A && S.B == T.B && S.C == T.C && S.row == T.row
    ensures Appendable(T)
  {
  }
}
