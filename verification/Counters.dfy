/** Counting through all assignments of a list of variables, the first variable fastest. */
module Counters {
  import opened Tables

  predicate Distinct(order: seq<nat>) {
    forall i, j :: 0 <= i < j < |order| ==> order[i] != order[j]
  }

  function Elements(order: seq<nat>): set<nat> { set v | v in order }

  /** An assignment of the variables of order. */
  ghost predicate Counts(order: seq<nat>, radix: seq<nat>, a: Assignment) {
    Distinct(order) && Over(a, Elements(order), radix)
  }

  function Mul(a: nat, b: nat): nat { a * b }

  /** The number of assignments of order. */
  function Size(order: seq<nat>, radix: seq<nat>): nat {
    if order == [] then 1 else Mul(RadixOf(radix, order[0]), Size(order[1..], radix))
  }

  function RadixOf(radix: seq<nat>, v: nat): nat { if v < |radix| then radix[v] else 0 }

  function ValueOf(a: Assignment, v: nat): nat { if v in a then a[v] else 0 }

  /** The place of a in the count. */
  function Rank(order: seq<nat>, radix: seq<nat>, a: Assignment): nat {
    if order == [] then 0 else ValueOf(a, order[0]) + Mul(RadixOf(radix, order[0]), Rank(order[1..], radix, a))
  }

  /** The first variable counts fastest: one more of it is the next place. */
  lemma FirstFastest(order: seq<nat>, radix: seq<nat>, a: Assignment)
    requires Counts(order, radix, a) && order != [] && a[order[0]] + 1 < radix[order[0]]
    ensures var b := a[order[0] := a[order[0]] + 1];
      Counts(order, radix, b) && Rank(order, radix, b) == Rank(order, radix, a) + 1
  {
    var b := a[order[0] := a[order[0]] + 1];
    assert b.Keys == a.Keys;
    assert order[0] !in order[1..];
    SameRank(order[1..], radix, a, b);
  }

  lemma {:induction false} SameRank(order: seq<nat>, radix: seq<nat>, a: Assignment, b: Assignment)
    requires forall v :: v in order ==> ValueOf(a, v) == ValueOf(b, v)
    ensures Rank(order, radix, a) == Rank(order, radix, b)
  {
    if order != [] { SameRank(order[1..], radix, a, b); }
  }

  // ---- the count reaches every assignment once -------------------------------------------------

  lemma Below(d: nat, r: nat, q: nat, n: nat)
    requires d < r && q < n
    ensures d + Mul(r, q) < Mul(r, n)
  {
    MulOrder(r, q + 1, n);
  }

  lemma MulOrder(r: nat, q: nat, n: nat)
    requires q <= n
    ensures r * q <= r * n
  {}

  lemma SameParts(r: nat, d: nat, q: nat, e: nat, p: nat)
    requires d < r && e < r && d + Mul(r, q) == e + Mul(r, p)
    ensures d == e && q == p
  {
    if q < p {
      MulOrder(r, q + 1, p);
    } else if p < q {
      MulOrder(r, p + 1, q);
    }
  }

  lemma {:induction false} RankBelowSize(order: seq<nat>, radix: seq<nat>, a: Assignment)
    requires forall k :: 0 <= k < |order| ==> ValueOf(a, order[k]) < RadixOf(radix, order[k])
    ensures Rank(order, radix, a) < Size(order, radix)
  {
    if order != [] {
      RankBelowSize(order[1..], radix, a);
      Below(ValueOf(a, order[0]), RadixOf(radix, order[0]), Rank(order[1..], radix, a), Size(order[1..], radix));
    }
  }

  /** Different assignments have different places. */
  lemma {:induction false} RankInjective(order: seq<nat>, radix: seq<nat>, a: Assignment, b: Assignment)
    requires forall k :: 0 <= k < |order| ==>
      ValueOf(a, order[k]) < RadixOf(radix, order[k]) && ValueOf(b, order[k]) < RadixOf(radix, order[k])
    requires Rank(order, radix, a) == Rank(order, radix, b)
    ensures forall k :: 0 <= k < |order| ==> ValueOf(a, order[k]) == ValueOf(b, order[k])
  {
    if order != [] {
      hide Mul;
      var v, rest := order[0], order[1..];
      SameParts(RadixOf(radix, v), ValueOf(a, v), Rank(rest, radix, a), ValueOf(b, v), Rank(rest, radix, b));
      RankInjective(rest, radix, a, b);
      forall k | 0 <= k < |order| ensures ValueOf(a, order[k]) == ValueOf(b, order[k]) {
        if k > 0 { assert rest[k - 1] == order[k]; }
      }
    }
  }

  lemma Listed(order: seq<nat>, radix: seq<nat>, a: Assignment)
    requires Counts(order, radix, a)
    ensures forall k :: 0 <= k < |order| ==>
      order[k] < |radix| && order[k] in a && ValueOf(a, order[k]) < RadixOf(radix, order[k])
  {
    forall k | 0 <= k < |order| ensures order[k] < |radix| && order[k] in a && a[order[k]] < radix[order[k]] {
      assert order[k] in Elements(order);
    }
  }

  lemma Agree(order: seq<nat>, radix: seq<nat>, a: Assignment, b: Assignment)
    requires Counts(order, radix, a) && Counts(order, radix, b)
    requires Rank(order, radix, a) == Rank(order, radix, b)
    ensures a == b
  {
    Listed(order, radix, a);
    Listed(order, radix, b);
    RankInjective(order, radix, a, b);
    assert a.Keys == b.Keys == Elements(order);
    forall v | v in a ensures a[v] == b[v] {
      var k :| 0 <= k < |order| && order[k] == v;
      assert ValueOf(a, order[k]) == ValueOf(b, order[k]);
    }
  }

  /** The assignment at a place. */
  ghost function AtRank(order: seq<nat>, radix: seq<nat>, k: nat): Assignment {
    if order == [] then map[] else
    var r := if RadixOf(radix, order[0]) > 0 then RadixOf(radix, order[0]) else 1;
    AtRank(order[1..], radix, k / r)[order[0] := k % r]
  }

  lemma DivBelow(k: nat, r: nat, n: nat)
    requires r >= 1 && k < Mul(r, n)
    ensures k / r < n && k % r < r && k == k % r + Mul(r, k / r)
  {
    assert k == r * (k / r) + k % r;
    if k / r >= n { MulOrder(r, n, k / r); }
  }

  lemma {:induction false} RankUnchanged(order: seq<nat>, radix: seq<nat>, a: Assignment, v: nat, x: nat)
    requires forall k :: 0 <= k < |order| ==> order[k] != v
    ensures Rank(order, radix, a[v := x]) == Rank(order, radix, a)
  {
    if order != [] { RankUnchanged(order[1..], radix, a, v, x); }
  }

  /** Every place below Size is the place of an assignment. */
  lemma {:induction false} AtRankCounts(order: seq<nat>, radix: seq<nat>, k: nat)
    requires Distinct(order) && HasValues(Elements(order), radix)
    requires k < Size(order, radix)
    ensures Counts(order, radix, AtRank(order, radix, k)) && Rank(order, radix, AtRank(order, radix, k)) == k
  {
    if order != [] {
      hide Mul;
      var v, rest := order[0], order[1..];
      assert Elements(order) == Elements(rest) + {v};
      DivBelow(k, radix[v], Size(rest, radix));
      AtRankCounts(rest, radix, k / radix[v]);
      var a := AtRank(rest, radix, k / radix[v]);
      RankUnchanged(rest, radix, a, v, k % radix[v]);
    }
  }

  // ---- one step of the count ---------------------------------------------------------------------

  /** Adding one: zeros for the first p variables, which were at their last values, one more for variable p. */
  lemma {:induction false} RankCarry(order: seq<nat>, radix: seq<nat>, a: Assignment, b: Assignment, p: nat)
    requires p < |order|
    requires forall k :: 0 <= k < p ==> ValueOf(a, order[k]) + 1 == RadixOf(radix, order[k]) && ValueOf(b, order[k]) == 0
    requires ValueOf(b, order[p]) == ValueOf(a, order[p]) + 1
    requires forall k :: p < k < |order| ==> ValueOf(b, order[k]) == ValueOf(a, order[k])
    ensures Rank(order, radix, b) == Rank(order, radix, a) + 1
  {
    var rest := order[1..];
    if p == 0 {
      RankSame(rest, radix, a, b);
    } else {
      RankCarry(rest, radix, a, b, p - 1);
      MulNext(RadixOf(radix, order[0]), Rank(rest, radix, a));
    }
  }

  lemma MulNext(r: nat, q: nat)
    ensures Mul(r, q + 1) == r + Mul(r, q)
  {}

  lemma {:induction false} RankSame(order: seq<nat>, radix: seq<nat>, a: Assignment, b: Assignment)
    requires forall k :: 0 <= k < |order| ==> ValueOf(b, order[k]) == ValueOf(a, order[k])
    ensures Rank(order, radix, a) == Rank(order, radix, b)
  {
    if order != [] { RankSame(order[1..], radix, a, b); }
  }

  lemma {:induction false} RankOfLast(order: seq<nat>, radix: seq<nat>, a: Assignment)
    requires forall k :: 0 <= k < |order| ==> ValueOf(a, order[k]) + 1 == RadixOf(radix, order[k])
    ensures Rank(order, radix, a) + 1 == Size(order, radix)
  {
    if order != [] {
      RankOfLast(order[1..], radix, a);
      MulNext(RadixOf(radix, order[0]), Rank(order[1..], radix, a));
    }
  }

  lemma {:induction false} RankOfZeros(order: seq<nat>, radix: seq<nat>, a: Assignment)
    requires forall k :: 0 <= k < |order| ==> ValueOf(a, order[k]) == 0
    ensures Rank(order, radix, a) == 0
  {
    if order != [] {
      RankOfZeros(order[1..], radix, a);
      assert Mul(RadixOf(radix, order[0]), 0) == 0;
    }
  }

  /** All variables of order at value 0: node_first_parent_assignment. */
  method First(order: seq<nat>, radix: seq<nat>) returns (a: Assignment)
    requires Distinct(order) && HasValues(Elements(order), radix)
    ensures Counts(order, radix, a) && Rank(order, radix, a) == 0
  {
    a := map[];
    var i := 0;
    while i < |order|
      invariant 0 <= i <= |order| && a.Keys == Elements(order[..i]) && forall v :: v in a ==> a[v] == 0
    {
      assert Elements(order[..i + 1]) == Elements(order[..i]) + {order[i]};
      a := a[order[i] := 0];
      i := i + 1;
    }
    assert order[..|order|] == order;
    RankOfZeros(order, radix, a);
  }

  /** The first p variables were at their last values and are now at 0; the others are as they were. */
  ghost predicate Carried(order: seq<nat>, radix: seq<nat>, a: Assignment, b: Assignment, p: nat) {
    && p <= |order| && Counts(order, radix, a) && Counts(order, radix, b)
    && (forall k :: 0 <= k < p ==> ValueOf(a, order[k]) + 1 == RadixOf(radix, order[k]) && ValueOf(b, order[k]) == 0)
    && (forall k :: p <= k < |order| ==> ValueOf(b, order[k]) == ValueOf(a, order[k]))
  }

  lemma CarriedNext(order: seq<nat>, radix: seq<nat>, a: Assignment, b: Assignment, p: nat)
    requires Carried(order, radix, a, b, p) && p < |order|
    ensures order[p] in b && order[p] < |radix|
    ensures b[order[p]] + 1 < radix[order[p]] ==>
      var c := b[order[p] := b[order[p]] + 1];
      Counts(order, radix, c) && Rank(order, radix, c) == Rank(order, radix, a) + 1
    ensures b[order[p]] + 1 >= radix[order[p]] ==>
      Carried(order, radix, a, b[order[p] := 0], p + 1)
  {
    Listed(order, radix, a);
    Listed(order, radix, b);
    if b[order[p]] + 1 < radix[order[p]] {
      var c := b[order[p] := b[order[p]] + 1];
      assert c.Keys == b.Keys;
      RankCarry(order, radix, a, c, p);
    } else {
      assert b[order[p] := 0].Keys == b.Keys;
    }
  }

  /** A carry out of the last variable: a was the last assignment, and the count is back at the first. */
  lemma CarriedOut(order: seq<nat>, radix: seq<nat>, a: Assignment, b: Assignment)
    requires Carried(order, radix, a, b, |order|)
    ensures Counts(order, radix, b) && Rank(order, radix, b) == 0
    ensures Rank(order, radix, a) + 1 == Size(order, radix)
  {
    RankOfLast(order, radix, a);
    RankOfZeros(order, radix, b);
  }

  /**
   * node_next_parent_assignment: one more, with carries; false when there is no next assignment,
   * and then the count starts again.
   */
  method Next(order: seq<nat>, radix: seq<nat>, a: Assignment) returns (more: bool, b: Assignment)
    requires Counts(order, radix, a)
    ensures Counts(order, radix, b)
    ensures more == (Rank(order, radix, a) + 1 < Size(order, radix))
    ensures Rank(order, radix, b) == if more then Rank(order, radix, a) + 1 else 0
  {
    hide Carried, Rank, Size, Counts;
    b := a;
    var p := 0;
    CountedVariables(order, radix, a);
    CarriedStart(order, radix, a);
    while p < |order|
      invariant 0 <= p <= |order| && Carried(order, radix, a, b, p)
    {
      CarriedNext(order, radix, a, b, p);
      var v := order[p];
      ghost var before := b;
      b := b[v := b[v] + 1];
      if b[v] >= radix[v] {
        b := b[v := 0];
        assert b == before[v := 0];
      } else {
        CountedVariables(order, radix, b);
        return true, b;
      }
      p := p + 1;
    }
    CarriedOut(order, radix, a, b);
    return false, b;
  }

  lemma CarriedStart(order: seq<nat>, radix: seq<nat>, a: Assignment)
    requires Counts(order, radix, a)
    ensures Carried(order, radix, a, a, 0)
  {}

  lemma CountedVariables(order: seq<nat>, radix: seq<nat>, a: Assignment)
    requires Counts(order, radix, a)
    ensures forall k :: 0 <= k < |order| ==> order[k] < |radix| && order[k] in a
    ensures Rank(order, radix, a) < Size(order, radix)
  {
    Listed(order, radix, a);
    RankBelowSize(order, radix, a);
  }
}
