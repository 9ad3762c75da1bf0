/** Orders and stable sorting.

    The harness sorts next hops, routes and diff keys with Python's `sorted`, which is a
    stable sort by a lexicographic key.  This module defines that sort for any total
    preorder and characterises its result: the only sequence that is ordered and keeps,
    for every element, the input order of the elements that tie with it.
 */
module Ordering {

  // ---- total preorders --------------------------------------------------

  ghost predicate TotalPreorder<T(!new)>(leq: (T, T) -> bool) {
    && (forall x, y :: leq(x, y) || leq(y, x))
    && (forall x, y, z :: leq(x, y) && leq(y, z) ==> leq(x, z))
  }

  ghost predicate Antisymmetric<T(!new)>(leq: (T, T) -> bool) {
    forall x, y :: leq(x, y) && leq(y, x) ==> x == y
  }

  predicate Tied<T>(leq: (T, T) -> bool, x: T, y: T) {
    leq(x, y) && leq(y, x)
  }

  // ---- lexicographic order ----------------------------------------------

  /** Python's order on strings and on equally long tuples. */
  predicate LexLeq<T(==)>(leq: (T, T) -> bool, a: seq<T>, b: seq<T>) {
    a == [] || (b != [] && if a[0] == b[0] then LexLeq(leq, a[1..], b[1..]) else leq(a[0], b[0]))
  }

  predicate CharLeq(a: char, b: char) {
    a <= b
  }

  predicate StringLeq(a: string, b: string) {
    LexLeq(CharLeq, a, b)
  }

  predicate KeyLeq(a: seq<string>, b: seq<string>) {
    LexLeq(StringLeq, a, b)
  }

  lemma {:induction false} LexTotal<T(!new)>(leq: (T, T) -> bool, a: seq<T>, b: seq<T>)
    requires TotalPreorder(leq)
    ensures LexLeq(leq, a, b) || LexLeq(leq, b, a)
  {
    if a != [] && b != [] && a[0] == b[0] {
      LexTotal(leq, a[1..], b[1..]);
    }
  }

  lemma {:induction false} LexAntisymmetric<T(!new)>(leq: (T, T) -> bool, a: seq<T>, b: seq<T>)
    requires TotalPreorder(leq) && Antisymmetric(leq)
    requires LexLeq(leq, a, b) && LexLeq(leq, b, a)
    ensures a == b
  {
    if a != [] && b != [] {
      assert a[0] == b[0];
      LexAntisymmetric(leq, a[1..], b[1..]);
      assert a == [a[0]] + a[1..] && b == [b[0]] + b[1..];
    }
  }

  lemma {:induction false} LexTransitive<T(!new)>(leq: (T, T) -> bool, a: seq<T>, b: seq<T>, c: seq<T>)
    requires TotalPreorder(leq) && Antisymmetric(leq)
    requires LexLeq(leq, a, b) && LexLeq(leq, b, c)
    ensures LexLeq(leq, a, c)
  {
    if a != [] && a[0] == b[0] && b[0] == c[0] {
      LexTransitive(leq, a[1..], b[1..], c[1..]);
    }
  }

  lemma LexIsTotalOrder<T(!new)>(leq: (T, T) -> bool)
    requires TotalPreorder(leq) && Antisymmetric(leq)
    ensures forall a, b :: LexLeq(leq, a, b) || LexLeq(leq, b, a)
    ensures forall a, b, c :: LexLeq(leq, a, b) && LexLeq(leq, b, c) ==> LexLeq(leq, a, c)
    ensures forall a, b :: LexLeq(leq, a, b) && LexLeq(leq, b, a) ==> a == b
  {
    forall a, b ensures LexLeq(leq, a, b) || LexLeq(leq, b, a) {
      LexTotal(leq, a, b);
    }
    forall a, b, c | LexLeq(leq, a, b) && LexLeq(leq, b, c) ensures LexLeq(leq, a, c) {
      LexTransitive(leq, a, b, c);
    }
    forall a, b | LexLeq(leq, a, b) && LexLeq(leq, b, a) ensures a == b {
      LexAntisymmetric(leq, a, b);
    }
  }

  /** Sort keys (tuples of strings) are totally ordered. */
  lemma KeyOrder()
    ensures TotalPreorder(KeyLeq) && Antisymmetric(KeyLeq)
  {
    LexIsTotalOrder(CharLeq);
    assert TotalPreorder(StringLeq) && Antisymmetric(StringLeq);
    LexIsTotalOrder(StringLeq);
  }

  // ---- stable sort ------------------------------------------------------

  /** Inserts `x` before the first element it does not exceed. */
  function Insert<T>(leq: (T, T) -> bool, x: T, xs: seq<T>): seq<T> {
    if xs == [] || leq(x, xs[0]) then [x] + xs else [xs[0]] + Insert(leq, x, xs[1..])
  }

  function StableSort<T>(leq: (T, T) -> bool, xs: seq<T>): seq<T> {
    if xs == [] then [] else Insert(leq, xs[0], StableSort(leq, xs[1..]))
  }

  /** The elements of `xs` that tie with `z`, in input order. */
  function Run<T>(leq: (T, T) -> bool, z: T, xs: seq<T>): seq<T> {
    if xs == [] then []
    else (if Tied(leq, z, xs[0]) then [xs[0]] else []) + Run(leq, z, xs[1..])
  }

  ghost predicate Sorted<T>(leq: (T, T) -> bool, xs: seq<T>) {
    forall i, j :: 0 <= i < j < |xs| ==> leq(xs[i], xs[j])
  }

  /** `xs` and `ys` hold, for every element, the same run of ties. */
  ghost predicate SameRuns<T(!new)>(leq: (T, T) -> bool, xs: seq<T>, ys: seq<T>) {
    forall z :: Run(leq, z, xs) == Run(leq, z, ys)
  }

  lemma {:induction false} InsertMultiset<T>(leq: (T, T) -> bool, x: T, xs: seq<T>)
    ensures multiset(Insert(leq, x, xs)) == multiset{x} + multiset(xs)
  {
    if xs != [] && !leq(x, xs[0]) {
      InsertMultiset(leq, x, xs[1..]);
      assert xs == [xs[0]] + xs[1..];
    }
  }

  lemma {:induction false} InsertSorted<T(!new)>(leq: (T, T) -> bool, x: T, xs: seq<T>)
    requires TotalPreorder(leq) && Sorted(leq, xs)
    ensures Sorted(leq, Insert(leq, x, xs))
  {
    if xs == [] || leq(x, xs[0]) {
    } else {
      var rest := Insert(leq, x, xs[1..]);
      InsertSorted(leq, x, xs[1..]);
      InsertMultiset(leq, x, xs[1..]);
      forall j | 0 <= j < |rest| ensures leq(xs[0], rest[j]) {
        assert rest[j] in multiset(rest);
      }
    }
  }

  lemma {:induction false} StableSortSorted<T(!new)>(leq: (T, T) -> bool, xs: seq<T>)
    requires TotalPreorder(leq)
    ensures Sorted(leq, StableSort(leq, xs))
    ensures multiset(StableSort(leq, xs)) == multiset(xs)
  {
    if xs == [] {
    } else {
      StableSortSorted(leq, xs[1..]);
      InsertSorted(leq, xs[0], StableSort(leq, xs[1..]));
      InsertMultiset(leq, xs[0], StableSort(leq, xs[1..]));
      assert xs == [xs[0]] + xs[1..];
    }
  }

  lemma RunCons<T>(leq: (T, T) -> bool, z: T, x: T, xs: seq<T>)
    ensures Run(leq, z, [x] + xs) == (if Tied(leq, z, x) then [x] + Run(leq, z, xs) else Run(leq, z, xs))
  {
    assert ([x] + xs)[1..] == xs;
  }

  lemma {:induction false} InsertKeepsRuns<T(!new)>(leq: (T, T) -> bool, x: T, xs: seq<T>, z: T)
    requires TotalPreorder(leq)
    ensures Run(leq, z, Insert(leq, x, xs)) == Run(leq, z, [x] + xs)
  {
    if xs != [] && !leq(x, xs[0]) {
      var h, t := xs[0], xs[1..];
      InsertKeepsRuns(leq, x, t, z);
      assert xs == [h] + t;
      RunCons(leq, z, h, Insert(leq, x, t));
      RunCons(leq, z, x, t);
      RunCons(leq, z, x, xs);
      RunCons(leq, z, h, t);
      assert !(Tied(leq, z, x) && Tied(leq, z, h));
    }
  }

  /** The sort is stable. */
  lemma {:induction false} StableSortStable<T(!new)>(leq: (T, T) -> bool, xs: seq<T>)
    requires TotalPreorder(leq)
    ensures SameRuns(leq, xs, StableSort(leq, xs))
  {
    if xs == [] {
    } else {
      StableSortStable(leq, xs[1..]);
      forall z ensures Run(leq, z, xs) == Run(leq, z, StableSort(leq, xs)) {
        var tail := StableSort(leq, xs[1..]);
        InsertKeepsRuns(leq, xs[0], tail, z);
        RunCons(leq, z, xs[0], tail);
      }
    }
  }

  lemma {:induction false} RunMember<T(!new)>(leq: (T, T) -> bool, z: T, xs: seq<T>, x: T)
    ensures x in Run(leq, z, xs) <==> x in xs && Tied(leq, z, x)
  {
    if xs == [] {
    } else {
      RunMember(leq, z, xs[1..], x);
      assert xs == [xs[0]] + xs[1..];
    }
  }

  lemma RunsTransferMember<T(!new)>(leq: (T, T) -> bool, xs: seq<T>, ys: seq<T>, x: T)
    requires TotalPreorder(leq) && SameRuns(leq, xs, ys) && x in xs
    ensures x in ys
  {
    RunMember(leq, x, xs, x);
    RunMember(leq, x, ys, x);
  }

  /** An ordered sequence with given runs is unique: "sorted and stable" pins the result. */
  lemma {:induction false} SortedRunsUnique<T(!new)>(leq: (T, T) -> bool, xs: seq<T>, ys: seq<T>)
    requires TotalPreorder(leq)
    requires Sorted(leq, xs) && Sorted(leq, ys) && SameRuns(leq, xs, ys)
    ensures xs == ys
    decreases |xs|
  {
    if xs == [] {
      if ys != [] {
        RunsTransferMember(leq, ys, xs, ys[0]);
      }
    } else {
      RunsTransferMember(leq, xs, ys, xs[0]);
      var x, y := xs[0], ys[0];
      RunsTransferMember(leq, ys, xs, y);
      assert Tied(leq, x, y);
      assert x == Run(leq, x, xs)[0] == Run(leq, x, ys)[0] == y;
      forall z ensures Run(leq, z, xs[1..]) == Run(leq, z, ys[1..]) {
        var head := if Tied(leq, z, x) then [x] else [];
        assert Run(leq, z, xs) == head + Run(leq, z, xs[1..]);
        assert Run(leq, z, ys) == head + Run(leq, z, ys[1..]);
        assert Run(leq, z, xs)[|head|..] == Run(leq, z, xs[1..]);
        assert Run(leq, z, ys)[|head|..] == Run(leq, z, ys[1..]);
      }
      SortedRunsUnique(leq, xs[1..], ys[1..]);
      assert xs == [x] + xs[1..] && ys == [y] + ys[1..];
    }
  }

  /** Sorting a sorted sequence changes nothing. */
  lemma StableSortIdempotent<T(!new)>(leq: (T, T) -> bool, xs: seq<T>)
    requires TotalPreorder(leq) && Sorted(leq, xs)
    ensures StableSort(leq, xs) == xs
  {
    StableSortSorted(leq, xs);
    StableSortStable(leq, xs);
    SortedRunsUnique(leq, xs, StableSort(leq, xs));
  }

  // ---- sequences without repeats ----------------------------------------

  predicate Distinct<T(==)>(xs: seq<T>) {
    forall i, j :: 0 <= i < j < |xs| ==> xs[i] != xs[j]
  }

  lemma {:induction false} DistinctOnce<T>(xs: seq<T>, x: T)
    requires Distinct(xs)
    ensures multiset(xs)[x] <= 1
  {
    if xs == [] {
    } else {
      var init, last := xs[..|xs| - 1], xs[|xs| - 1];
      DistinctOnce(init, x);
      assert xs == init + [last];
      assert last !in init;
    }
  }

  lemma RepeatTwice<T>(xs: seq<T>, i: nat, j: nat)
    requires i < j < |xs| && xs[i] == xs[j]
    ensures multiset(xs)[xs[i]] >= 2
  {
    assert xs == xs[..j] + xs[j..];
    assert xs[i] == xs[..j][i] && xs[j] == xs[j..][0];
    assert xs[i] in multiset(xs[..j]) && xs[i] in multiset(xs[j..]);
  }

  /** Reordering makes no repeats. */
  lemma DistinctPermuted<T>(xs: seq<T>, ys: seq<T>)
    requires Distinct(xs) && multiset(xs) == multiset(ys)
    ensures Distinct(ys)
  {
    forall i, j | 0 <= i < j < |ys| ensures ys[i] != ys[j] {
      if ys[i] == ys[j] {
        RepeatTwice(ys, i, j);
        DistinctOnce(xs, ys[i]);
      }
    }
  }
}
