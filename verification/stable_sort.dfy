/** Sorting a sequence with a comparator the way ECMAScript's
    Array.prototype.sort does: the comparator's sign decides the order, and
    since ECMAScript 2019 the sort is stable, so elements the comparator ties
    keep their input order. The result of a stable sort is fully determined
    by the input and the comparator; insertion sort is used to compute it. */
module StableSort {

  /** The conditions ECMAScript puts on a consistent comparator, stated on the
      sign of its result: swapping the arguments flips the sign, "not after"
      is transitive, and ties are transitive. */
  ghost predicate Consistent<T(!new)>(cmp: (T, T) -> int) {
    && (forall a, b {:trigger Compare(cmp, a, b)} :: Compare(cmp, a, b) < 0 <==> cmp(b, a) > 0)
    && (forall a, b, c {:trigger Compare(cmp, a, b), Compare(cmp, b, c)} ::
          Compare(cmp, a, b) <= 0 && Compare(cmp, b, c) <= 0 ==> cmp(a, c) <= 0)
    && (forall a, b, c {:trigger Compare(cmp, a, b), Compare(cmp, b, c)} ::
          Compare(cmp, a, b) == 0 && Compare(cmp, b, c) == 0 ==> cmp(a, c) == 0)
  }

  /** The comparator applied to one pair. Consistent's facts are triggered on
      this term alone, so a proof uses them only for the pairs it names
      (through the three lemmas below) and the solver does not chain them. */
  ghost function Compare<T>(cmp: (T, T) -> int, a: T, b: T): int {
    cmp(a, b)
  }

  lemma Flip<T(!new)>(cmp: (T, T) -> int, a: T, b: T)
    requires Consistent(cmp)
    ensures cmp(a, b) < 0 <==> cmp(b, a) > 0
    ensures cmp(a, b) == 0 <==> cmp(b, a) == 0
  {
    assert Compare(cmp, a, b) == cmp(a, b);
    assert Compare(cmp, b, a) == cmp(b, a);
  }

  lemma NotAfterTransitive<T(!new)>(cmp: (T, T) -> int, a: T, b: T, c: T)
    requires Consistent(cmp)
    requires cmp(a, b) <= 0 && cmp(b, c) <= 0
    ensures cmp(a, c) <= 0
  {
    assert Compare(cmp, a, b) <= 0 && Compare(cmp, b, c) <= 0;
  }

  lemma TieTransitive<T(!new)>(cmp: (T, T) -> int, a: T, b: T, c: T)
    requires Consistent(cmp)
    requires cmp(a, b) == 0 && cmp(b, c) == 0
    ensures cmp(a, c) == 0
  {
    assert Compare(cmp, a, b) == 0 && Compare(cmp, b, c) == 0;
  }

  /** No element is placed before one the comparator puts ahead of it. */
  predicate Sorted<T>(s: seq<T>, cmp: (T, T) -> int) {
    forall i, j :: 0 <= i < j < |s| ==> cmp(s[i], s[j]) <= 0
  }

  /** The elements of `s` that the comparator ties with `x`, in their order in `s`. */
  function Ties<T>(s: seq<T>, cmp: (T, T) -> int, x: T): seq<T> {
    if s == [] then []
    else Ties(s[..|s| - 1], cmp, x) + (if cmp(x, s[|s| - 1]) == 0 then [s[|s| - 1]] else [])
  }

  /** Every group of tied elements appears in `output` in the order it has in `input`. */
  ghost predicate Stable<T(!new)>(input: seq<T>, output: seq<T>, cmp: (T, T) -> int) {
    forall x :: Ties(output, cmp, x) == Ties(input, cmp, x)
  }

  /** Places `x` into `sorted` after every element that is not after it. */
  function Insert<T>(sorted: seq<T>, x: T, cmp: (T, T) -> int): seq<T> {
    if sorted == [] || cmp(sorted[|sorted| - 1], x) <= 0 then sorted + [x]
    else Insert(sorted[..|sorted| - 1], x, cmp) + [sorted[|sorted| - 1]]
  }

  function InsertionSort<T>(s: seq<T>, cmp: (T, T) -> int): seq<T> {
    if s == [] then [] else Insert(InsertionSort(s[..|s| - 1], cmp), s[|s| - 1], cmp)
  }

  lemma TiesAppend<T>(s: seq<T>, z: T, cmp: (T, T) -> int, x: T)
    ensures Ties(s + [z], cmp, x) == Ties(s, cmp, x) + (if cmp(x, z) == 0 then [z] else [])
  {
    assert (s + [z])[..|s|] == s;
  }

  lemma {:induction false} InsertPermutes<T>(sorted: seq<T>, x: T, cmp: (T, T) -> int)
    ensures multiset(Insert(sorted, x, cmp)) == multiset(sorted) + multiset{x}
    decreases |sorted|
  {
    var n := |sorted|;
    if sorted != [] && cmp(sorted[n - 1], x) > 0 {
      var init := sorted[..n - 1];
      InsertPermutes(init, x, cmp);
      assert sorted == init + [sorted[n - 1]];
    }
  }

  /** Appending an element that nothing before it is after keeps a sequence sorted. */
  lemma SortedSnoc<T>(s: seq<T>, z: T, cmp: (T, T) -> int)
    requires Sorted(s, cmp)
    requires forall y :: y in s ==> cmp(y, z) <= 0
    ensures Sorted(s + [z], cmp)
  {
    var r := s + [z];
    forall i, j | 0 <= i < j < |r| ensures cmp(r[i], r[j]) <= 0 {
      if j == |s| {
        assert r[i] in s;
      }
    }
  }

  lemma {:induction false} InsertSorted<T(!new)>(sorted: seq<T>, x: T, cmp: (T, T) -> int)
    requires Consistent(cmp)
    requires Sorted(sorted, cmp)
    ensures Sorted(Insert(sorted, x, cmp), cmp)
    decreases |sorted|
  {
    var n := |sorted|;
    if sorted == [] || cmp(sorted[n - 1], x) <= 0 {
      forall y | y in sorted ensures cmp(y, x) <= 0 {
        var i :| 0 <= i < n && sorted[i] == y;
        if i < n - 1 {
          NotAfterTransitive(cmp, sorted[i], sorted[n - 1], x);
        }
      }
      SortedSnoc(sorted, x, cmp);
    } else {
      var init := sorted[..n - 1];
      var last := sorted[n - 1];
      InsertSorted(init, x, cmp);
      assert sorted == init + [last];
      InsertBelowLast(init, last, x, cmp);
      SortedSnoc(Insert(init, x, cmp), last, cmp);
    }
  }

  /** When `x` goes before the last element, nothing in the insertion into
      the rest is after that last element. */
  lemma InsertBelowLast<T(!new)>(init: seq<T>, last: T, x: T, cmp: (T, T) -> int)
    requires Consistent(cmp)
    requires Sorted(init + [last], cmp)
    requires cmp(last, x) > 0
    ensures forall y :: y in Insert(init, x, cmp) ==> cmp(y, last) <= 0
  {
    var sorted := init + [last];
    var r' := Insert(init, x, cmp);
    InsertPermutes(init, x, cmp);
    forall y | y in r' ensures cmp(y, last) <= 0 {
      assert y in multiset(r');
      if y != x {
        assert y in multiset(init);
        var i :| 0 <= i < |init| && init[i] == y;
        assert sorted[i] == y && sorted[|init|] == last;
      } else {
        Flip(cmp, last, x);
      }
    }
  }

  /** Inserting `x` appends it to its own group of ties and to no other. */
  lemma {:induction false} InsertTies<T(!new)>(sorted: seq<T>, x: T, cmp: (T, T) -> int, y: T)
    requires Consistent(cmp)
    ensures Ties(Insert(sorted, x, cmp), cmp, y) == Ties(sorted, cmp, y) + (if cmp(y, x) == 0 then [x] else [])
    decreases |sorted|
  {
    var n := |sorted|;
    if sorted == [] || cmp(sorted[n - 1], x) <= 0 {
      TiesAppend(sorted, x, cmp, y);
    } else {
      InsertTies(sorted[..n - 1], x, cmp, y);
      InsertTiesPastLast(sorted[..n - 1], sorted[n - 1], x, cmp, y);
      assert sorted == sorted[..n - 1] + [sorted[n - 1]];
    }
  }

  /** The step of `InsertTies` where `x` moves in front of `last`: given the
      property for `init`, it holds for `init + [last]`. */
  lemma InsertTiesPastLast<T(!new)>(init: seq<T>, last: T, x: T, cmp: (T, T) -> int, y: T)
    requires Consistent(cmp)
    requires cmp(last, x) > 0
    requires Ties(Insert(init, x, cmp), cmp, y) == Ties(init, cmp, y) + (if cmp(y, x) == 0 then [x] else [])
    ensures Ties(Insert(init + [last], x, cmp), cmp, y) ==
            Ties(init + [last], cmp, y) + (if cmp(y, x) == 0 then [x] else [])
  {
    InsertPastLast(init, last, x, cmp);
    TiesPastLast(Insert(init, x, cmp), init, last, x, cmp, y);
  }

  /** An element that sorts before `last` is inserted before it. */
  lemma InsertPastLast<T>(init: seq<T>, last: T, x: T, cmp: (T, T) -> int)
    requires cmp(last, x) > 0
    ensures Insert(init + [last], x, cmp) == Insert(init, x, cmp) + [last]
  {
    var s := init + [last];
    assert s != [] && s[|s| - 1] == last;
    assert s[..|s| - 1] == init;
  }

  /** Appending `last` to both sides keeps `x` at the end of `y`'s ties,
      because `x` and `last` never tie with the same `y`. */
  lemma TiesPastLast<T(!new)>(r: seq<T>, init: seq<T>, last: T, x: T, cmp: (T, T) -> int, y: T)
    requires Consistent(cmp)
    requires cmp(last, x) > 0
    requires Ties(r, cmp, y) == Ties(init, cmp, y) + (if cmp(y, x) == 0 then [x] else [])
    ensures Ties(r + [last], cmp, y) == Ties(init + [last], cmp, y) + (if cmp(y, x) == 0 then [x] else [])
  {
    var tx := if cmp(y, x) == 0 then [x] else [];
    var tl := if cmp(y, last) == 0 then [last] else [];
    var a := Ties(init, cmp, y);
    assert Ties(r + [last], cmp, y) == a + tx + tl by {
      TiesAppend(r, last, cmp, y);
    }
    assert Ties(init + [last], cmp, y) == a + tl by {
      TiesAppend(init, last, cmp, y);
    }
    assert tx == [] || tl == [] by {
      if cmp(y, x) == 0 && cmp(y, last) == 0 {
        Flip(cmp, y, last);
        TieTransitive(cmp, last, y, x);
      }
    }
    assert a + tx + tl == a + tl + tx;
  }

  lemma {:induction false} InsertionSortCorrect<T(!new)>(s: seq<T>, cmp: (T, T) -> int)
    requires Consistent(cmp)
    ensures multiset(InsertionSort(s, cmp)) == multiset(s)
    ensures Sorted(InsertionSort(s, cmp), cmp)
    ensures Stable(s, InsertionSort(s, cmp), cmp)
  {
    InsertionSortPermutes(s, cmp);
    InsertionSortSorted(s, cmp);
    forall y ensures Ties(InsertionSort(s, cmp), cmp, y) == Ties(s, cmp, y) {
      InsertionSortTies(s, cmp, y);
    }
  }

  lemma {:induction false} InsertionSortPermutes<T>(s: seq<T>, cmp: (T, T) -> int)
    ensures multiset(InsertionSort(s, cmp)) == multiset(s)
    decreases |s|
  {
    if s != [] {
      var init := s[..|s| - 1];
      InsertionSortPermutes(init, cmp);
      InsertPermutes(InsertionSort(init, cmp), s[|s| - 1], cmp);
      assert s == init + [s[|s| - 1]];
    }
  }

  lemma {:induction false} InsertionSortSorted<T(!new)>(s: seq<T>, cmp: (T, T) -> int)
    requires Consistent(cmp)
    ensures Sorted(InsertionSort(s, cmp), cmp)
    decreases |s|
  {
    if s != [] {
      var init := s[..|s| - 1];
      InsertionSortSorted(init, cmp);
      InsertSorted(InsertionSort(init, cmp), s[|s| - 1], cmp);
    }
  }

  lemma {:induction false} InsertionSortTies<T(!new)>(s: seq<T>, cmp: (T, T) -> int, y: T)
    requires Consistent(cmp)
    ensures Ties(InsertionSort(s, cmp), cmp, y) == Ties(s, cmp, y)
    decreases |s|
  {
    if s != [] {
      var init := s[..|s| - 1];
      var last := s[|s| - 1];
      InsertionSortTies(init, cmp, y);
      InsertTies(InsertionSort(init, cmp), last, cmp, y);
      TiesAppend(init, last, cmp, y);
      assert s == init + [last];
    }
  }

  /** Array.prototype.sort with a consistent comparator: a permutation of the
      input, in comparator order, with ties in input order. */
  function Sort<T(!new)>(s: seq<T>, cmp: (T, T) -> int): (r: seq<T>)
    requires Consistent(cmp)
    ensures multiset(r) == multiset(s)
    ensures Sorted(r, cmp)
    ensures Stable(s, r, cmp)
  {
    InsertionSortCorrect(s, cmp);
    InsertionSort(s, cmp)
  }

  // ---------------------------------------------------------------------
  // Why any stable sort gives the same result
  // ---------------------------------------------------------------------

  /** The last element of a sequence is among its own ties. */
  lemma TiesWithLast<T(!new)>(s: seq<T>, cmp: (T, T) -> int)
    requires Consistent(cmp)
    requires s != []
    ensures Ties(s, cmp, s[|s| - 1]) == Ties(s[..|s| - 1], cmp, s[|s| - 1]) + [s[|s| - 1]]
  {
    Flip(cmp, s[|s| - 1], s[|s| - 1]);
  }

  /** The ties of `x` in `s` are elements of `s` tied with `x`. */
  lemma {:induction false} TiesMembers<T>(s: seq<T>, cmp: (T, T) -> int, x: T, y: T)
    requires y in Ties(s, cmp, x)
    ensures y in s && cmp(x, y) == 0
    decreases |s|
  {
    var n := |s| - 1;
    if y in Ties(s[..n], cmp, x) {
      TiesMembers(s[..n], cmp, x, y);
    } else {
      assert y == s[n];
    }
  }

  /** Two sequences with the same ties everywhere are both empty or both not. */
  lemma NonEmptyTogether<T(!new)>(r1: seq<T>, r2: seq<T>, cmp: (T, T) -> int)
    requires Consistent(cmp)
    requires forall x :: Ties(r1, cmp, x) == Ties(r2, cmp, x)
    ensures r1 == [] <==> r2 == []
  {
    if r1 != [] {
      TiesWithLast(r1, cmp);
      assert Ties(r2, cmp, r1[|r1| - 1]) != [];
    }
    if r2 != [] {
      TiesWithLast(r2, cmp);
      assert Ties(r1, cmp, r2[|r2| - 1]) != [];
    }
  }

  /** When the last element `z` of `r1` has the same ties in a sorted `r2`,
      the comparator does not put `z` after the last element of `r2`. */
  lemma LastNotAfterLast<T(!new)>(r1: seq<T>, r2: seq<T>, cmp: (T, T) -> int)
    requires Consistent(cmp)
    requires Sorted(r2, cmp)
    requires r1 != [] && r2 != []
    requires Ties(r1, cmp, r1[|r1| - 1]) == Ties(r2, cmp, r1[|r1| - 1])
    ensures cmp(r1[|r1| - 1], r2[|r2| - 1]) <= 0
  {
    var z := r1[|r1| - 1];
    TiesWithLast(r1, cmp);
    assert z in Ties(r2, cmp, z);
    TiesMembers(r2, cmp, z, z);
    var i :| 0 <= i < |r2| && r2[i] == z;
    if i < |r2| - 1 {
      assert cmp(r2[i], r2[|r2| - 1]) <= 0;
    } else {
      Flip(cmp, z, z);
    }
  }

  /** The ties of an element tied with the last one end with that last one. */
  lemma TiesEndWithLast<T>(s: seq<T>, cmp: (T, T) -> int, x: T)
    requires s != [] && cmp(x, s[|s| - 1]) == 0
    ensures Ties(s, cmp, x) != [] && Ties(s, cmp, x)[|Ties(s, cmp, x)| - 1] == s[|s| - 1]
  {
  }

  /** Two sorted sequences whose last elements have the same ties in both end alike. */
  lemma LastAgree<T(!new)>(r1: seq<T>, r2: seq<T>, cmp: (T, T) -> int)
    requires Consistent(cmp)
    requires Sorted(r1, cmp) && Sorted(r2, cmp)
    requires r1 != [] && r2 != []
    requires Ties(r1, cmp, r1[|r1| - 1]) == Ties(r2, cmp, r1[|r1| - 1])
    requires Ties(r2, cmp, r2[|r2| - 1]) == Ties(r1, cmp, r2[|r2| - 1])
    ensures r1[|r1| - 1] == r2[|r2| - 1]
  {
    var z := r1[|r1| - 1];
    var w := r2[|r2| - 1];
    assert cmp(z, z) == 0 && cmp(z, w) == 0 by {
      LastNotAfterLast(r1, r2, cmp);
      LastNotAfterLast(r2, r1, cmp);
      Flip(cmp, z, w);
      Flip(cmp, z, z);
    }
    TiesEndWithLast(r1, cmp, z);
    TiesEndWithLast(r2, cmp, z);
  }

  /** Dropping the same last element from two sequences with equal ties of
      `x` leaves equal ties of `x`. */
  lemma DropLastTies<T>(p1: seq<T>, p2: seq<T>, z: T, cmp: (T, T) -> int, x: T)
    requires Ties(p1 + [z], cmp, x) == Ties(p2 + [z], cmp, x)
    ensures Ties(p1, cmp, x) == Ties(p2, cmp, x)
  {
    var extra := if cmp(x, z) == 0 then [z] else [];
    TiesAppend(p1, z, cmp, x);
    TiesAppend(p2, z, cmp, x);
    var t := Ties(p1 + [z], cmp, x);
    assert Ties(p1, cmp, x) == t[..|t| - |extra|];
    assert Ties(p2, cmp, x) == t[..|t| - |extra|];
  }

  /** Two sorted sequences with the same ties everywhere are equal. */
  lemma {:induction false} SameTiesSameSequence<T(!new)>(r1: seq<T>, r2: seq<T>, cmp: (T, T) -> int)
    requires Consistent(cmp)
    requires Sorted(r1, cmp) && Sorted(r2, cmp)
    requires forall x :: Ties(r1, cmp, x) == Ties(r2, cmp, x)
    ensures r1 == r2
    decreases |r1|
  {
    NonEmptyTogether(r1, r2, cmp);
    if r1 != [] {
      var z := r1[|r1| - 1];
      var p1 := r1[..|r1| - 1];
      var p2 := r2[..|r2| - 1];
      assert r2[|r2| - 1] == z by {
        assert Ties(r1, cmp, r1[|r1| - 1]) == Ties(r2, cmp, r1[|r1| - 1]);
        assert Ties(r2, cmp, r2[|r2| - 1]) == Ties(r1, cmp, r2[|r2| - 1]);
        LastAgree(r1, r2, cmp);
      }
      assert r1 == p1 + [z] && r2 == p2 + [z];
      assert forall x :: Ties(p1, cmp, x) == Ties(p2, cmp, x) by {
        forall x ensures Ties(p1, cmp, x) == Ties(p2, cmp, x) {
          assert Ties(r1, cmp, x) == Ties(r2, cmp, x);
          DropLastTies(p1, p2, z, cmp, x);
        }
      }
      assert Sorted(p1, cmp) && Sorted(p2, cmp);
      SameTiesSameSequence(p1, p2, cmp);
    }
  }

  /** A stable sort has exactly one possible result: any arrangement of the
      input that is in comparator order and keeps ties in input order is the
      one Sort computes, whatever algorithm produced it. */
  lemma StableSortIsUnique<T(!new)>(s: seq<T>, r: seq<T>, cmp: (T, T) -> int)
    requires Consistent(cmp)
    requires Sorted(r, cmp) && Stable(s, r, cmp)
    ensures r == Sort(s, cmp)
  {
    SameTiesSameSequence(r, Sort(s, cmp), cmp);
  }
}
