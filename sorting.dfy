/**
 * `Array.prototype.sort(comparefn)` as ECMAScript (2019 edition onwards)
 * specifies it: a stable sort by the sign of a consistent comparator.
 * `Sort` is a stable insertion sort; the lemmas show that its result is
 * sorted, a permutation of the input and stable, and that these three
 * properties determine the result, so any stable sort engine returns it.
 */
module Sorting {
  import opened Seqs

  /** A comparator `Array.prototype.sort` can rely on: its sign is
      antisymmetric and transitive (a total preorder), and, as the sort only
      looks at the sign, it returns -1, 0 or 1. */
  ghost predicate Consistent<T(!new)>(cmp: (T, T) -> int) {
    && (forall a, b :: -1 <= cmp(a, b) <= 1)
    && (forall a, b :: cmp(a, b) == -cmp(b, a))
    && (forall a, b, c :: Chain(cmp, a, b, c))
  }

  /** Transitivity for one triple, kept as a predicate of its own so that the
      verifier only chains comparisons where a proof asks for it. */
  ghost predicate Chain<T>(cmp: (T, T) -> int, a: T, b: T, c: T) {
    cmp(a, b) <= 0 && cmp(b, c) <= 0 ==> cmp(a, c) <= 0
  }

  lemma Transitive<T(!new)>(cmp: (T, T) -> int, a: T, b: T, c: T)
    requires Consistent(cmp)
    requires cmp(a, b) <= 0 && cmp(b, c) <= 0
    ensures cmp(a, c) <= 0
  {
    assert Chain(cmp, a, b, c);
  }

  /** `rev` is `cmp` multiplied by -1, as a descending sort's comparator is. */
  ghost predicate Opposite<T(!new)>(cmp: (T, T) -> int, rev: (T, T) -> int) {
    forall a, b :: rev(a, b) == -cmp(a, b)
  }

  lemma OppositeConsistent<T(!new)>(cmp: (T, T) -> int, rev: (T, T) -> int)
    requires Consistent(cmp) && Opposite(cmp, rev)
    ensures Consistent(rev)
  {
    forall a, b, c
      ensures Chain(rev, a, b, c)
    {
      assert Chain(cmp, c, b, a);
    }
  }

  /** Elements that tie compare the same way against everything else. */
  lemma TieCompare<T(!new)>(cmp: (T, T) -> int, a: T, b: T, c: T)
    requires Consistent(cmp)
    requires cmp(a, b) == 0
    ensures cmp(a, c) == cmp(b, c)
  {
    assert cmp(b, a) == 0;
    assert Chain(cmp, a, b, c) && Chain(cmp, c, b, a);
    assert Chain(cmp, b, a, c) && Chain(cmp, c, a, b);
  }

  /** The elements that tie with `y`. */
  function TiedWith<T(!new)>(cmp: (T, T) -> int, y: T): T -> bool {
    x => cmp(x, y) == 0
  }

  /** No element compares greater than a later one. */
  ghost predicate Sorted<T(!new)>(cmp: (T, T) -> int, t: seq<T>) {
    forall i, j :: 0 <= i < j < |t| ==> cmp(t[i], t[j]) <= 0
  }

  /** Where the stable insertion of `x` into sorted `t` goes: after every
      element that does not compare greater than `x`. */
  function InsertPos<T(!new)>(cmp: (T, T) -> int, x: T, t: seq<T>): (m: nat)
    ensures m <= |t|
    ensures forall i :: m <= i < |t| ==> cmp(x, t[i]) < 0
    ensures m == 0 || cmp(x, t[m - 1]) >= 0
  {
    if t == [] then 0
    else if cmp(x, t[|t| - 1]) < 0 then InsertPos(cmp, x, t[..|t| - 1])
    else |t|
  }

  /** `x` placed at its insertion position in `t`. */
  function Insert<T(!new)>(cmp: (T, T) -> int, x: T, t: seq<T>): (r: seq<T>) {
    var m := InsertPos(cmp, x, t);
    t[..m] + [x] + t[m..]
  }

  /** The stable sort of `s`: each element in turn inserted after every
      earlier element that does not compare greater. */
  function Sort<T(!new)>(cmp: (T, T) -> int, s: seq<T>): (r: seq<T>)
    ensures |r| == |s|
  {
    if s == [] then [] else Insert(cmp, s[|s| - 1], Sort(cmp, s[..|s| - 1]))
  }

  lemma InsertSorted<T(!new)>(cmp: (T, T) -> int, x: T, t: seq<T>)
    requires Consistent(cmp) && Sorted(cmp, t)
    ensures Sorted(cmp, Insert(cmp, x, t))
  {
    var m := InsertPos(cmp, x, t);
    var r := Insert(cmp, x, t);
    assert |r| == |t| + 1;
    forall i, j | 0 <= i < j < |r|
      ensures cmp(r[i], r[j]) <= 0
    {
      if j < m {
        assert r[i] == t[i] && r[j] == t[j];
      } else if j == m {
        assert r[i] == t[i] && r[j] == x;
        assert cmp(t[m - 1], x) <= 0;
        if i < m - 1 {
          Transitive(cmp, t[i], t[m - 1], x);
        }
      } else if i < m {
        assert r[i] == t[i] && r[j] == t[j - 1];
      } else if i == m {
        assert r[i] == x && r[j] == t[j - 1];
      } else {
        assert r[i] == t[i - 1] && r[j] == t[j - 1];
      }
    }
  }

  lemma {:induction false} SortSorted<T(!new)>(cmp: (T, T) -> int, s: seq<T>)
    requires Consistent(cmp)
    ensures Sorted(cmp, Sort(cmp, s))
  {
    if s != [] {
      SortSorted(cmp, s[..|s| - 1]);
      InsertSorted(cmp, s[|s| - 1], Sort(cmp, s[..|s| - 1]));
    }
  }

  lemma InsertPermutation<T(!new)>(cmp: (T, T) -> int, x: T, t: seq<T>)
    ensures multiset(Insert(cmp, x, t)) == multiset(t) + multiset{x}
  {
    var m := InsertPos(cmp, x, t);
    assert t == t[..m] + t[m..];
  }

  lemma {:induction false} SortPermutation<T(!new)>(cmp: (T, T) -> int, s: seq<T>)
    ensures multiset(Sort(cmp, s)) == multiset(s)
  {
    if s != [] {
      SortPermutation(cmp, s[..|s| - 1]);
      InsertPermutation(cmp, s[|s| - 1], Sort(cmp, s[..|s| - 1]));
      assert s == s[..|s| - 1] + [s[|s| - 1]];
    }
  }

  /** Inserting `x` keeps the elements that tie with `y` in the order they had,
      with `x` after them. */
  lemma InsertStable<T(!new)>(cmp: (T, T) -> int, x: T, t: seq<T>, y: T)
    requires Consistent(cmp)
    ensures Keep(Insert(cmp, x, t), TiedWith(cmp, y)) == Keep(t + [x], TiedWith(cmp, y))
  {
    var p := TiedWith(cmp, y);
    var m := InsertPos(cmp, x, t);
    var after := t[m..];
    if p(x) {
      forall i | 0 <= i < |after|
        ensures !p(after[i])
      {
        TieCompare(cmp, x, y, after[i]);
      }
    }
    KeepMoveToEnd(t[..m], x, after, p);
    assert t[..m] + after == t;
  }

  /** Elements that tie keep their relative order (stability). */
  lemma {:induction false} SortStable<T(!new)>(cmp: (T, T) -> int, s: seq<T>, y: T)
    requires Consistent(cmp)
    ensures Keep(Sort(cmp, s), TiedWith(cmp, y)) == Keep(s, TiedWith(cmp, y))
  {
    if s != [] {
      var init := s[..|s| - 1];
      var p := TiedWith(cmp, y);
      SortStable(cmp, init, y);
      InsertStable(cmp, s[|s| - 1], Sort(cmp, init), y);
      KeepAppend(Sort(cmp, init), [s[|s| - 1]], p);
      KeepAppend(init, [s[|s| - 1]], p);
      assert s == init + [s[|s| - 1]];
    }
  }

  /** The last elements of two sorted permutations of each other tie: both are maximal. */
  lemma LastElementsTie<T(!new)>(cmp: (T, T) -> int, r1: seq<T>, r2: seq<T>)
    requires Consistent(cmp)
    requires Sorted(cmp, r1) && Sorted(cmp, r2)
    requires multiset(r1) == multiset(r2) && r1 != []
    ensures |r1| == |r2| && cmp(r1[|r1| - 1], r2[|r2| - 1]) == 0
  {
    assert |r1| == |multiset(r1)| == |multiset(r2)| == |r2|;
    var n := |r1|;
    var a, b := r1[n - 1], r2[n - 1];
    assert a in multiset(r2) && b in multiset(r1);
    var j :| 0 <= j < n && r2[j] == a;
    var k :| 0 <= k < n && r1[k] == b;
    assert cmp(a, b) <= 0 by {
      if j < n - 1 { assert cmp(r2[j], r2[n - 1]) <= 0; }
    }
    assert cmp(b, a) <= 0 by {
      if k < n - 1 { assert cmp(r1[k], r1[n - 1]) <= 0; }
    }
  }

  /** Dropping a common last element keeps the premises of `StableSortUnique`. */
  lemma DropLast<T(!new)>(cmp: (T, T) -> int, r1: seq<T>, r2: seq<T>)
    requires r1 != [] && r2 != [] && r1[|r1| - 1] == r2[|r2| - 1]
    requires multiset(r1) == multiset(r2)
    requires forall y :: Keep(r1, TiedWith(cmp, y)) == Keep(r2, TiedWith(cmp, y))
    ensures multiset(r1[..|r1| - 1]) == multiset(r2[..|r2| - 1])
    ensures forall y :: Keep(r1[..|r1| - 1], TiedWith(cmp, y)) == Keep(r2[..|r2| - 1], TiedWith(cmp, y))
  {
    MultisetFront(r1, r2);
    forall y
      ensures Keep(r1[..|r1| - 1], TiedWith(cmp, y)) == Keep(r2[..|r2| - 1], TiedWith(cmp, y))
    {
      KeepFront(r1, r2, TiedWith(cmp, y));
    }
  }

  /** A sorted sequence stays sorted without its last element. */
  lemma SortedFront<T(!new)>(cmp: (T, T) -> int, r: seq<T>)
    requires Sorted(cmp, r) && r != []
    ensures Sorted(cmp, r[..|r| - 1])
  {
    var i := r[..|r| - 1];
    forall j, k | 0 <= j < k < |i|
      ensures cmp(i[j], i[k]) <= 0
    {
      assert i[j] == r[j] && i[k] == r[k];
    }
  }

  /** Sorted permutations of each other in which every tie class appears in
      the same order end with the same element. */
  lemma LastElementsEqual<T(!new)>(cmp: (T, T) -> int, r1: seq<T>, r2: seq<T>)
    requires Consistent(cmp)
    requires Sorted(cmp, r1) && Sorted(cmp, r2)
    requires multiset(r1) == multiset(r2) && r1 != []
    requires forall y :: Keep(r1, TiedWith(cmp, y)) == Keep(r2, TiedWith(cmp, y))
    ensures |r1| == |r2| && r1[|r1| - 1] == r2[|r2| - 1]
  {
    LastElementsTie(cmp, r1, r2);
    var a := r1[|r1| - 1];
    assert cmp(a, a) == 0 && cmp(r2[|r2| - 1], a) == 0;
    KeepLastEqual(r1, r2, TiedWith(cmp, a));
  }

  /** Two sorted permutations of each other whose tie classes appear in the
      same order are equal: sortedness, permutation and stability pin the
      result of a stable sort down completely. */
  lemma {:induction false} StableSortUnique<T(!new)>(cmp: (T, T) -> int, r1: seq<T>, r2: seq<T>)
    requires Consistent(cmp)
    requires Sorted(cmp, r1) && Sorted(cmp, r2)
    requires multiset(r1) == multiset(r2)
    requires forall y :: Keep(r1, TiedWith(cmp, y)) == Keep(r2, TiedWith(cmp, y))
    ensures r1 == r2
  {
    if r1 == [] || r2 == [] {
      assert |r1| == |multiset(r1)| == |multiset(r2)| == |r2|;
    } else {
      LastElementsEqual(cmp, r1, r2);
      DropLast(cmp, r1, r2);
      SortedFront(cmp, r1);
      SortedFront(cmp, r2);
      StableSortUnique(cmp, r1[..|r1| - 1], r2[..|r2| - 1]);
      SplitLast(r1);
      SplitLast(r2);
    }
  }

  /** No two distinct elements of `s` tie. */
  ghost predicate TieFree<T(!new)>(cmp: (T, T) -> int, s: seq<T>) {
    forall i, j :: 0 <= i < |s| && 0 <= j < |s| && cmp(s[i], s[j]) == 0 ==> s[i] == s[j]
  }

  /** Without ties, sorting by the opposite comparator reverses the sort. */
  lemma OppositeSortReverses<T(!new)>(cmp: (T, T) -> int, rev: (T, T) -> int, s: seq<T>)
    requires Consistent(cmp) && Opposite(cmp, rev) && TieFree(cmp, s)
    ensures Sort(rev, s) == Reverse(Sort(cmp, s))
  {
    OppositeConsistent(cmp, rev);
    var r := Sort(cmp, s);
    var d := Sort(rev, s);
    var back := Reverse(r);
    SortSorted(cmp, s);
    SortSorted(rev, s);
    SortPermutation(cmp, s);
    SortPermutation(rev, s);
    ReverseMultiset(r);
    forall i, j | 0 <= i < j < |back|
      ensures rev(back[i], back[j]) <= 0
    {
      assert cmp(r[|r| - 1 - j], r[|r| - 1 - i]) <= 0;
    }
    forall y
      ensures Keep(d, TiedWith(rev, y)) == Keep(back, TiedWith(rev, y))
    {
      SortStable(rev, s, y);
      var q := TiedWith(rev, y);
      var c := TiedWith(cmp, y);
      KeepSame(back, q, c);
      KeepReverse(r, c);
      SortStable(cmp, s, y);
      var tied := Keep(s, c);
      if tied != [] {
        forall k | 0 <= k < |tied|
          ensures tied[k] == tied[0]
        {
          KeepMembers(s, c, tied[k]);
          KeepMembers(s, c, tied[0]);
          TieCompare(cmp, tied[k], y, tied[0]);
        }
        ReverseConstant(tied, tied[0]);
      }
      KeepSame(s, q, c);
    }
    StableSortUnique(rev, d, back);
  }
}
