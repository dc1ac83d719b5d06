/**
 * The array operations the electives core uses, over sequences:
 * `Array.prototype.filter` (Keep), `slice(0, n)` (Prefix) and reversal.
 */
module Seqs {

  /** `s.filter(p)`: the elements of `s` that satisfy `p`, in their order. */
  function Keep<T>(s: seq<T>, p: T -> bool): (r: seq<T>)
    ensures |r| <= |s|
  {
    if s == [] then [] else (if p(s[0]) then [s[0]] else []) + Keep(s[1..], p)
  }

  /** What `filter` keeps: exactly the elements of `s` that satisfy `p`. */
  lemma {:induction false} KeepMembers<T>(s: seq<T>, p: T -> bool, x: T)
    ensures x in Keep(s, p) <==> x in s && p(x)
  {
    if s != [] {
      KeepMembers(s[1..], p, x);
      assert x in s <==> x == s[0] || x in s[1..];
    }
  }

  lemma {:induction false} KeepAppend<T>(a: seq<T>, b: seq<T>, p: T -> bool)
    ensures Keep(a + b, p) == Keep(a, p) + Keep(b, p)
  {
    if a == [] {
      assert a + b == b;
    } else {
      var head: seq<T> := if p(a[0]) then [a[0]] else [];
      assert (a + b)[1..] == a[1..] + b;
      KeepAppend(a[1..], b, p);
      calc {
        Keep(a + b, p);
        head + Keep(a[1..] + b, p);
        head + (Keep(a[1..], p) + Keep(b, p));
        (head + Keep(a[1..], p)) + Keep(b, p);
      }
    }
  }

  /** A nonempty sequence is its front followed by its last element. */
  lemma SplitLast<T>(s: seq<T>)
    requires s != []
    ensures s == s[..|s| - 1] + [s[|s| - 1]]
  {
  }

  /** Sequences with the same elements and the same last element have the
      same elements once it is dropped. */
  lemma MultisetFront<T>(r1: seq<T>, r2: seq<T>)
    requires r1 != [] && r2 != [] && r1[|r1| - 1] == r2[|r2| - 1]
    requires multiset(r1) == multiset(r2)
    ensures multiset(r1[..|r1| - 1]) == multiset(r2[..|r2| - 1])
  {
    var a := r1[|r1| - 1];
    assert multiset(r1[..|r1| - 1]) == multiset(r1) - multiset{a} by {
      SplitLast(r1);
    }
    assert multiset(r2[..|r2| - 1]) == multiset(r2) - multiset{a} by {
      SplitLast(r2);
    }
  }

  /** Filtering from the back: the kept prefix, then the last element if it is kept. */
  lemma {:induction false} KeepLast<T>(s: seq<T>, p: T -> bool)
    requires s != []
    ensures Keep(s, p) == Keep(s[..|s| - 1], p) + (if p(s[|s| - 1]) then [s[|s| - 1]] else [])
  {
    if |s| == 1 {
      assert s[1..] == [] && s[..0] == [];
    } else {
      KeepLast(s[1..], p);
      assert s[1..][..|s| - 2] == s[..|s| - 1][1..];
    }
  }

  /** Sequences that filter alike and end alike still filter alike once the
      last element is dropped. */
  lemma KeepFront<T>(r1: seq<T>, r2: seq<T>, p: T -> bool)
    requires r1 != [] && r2 != [] && r1[|r1| - 1] == r2[|r2| - 1]
    requires Keep(r1, p) == Keep(r2, p)
    ensures Keep(r1[..|r1| - 1], p) == Keep(r2[..|r2| - 1], p)
  {
    KeepLast(r1, p);
    KeepLast(r2, p);
    var k1, k2 := Keep(r1[..|r1| - 1], p), Keep(r2[..|r2| - 1], p);
    var a := r1[|r1| - 1];
    var tail: seq<T> := if p(a) then [a] else [];
    assert k1 + tail == k2 + tail;
    assert k1 == (k1 + tail)[..|k1|] == (k2 + tail)[..|k2|] == k2;
  }

  /** Under the same filter, sequences that filter alike and whose last
      elements both pass it end with the same element. */
  lemma KeepLastEqual<T>(r1: seq<T>, r2: seq<T>, p: T -> bool)
    requires r1 != [] && r2 != [] && p(r1[|r1| - 1]) && p(r2[|r2| - 1])
    requires Keep(r1, p) == Keep(r2, p)
    ensures r1[|r1| - 1] == r2[|r2| - 1]
  {
    KeepLast(r1, p);
    KeepLast(r2, p);
    var k := Keep(r1, p);
    assert k[|k| - 1] == r1[|r1| - 1] && k[|k| - 1] == r2[|r2| - 1];
  }

  /** Moving `x` from between `a` and `b` to the end does not change what a
      filter keeps when `x` is dropped or nothing in `b` is kept. */
  lemma KeepMoveToEnd<T>(a: seq<T>, x: T, b: seq<T>, p: T -> bool)
    requires !p(x) || forall i :: 0 <= i < |b| ==> !p(b[i])
    ensures Keep(a + [x] + b, p) == Keep(a + b + [x], p)
  {
    KeepAppend(a + [x], b, p);
    KeepAppend(a, [x], p);
    KeepAppend(a + b, [x], p);
    KeepAppend(a, b, p);
    if p(x) {
      KeepNone(b, p);
    } else {
      assert Keep([x], p) == [];
    }
  }

  /** Filtering by a predicate every element satisfies changes nothing. */
  lemma {:induction false} KeepEverything<T>(s: seq<T>, p: T -> bool)
    requires forall i :: 0 <= i < |s| ==> p(s[i])
    ensures Keep(s, p) == s
  {
    if s != [] {
      KeepEverything(s[1..], p);
    }
  }

  /** Two successive filters are one filter by the conjunction. */
  lemma {:induction false} KeepKeep<T>(s: seq<T>, p: T -> bool, q: T -> bool, pq: T -> bool)
    requires forall x :: pq(x) == (p(x) && q(x))
    ensures Keep(Keep(s, p), q) == Keep(s, pq)
  {
    if s != [] {
      KeepKeep(s[1..], p, q, pq);
      var head: seq<T> := if p(s[0]) then [s[0]] else [];
      assert Keep(s, p) == head + Keep(s[1..], p);
      KeepAppend(head, Keep(s[1..], p), q);
      assert Keep(head, q) == if pq(s[0]) then [s[0]] else [] by {
        if p(s[0]) { assert head[1..] == []; }
      }
    }
  }

  /** Filtering by a predicate no element satisfies leaves nothing. */
  lemma {:induction false} KeepNone<T>(s: seq<T>, p: T -> bool)
    requires forall i :: 0 <= i < |s| ==> !p(s[i])
    ensures Keep(s, p) == []
  {
    if s != [] {
      KeepNone(s[1..], p);
    }
  }

  /** Predicates that agree on the elements of `s` filter it alike. */
  lemma {:induction false} KeepSame<T>(s: seq<T>, p: T -> bool, q: T -> bool)
    requires forall i :: 0 <= i < |s| ==> p(s[i]) == q(s[i])
    ensures Keep(s, p) == Keep(s, q)
  {
    if s != [] {
      KeepSame(s[1..], p, q);
    }
  }

  /** Each element keeps its multiplicity if it satisfies `p`, and loses it otherwise. */
  lemma {:induction false} KeepCount<T>(s: seq<T>, p: T -> bool, x: T)
    ensures multiset(Keep(s, p))[x] == if p(x) then multiset(s)[x] else 0
  {
    if s != [] {
      KeepCount(s[1..], p, x);
      assert s == [s[0]] + s[1..];
    }
  }

  /** `s.slice(0, n)`. */
  function Prefix<T>(s: seq<T>, n: nat): (r: seq<T>)
    ensures |r| == if n < |s| then n else |s|
    ensures forall i :: 0 <= i < |r| ==> r[i] == s[i]
  {
    if n < |s| then s[..n] else s
  }

  function Reverse<T>(s: seq<T>): (r: seq<T>)
    ensures |r| == |s|
    ensures forall i :: 0 <= i < |s| ==> r[i] == s[|s| - 1 - i]
  {
    if s == [] then [] else Reverse(s[1..]) + [s[0]]
  }

  lemma ReverseAppend<T>(a: seq<T>, b: seq<T>)
    ensures Reverse(a + b) == Reverse(b) + Reverse(a)
  {
    assert forall i :: 0 <= i < |a| + |b| ==> Reverse(a + b)[i] == (Reverse(b) + Reverse(a))[i];
  }

  /** A sequence of copies of one value is its own reverse. */
  lemma ReverseConstant<T>(t: seq<T>, c: T)
    requires forall i :: 0 <= i < |t| ==> t[i] == c
    ensures Reverse(t) == t
  {
  }

  /** Filtering commutes with reversal. */
  lemma {:induction false} KeepReverse<T>(s: seq<T>, p: T -> bool)
    ensures Keep(Reverse(s), p) == Reverse(Keep(s, p))
  {
    if s != [] {
      KeepReverse(s[1..], p);
      KeepAppend(Reverse(s[1..]), [s[0]], p);
      ReverseAppend(if p(s[0]) then [s[0]] else [], Keep(s[1..], p));
    }
  }

  lemma {:induction false} ReverseMultiset<T>(s: seq<T>)
    ensures multiset(Reverse(s)) == multiset(s)
  {
    if s != [] {
      ReverseMultiset(s[1..]);
      assert s == [s[0]] + s[1..];
    }
  }
}
