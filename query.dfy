/**
 * `filterElectives`: narrow the records down by type, department and a
 * case-insensitive search, then sort them by one key in one direction.
 */
module Query {
  import opened Text
  import opened Seqs
  import opened Sorting
  import opened Electives

  /** The `sortBy` argument. An absent value sorts by name, like "name". */
  datatype SortKey = ByName | ByCutoff | ByStudents | ByDifficulty

  /** The `sortOrder` argument. Only "desc" reverses; an absent value is ascending. */
  datatype SortOrder = Asc | Desc

  /** The `order` multiplier: -1 for "desc", 1 otherwise. */
  function Factor(order: SortOrder): (f: int)
    ensures f == 1 || f == -1
    ensures f == -1 <==> order == Desc
  {
    if order == Desc then -1 else 1
  }

  /** The sign of a comparator's number, which is all `Array.prototype.sort` looks at. */
  function Sign(d: real): (r: int)
    ensures r == -1 || r == 0 || r == 1
    ensures r < 0 <==> d < 0.0
    ensures r > 0 <==> d > 0.0
  {
    if d < 0.0 then -1 else if d > 0.0 then 1 else 0
  }

  /** A difference of cutoffs multiplied by the `order` multiplier. */
  function Scaled(d: real, factor: int): real {
    d * factor as real
  }

  /** `(a, b) => (a.lowestCGPA - b.lowestCGPA) * order`, for "cutoff" and "difficulty" alike. */
  function CutoffComparator(factor: int): (cmp: (Elective, Elective) -> int)
    ensures forall a, b :: -1 <= cmp(a, b) <= 1
  {
    assert forall d :: -1 <= Sign(d) <= 1;
    (a: Elective, b: Elective) => Sign(Scaled(a.lowestCGPA - b.lowestCGPA, factor))
  }

  /** `(a, b) => (a.students - b.students) * order`. */
  function StudentsComparator(factor: int): (cmp: (Elective, Elective) -> int)
    ensures forall a, b :: -1 <= cmp(a, b) <= 1
  {
    assert forall d :: -1 <= Sign(d) <= 1;
    (a: Elective, b: Elective) => Sign(((a.students - b.students) * factor) as real)
  }

  /** `(a, b) => a.name.localeCompare(b.name) * order`, with code-point order for the collation. */
  function NameComparator(factor: int): (cmp: (Elective, Elective) -> int)
    ensures factor == 1 || factor == -1 ==> forall a, b :: -1 <= cmp(a, b) <= 1
  {
    (a: Elective, b: Elective) => LexCompare(a.name, b.name) * factor
  }

  /** The comparator the `switch` on `sortBy` hands to `sort`. */
  function Comparator(key: SortKey, order: SortOrder): (cmp: (Elective, Elective) -> int)
    ensures forall a, b :: -1 <= cmp(a, b) <= 1
  {
    match key
    case ByCutoff => CutoffComparator(Factor(order))
    case ByStudents => StudentsComparator(Factor(order))
    case ByDifficulty => CutoffComparator(Factor(order))
    case ByName => NameComparator(Factor(order))
  }

  /** The order each key promises between an earlier record `a` and a later
      record `b` of the result, stated on the fields themselves. */
  predicate InOrder(key: SortKey, order: SortOrder, a: Elective, b: Elective) {
    match key
    case ByCutoff | ByDifficulty =>
      if order == Asc then a.lowestCGPA <= b.lowestCGPA else a.lowestCGPA >= b.lowestCGPA
    case ByStudents =>
      if order == Asc then a.students <= b.students else a.students >= b.students
    case ByName =>
      if order == Asc then !LexLess(b.name, a.name) else !LexLess(a.name, b.name)
  }

  /** Scaling by -1 or 1 scales the sign alike. */
  lemma SignScaled(d: real, factor: int)
    requires factor == 1 || factor == -1
    ensures Sign(Scaled(d, factor)) == Sign(d) * factor
  {
    if factor == 1 {
      assert Scaled(d, factor) == d;
    } else {
      assert Scaled(d, factor) == -d;
    }
  }

  /** The cutoff comparator is consistent for either direction. */
  lemma CutoffConsistent(factor: int)
    requires factor == 1 || factor == -1
    ensures Consistent(CutoffComparator(factor))
  {
    var cmp := CutoffComparator(factor);
    forall a, b
      ensures cmp(a, b) == Sign(a.lowestCGPA - b.lowestCGPA) * factor
    {
      SignScaled(a.lowestCGPA - b.lowestCGPA, factor);
    }
    forall a, b, c
      ensures Chain(cmp, a, b, c)
    {
      assert cmp(a, b) == Sign(a.lowestCGPA - b.lowestCGPA) * factor;
      assert cmp(b, c) == Sign(b.lowestCGPA - c.lowestCGPA) * factor;
      assert cmp(a, c) == Sign(a.lowestCGPA - c.lowestCGPA) * factor;
    }
  }

  /** The students comparator is consistent for either direction. */
  lemma StudentsConsistent(factor: int)
    requires factor == 1 || factor == -1
    ensures Consistent(StudentsComparator(factor))
  {
    var cmp := StudentsComparator(factor);
    forall a, b
      ensures -1 <= cmp(a, b) <= 1 && cmp(a, b) == -cmp(b, a)
    {
      if factor == 1 {
        assert cmp(a, b) == Sign((a.students - b.students) as real);
        assert cmp(b, a) == Sign((b.students - a.students) as real);
      } else {
        assert cmp(a, b) == Sign((b.students - a.students) as real);
        assert cmp(b, a) == Sign((a.students - b.students) as real);
      }
    }
    forall a, b, c
      ensures Chain(cmp, a, b, c)
    {
      if factor == 1 {
        assert cmp(a, b) == Sign((a.students - b.students) as real);
        assert cmp(b, c) == Sign((b.students - c.students) as real);
        assert cmp(a, c) == Sign((a.students - c.students) as real);
      } else {
        assert cmp(a, b) == Sign((b.students - a.students) as real);
        assert cmp(b, c) == Sign((c.students - b.students) as real);
        assert cmp(a, c) == Sign((c.students - a.students) as real);
      }
    }
  }

  /** The name comparator is consistent for either direction. */
  lemma NameConsistent(factor: int)
    requires factor == 1 || factor == -1
    ensures Consistent(NameComparator(factor))
  {
    var cmp := NameComparator(factor);
    forall a, b
      ensures cmp(a, b) == -cmp(b, a)
    {
      LexCompareAntisymmetric(a.name, b.name);
    }
    forall a, b, c
      ensures Chain(cmp, a, b, c)
    {
      if cmp(a, b) <= 0 && cmp(b, c) <= 0 {
        if factor == 1 {
          LexCompareTransitive(a.name, b.name, c.name);
        } else {
          LexCompareAntisymmetric(a.name, b.name);
          LexCompareAntisymmetric(b.name, c.name);
          LexCompareAntisymmetric(a.name, c.name);
          LexCompareTransitive(c.name, b.name, a.name);
        }
      }
    }
  }

  /** Every comparator `filterElectives` uses is one `sort` can rely on, and
      the descending one is the ascending one times -1. */
  lemma ComparatorConsistent(key: SortKey, order: SortOrder)
    ensures Consistent(Comparator(key, order))
    ensures Opposite(Comparator(key, Asc), Comparator(key, Desc))
  {
    match key {
      case ByCutoff => CutoffConsistent(Factor(order));
      case ByDifficulty => CutoffConsistent(Factor(order));
      case ByStudents => StudentsConsistent(Factor(order));
      case ByName => NameConsistent(Factor(order));
    }
    forall a, b
      ensures Comparator(key, Desc)(a, b) == -Comparator(key, Asc)(a, b)
    {
      SignScaled(a.lowestCGPA - b.lowestCGPA, 1);
      SignScaled(a.lowestCGPA - b.lowestCGPA, -1);
    }
  }

  /** A comparison not above zero means exactly that the two records are in
      the order `InOrder` states. */
  lemma ComparatorInOrder(key: SortKey, order: SortOrder, a: Elective, b: Elective)
    ensures Comparator(key, order)(a, b) <= 0 <==> InOrder(key, order, a, b)
  {
    SignScaled(a.lowestCGPA - b.lowestCGPA, Factor(order));
    LexTrichotomy(a.name, b.name);
  }

  /** The type filter: none when `type` is absent or "all". */
  predicate TypeMatches(t: string, e: Elective) {
    t == "" || t == "all" || TypeName(e.etype) == t
  }

  /** The department filter: none when `department` is absent or "all". */
  predicate DeptMatches(d: string, e: Elective) {
    d == "" || d == "all" || e.department == d
  }

  /** The search: the lower-cased query occurs in the lower-cased name, code
      or department. An absent or empty query matches everything. */
  predicate SearchMatches(q: string, e: Elective) {
    q == "" ||
    var ql := ToLower(q);
    Includes(ToLower(e.name), ql) || Includes(ToLower(e.code), ql) || Includes(ToLower(e.department), ql)
  }

  /** The three filters together. */
  function Selected(t: string, d: string, q: string): Elective -> bool {
    (e: Elective) => TypeMatches(t, e) && DeptMatches(d, e) && SearchMatches(q, e)
  }

  /** What `filterElectives` returns: the records that pass the filters, in
      the order a stable sort by the chosen comparator puts them. */
  function FilterSpec(data: seq<Elective>, t: string, d: string, q: string, key: SortKey, order: SortOrder): (r: seq<Elective>)
    ensures |r| <= |data|
  {
    Sort(Comparator(key, order), Keep(data, Selected(t, d, q)))
  }

  /** `e => e.type === type`. */
  function OfType(t: string): Elective -> bool {
    (e: Elective) => TypeName(e.etype) == t
  }

  /** `e => e.department === department`. */
  function InDepartment(d: string): Elective -> bool {
    (e: Elective) => e.department == d
  }

  /** The search callback, given the lower-cased query. */
  function Mentions(searchLower: string): Elective -> bool {
    (e: Elective) => Includes(ToLower(e.name), searchLower) || Includes(ToLower(e.code), searchLower)
      || Includes(ToLower(e.department), searchLower)
  }

  /** The type filter alone. */
  function TypeOnly(t: string): Elective -> bool {
    (e: Elective) => TypeMatches(t, e)
  }

  /** The type and department filters. */
  function TypeAndDept(t: string, d: string): Elective -> bool {
    (e: Elective) => TypeMatches(t, e) && DeptMatches(d, e)
  }

  /** The first step of `filterElectives` applies the type filter. */
  lemma TypeStep(data: seq<Elective>, t: string)
    ensures Keep(data, TypeOnly(t)) == if t != "" && t != "all" then Keep(data, OfType(t)) else data
  {
    if t != "" && t != "all" {
      KeepSame(data, OfType(t), TypeOnly(t));
    } else {
      KeepEverything(data, TypeOnly(t));
    }
  }

  /** The second step adds the department filter. */
  lemma DeptStep(data: seq<Elective>, t: string, d: string)
    ensures Keep(data, TypeAndDept(t, d)) ==
      if d != "" && d != "all" then Keep(Keep(data, TypeOnly(t)), InDepartment(d)) else Keep(data, TypeOnly(t))
  {
    if d != "" && d != "all" {
      KeepKeep(data, TypeOnly(t), InDepartment(d), TypeAndDept(t, d));
    } else {
      KeepSame(data, TypeAndDept(t, d), TypeOnly(t));
    }
  }

  /** The third step adds the search. */
  lemma SearchStep(data: seq<Elective>, t: string, d: string, q: string)
    ensures Keep(data, Selected(t, d, q)) ==
      if q != "" then Keep(Keep(data, TypeAndDept(t, d)), Mentions(ToLower(q))) else Keep(data, TypeAndDept(t, d))
  {
    if q != "" {
      KeepKeep(data, TypeAndDept(t, d), Mentions(ToLower(q)), Selected(t, d, q));
    } else {
      KeepSame(data, Selected(t, d, q), TypeAndDept(t, d));
    }
  }

  /** `filterElectives` as written: a filter per argument that is present, then the sort. */
  method FilterElectives(data: seq<Elective>, t: string, d: string, q: string, key: SortKey, order: SortOrder)
    returns (filtered: seq<Elective>)
    ensures filtered == FilterSpec(data, t, d, q, key, order)
  {
    filtered := data;
    if t != "" && t != "all" {
      filtered := Keep(filtered, OfType(t));
    }
    TypeStep(data, t);
    if d != "" && d != "all" {
      filtered := Keep(filtered, InDepartment(d));
    }
    DeptStep(data, t, d);
    if q != "" {
      var searchLower := ToLower(q);
      filtered := Keep(filtered, Mentions(searchLower));
    }
    SearchStep(data, t, d, q);
    var factor := Factor(order);
    match key {
      case ByCutoff => filtered := Sort(CutoffComparator(factor), filtered);
      case ByStudents => filtered := Sort(StudentsComparator(factor), filtered);
      case ByDifficulty => filtered := Sort(CutoffComparator(factor), filtered);
      case ByName => filtered := Sort(NameComparator(factor), filtered);
    }
  }

  /** A record is in the result exactly when it is in the data and passes all three filters. */
  lemma FilterMembers(data: seq<Elective>, t: string, d: string, q: string, key: SortKey, order: SortOrder, e: Elective)
    ensures e in FilterSpec(data, t, d, q, key, order) <==>
      e in data && TypeMatches(t, e) && DeptMatches(d, e) && SearchMatches(q, e)
  {
    var kept := Keep(data, Selected(t, d, q));
    SortPermutation(Comparator(key, order), kept);
    assert e in FilterSpec(data, t, d, q, key, order) <==> e in kept by {
      assert e in multiset(FilterSpec(data, t, d, q, key, order)) <==> e in multiset(kept);
    }
    KeepMembers(data, Selected(t, d, q), e);
  }

  /** The result is a permutation of the records that pass the filters, with
      every record kept as often as it occurs in the data. */
  lemma FilterPermutation(data: seq<Elective>, t: string, d: string, q: string, key: SortKey, order: SortOrder, e: Elective)
    ensures multiset(FilterSpec(data, t, d, q, key, order))[e] ==
      if Selected(t, d, q)(e) then multiset(data)[e] else 0
  {
    SortPermutation(Comparator(key, order), Keep(data, Selected(t, d, q)));
    KeepCount(data, Selected(t, d, q), e);
  }

  /** The result is ordered by the chosen key in the chosen direction. */
  lemma FilterOrdered(data: seq<Elective>, t: string, d: string, q: string, key: SortKey, order: SortOrder)
    ensures var r := FilterSpec(data, t, d, q, key, order);
      forall i, j :: 0 <= i < j < |r| ==> InOrder(key, order, r[i], r[j])
  {
    var cmp := Comparator(key, order);
    ComparatorConsistent(key, order);
    SortSorted(cmp, Keep(data, Selected(t, d, q)));
    var r := FilterSpec(data, t, d, q, key, order);
    forall i, j | 0 <= i < j < |r|
      ensures InOrder(key, order, r[i], r[j])
    {
      ComparatorInOrder(key, order, r[i], r[j]);
    }
  }

  /** The sort is stable: the records that tie with `y` under the chosen
      comparator come out in the order they have in the data, descending
      order included. */
  lemma FilterStable(data: seq<Elective>, t: string, d: string, q: string, key: SortKey, order: SortOrder, y: Elective)
    ensures Keep(FilterSpec(data, t, d, q, key, order), TiedWith(Comparator(key, order), y))
      == Keep(data, (e: Elective) => Selected(t, d, q)(e) && Comparator(key, order)(e, y) == 0)
  {
    var cmp := Comparator(key, order);
    ComparatorConsistent(key, order);
    SortStable(cmp, Keep(data, Selected(t, d, q)), y);
    KeepKeep(data, Selected(t, d, q), TiedWith(cmp, y),
      (e: Elective) => Selected(t, d, q)(e) && cmp(e, y) == 0);
  }

  /** "cutoff" and "difficulty" sort alike. */
  lemma DifficultyIsCutoff(data: seq<Elective>, t: string, d: string, q: string, order: SortOrder)
    ensures FilterSpec(data, t, d, q, ByDifficulty, order) == FilterSpec(data, t, d, q, ByCutoff, order)
  {
  }

  /** When no two selected records tie on the key, descending is ascending reversed. */
  lemma DescendingReversesWithoutTies(data: seq<Elective>, t: string, d: string, q: string, key: SortKey)
    requires TieFree(Comparator(key, Asc), Keep(data, Selected(t, d, q)))
    ensures FilterSpec(data, t, d, q, key, Desc) == Reverse(FilterSpec(data, t, d, q, key, Asc))
  {
    ComparatorConsistent(key, Asc);
    OppositeSortReverses(Comparator(key, Asc), Comparator(key, Desc), Keep(data, Selected(t, d, q)));
  }

  /** Two records with the same cutoff, in data order: sorting by cutoff
      keeps them in that order both ways, so descending is not ascending
      reversed. */
  lemma DescendingKeepsTies(a: Elective, b: Elective)
    requires a.lowestCGPA == b.lowestCGPA && a != b
    ensures FilterSpec([a, b], "", "", "", ByCutoff, Asc) == [a, b]
    ensures FilterSpec([a, b], "", "", "", ByCutoff, Desc) == [a, b]
    ensures FilterSpec([a, b], "", "", "", ByCutoff, Desc) != Reverse(FilterSpec([a, b], "", "", "", ByCutoff, Asc))
  {
    var all := Selected("", "", "");
    assert Keep([a, b], all) == [a, b] by {
      KeepEverything([a, b], all);
    }
    assert [a, b][..1] == [a] && [a][..0] == [];
    forall order: SortOrder
      ensures Sort(Comparator(ByCutoff, order), [a, b]) == [a, b]
    {
      var cmp := Comparator(ByCutoff, order);
      assert cmp(b, a) == 0;
      assert Sort(cmp, [a]) == [a];
      assert InsertPos(cmp, b, [a]) == 1;
    }
    assert Reverse([a, b]) == [b, a];
  }
}
