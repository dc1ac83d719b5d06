/**
 * `getDepartments` and `getStats`: the distinct departments in sorted
 * order, and the summary figures of the dashboard's header.
 */
module Stats {
  import opened Text
  import opened Seqs
  import opened Sorting
  import opened Electives

  /** `data.map(e => e.department)`. */
  function DepartmentsOf(data: seq<Elective>): (r: seq<string>)
    ensures |r| == |data|
    ensures forall i :: 0 <= i < |data| ==> r[i] == data[i].department
  {
    seq(|data|, i requires 0 <= i < |data| => data[i].department)
  }

  /** `Array.from(new Set(s))`: every value once, at its first occurrence. */
  function Distinct(s: seq<string>): (r: seq<string>)
    ensures |r| <= |s|
  {
    if s == [] then []
    else
      var r := Distinct(s[..|s| - 1]);
      if s[|s| - 1] in s[..|s| - 1] then r else r + [s[|s| - 1]]
  }

  /** The set keeps exactly the values of `s`. */
  lemma {:induction false} DistinctMembers(s: seq<string>, x: string)
    ensures x in Distinct(s) <==> x in s
  {
    if s != [] {
      var init := s[..|s| - 1];
      DistinctMembers(init, x);
      assert x in s <==> x in init || x == s[|s| - 1] by {
        assert s == init + [s[|s| - 1]];
      }
    }
  }

  /** The set keeps every value at most once. */
  lemma {:induction false} DistinctOnce(s: seq<string>, x: string)
    ensures multiset(Distinct(s))[x] <= 1
  {
    if s != [] {
      var init := s[..|s| - 1];
      DistinctOnce(init, x);
      if s[|s| - 1] !in init {
        DistinctMembers(init, s[|s| - 1]);
        assert multiset(Distinct(s)) == multiset(Distinct(init)) + multiset{s[|s| - 1]};
      }
    }
  }

  /** The default order of `sort()` on strings, as a comparator. */
  function StringOrder(): (string, string) -> int {
    (a: string, b: string) => LexCompare(a, b)
  }

  lemma StringOrderConsistent()
    ensures Consistent(StringOrder())
  {
    var cmp := StringOrder();
    forall a, b
      ensures cmp(a, b) == -cmp(b, a)
    {
      LexCompareAntisymmetric(a, b);
    }
    forall a, b, c
      ensures Chain(cmp, a, b, c)
    {
      if cmp(a, b) <= 0 && cmp(b, c) <= 0 {
        LexCompareTransitive(a, b, c);
      }
    }
  }

  /** `getDepartments` over `data`: the set of departments, sorted. */
  function Departments(data: seq<Elective>): (r: seq<string>)
    ensures |r| <= |data|
  {
    Sort(StringOrder(), Distinct(DepartmentsOf(data)))
  }

  /** A value that sits at two positions occurs at least twice. */
  lemma TwoPositions(s: seq<string>, i: int, j: int)
    requires 0 <= i < j < |s| && s[i] == s[j]
    ensures multiset(s)[s[i]] >= 2
  {
    assert s == s[..j] + [s[j]] + s[j + 1..];
    assert s[i] in multiset(s[..j]) by {
      assert s[..j][i] == s[i];
    }
  }

  /** The departments come out strictly ascending, so without duplicates. */
  lemma DepartmentsAscending(data: seq<Elective>)
    ensures var r := Departments(data);
      forall i, j :: 0 <= i < j < |r| ==> LexLess(r[i], r[j])
  {
    var set_ := Distinct(DepartmentsOf(data));
    var r := Departments(data);
    StringOrderConsistent();
    SortSorted(StringOrder(), set_);
    SortPermutation(StringOrder(), set_);
    forall i, j | 0 <= i < j < |r|
      ensures LexLess(r[i], r[j])
    {
      assert LexCompare(r[i], r[j]) <= 0;
      if r[i] == r[j] {
        TwoPositions(r, i, j);
        DistinctOnce(DepartmentsOf(data), r[i]);
        assert false;
      }
    }
  }

  /** A value is listed exactly when some record has it as its department. */
  lemma DepartmentsMembers(data: seq<Elective>, x: string)
    ensures x in Departments(data) <==> exists e :: e in data && e.department == x
  {
    var names := DepartmentsOf(data);
    var set_ := Distinct(names);
    SortPermutation(StringOrder(), set_);
    assert x in Departments(data) <==> x in set_ by {
      assert x in multiset(Departments(data)) <==> x in multiset(set_);
    }
    DistinctMembers(names, x);
    if x in names {
      var i :| 0 <= i < |names| && names[i] == x;
      assert data[i] in data && data[i].department == x;
    }
    if exists e :: e in data && e.department == x {
      var e :| e in data && e.department == x;
      var i :| 0 <= i < |data| && data[i] == e;
      assert names[i] == x;
    }
  }

  /** A sequence in which no value occurs twice is as long as its set of values is large. */
  lemma {:induction false} OnceCard(s: seq<string>)
    requires forall x :: multiset(s)[x] <= 1
    ensures |set x | x in s| == |s|
  {
    if s != [] {
      var init := s[..|s| - 1];
      var last := s[|s| - 1];
      assert s == init + [last];
      assert multiset(s) == multiset(init) + multiset{last};
      forall x
        ensures multiset(init)[x] <= 1
      {
        assert multiset(s)[x] <= 1;
      }
      OnceCard(init);
      assert last !in init by {
        assert multiset(s)[last] == multiset(init)[last] + 1;
        assert multiset(s)[last] <= 1;
        assert last !in multiset(init);
      }
      assert (set x | x in s) == (set x | x in init) + {last};
    }
  }

  /** The set of departments the records have. */
  ghost function DepartmentSet(data: seq<Elective>): set<string> {
    set e | e in data :: e.department
  }

  /** There are as many listed departments as distinct ones among the records. */
  lemma DepartmentsCount(data: seq<Elective>)
    ensures |Departments(data)| == |DepartmentSet(data)|
  {
    var r := Departments(data);
    var set_ := Distinct(DepartmentsOf(data));
    SortPermutation(StringOrder(), set_);
    forall x
      ensures multiset(r)[x] <= 1
    {
      DistinctOnce(DepartmentsOf(data), x);
    }
    OnceCard(r);
    assert (set x | x in r) == DepartmentSet(data) by {
      forall x
        ensures x in r <==> x in DepartmentSet(data)
      {
        DepartmentsMembers(data, x);
      }
    }
  }

  /** The result of `Math.min` or `Math.max` over a list of numbers, which
      is Infinity or -Infinity for an empty list. */
  datatype Extreme = Finite(value: real) | PlusInfinity | MinusInfinity

  /** `Math.min(...data.map(e => e.lowestCGPA))`. */
  function LowestCutoff(data: seq<Elective>): (m: Extreme)
    ensures data == [] <==> m == PlusInfinity
    ensures data != [] ==> m.Finite?
    ensures m.Finite? ==> forall i :: 0 <= i < |data| ==> m.value <= data[i].lowestCGPA
    ensures m.Finite? ==> exists i :: 0 <= i < |data| && data[i].lowestCGPA == m.value
  {
    if data == [] then PlusInfinity
    else
      var init := data[..|data| - 1];
      var rest := LowestCutoff(init);
      var x := data[|data| - 1].lowestCGPA;
      if rest.Finite? && rest.value <= x then
        var i :| 0 <= i < |init| && init[i].lowestCGPA == rest.value;
        assert data[i] == init[i];
        rest
      else
        Finite(x)
  }

  /** `Math.max(...data.map(e => e.lowestCGPA))`. */
  function HighestCutoff(data: seq<Elective>): (m: Extreme)
    ensures data == [] <==> m == MinusInfinity
    ensures data != [] ==> m.Finite?
    ensures m.Finite? ==> forall i :: 0 <= i < |data| ==> data[i].lowestCGPA <= m.value
    ensures m.Finite? ==> exists i :: 0 <= i < |data| && data[i].lowestCGPA == m.value
  {
    if data == [] then MinusInfinity
    else
      var init := data[..|data| - 1];
      var rest := HighestCutoff(init);
      var x := data[|data| - 1].lowestCGPA;
      if rest.Finite? && x <= rest.value then
        var i :| 0 <= i < |init| && init[i].lowestCGPA == rest.value;
        assert data[i] == init[i];
        rest
      else
        Finite(x)
  }

  /** `data.reduce((sum, e) => sum + e.students, 0)`. */
  function TotalStudents(data: seq<Elective>): (n: nat)
    ensures n == 0 <==> forall i :: 0 <= i < |data| ==> data[i].students == 0
  {
    if data == [] then 0
    else
      var init := data[..|data| - 1];
      assert forall i :: 0 <= i < |init| ==> init[i] == data[i];
      TotalStudents(init) + data[|data| - 1].students
  }

  /** Adding one more record adds its students. */
  lemma TotalStudentsSnoc(a: seq<Elective>, e: Elective)
    ensures TotalStudents(a + [e]) == TotalStudents(a) + e.students
  {
    assert (a + [e])[..|a|] == a;
  }

  /** `e => e.type === t`, for each of the three types. */
  function OfKind(t: ElectiveType): Elective -> bool {
    (e: Elective) => e.etype == t
  }

  /** The number of records of type `t`. */
  function Count(data: seq<Elective>, t: ElectiveType): (n: nat)
    ensures n <= |data|
  {
    |Keep(data, OfKind(t))|
  }

  /** A type is counted zero times exactly when no record has it. */
  lemma CountZero(data: seq<Elective>, t: ElectiveType)
    ensures Count(data, t) == 0 <==> forall i :: 0 <= i < |data| ==> data[i].etype != t
  {
    if forall i :: 0 <= i < |data| ==> data[i].etype != t {
      KeepNone(data, OfKind(t));
    } else {
      var i :| 0 <= i < |data| && data[i].etype == t;
      KeepMembers(data, OfKind(t), data[i]);
    }
  }

  /** Every record has one of the three types, so the counts add up to the total. */
  lemma {:induction false} CountsAddUp(data: seq<Elective>)
    ensures Count(data, OE) + Count(data, PEI) + Count(data, PEII) == |data|
  {
    if data != [] {
      CountsAddUp(data[1..]);
    }
  }

  /** The students of type `t` grow by the last record's students when it has that type. */
  lemma StudentsOfKindStep(data: seq<Elective>, t: ElectiveType)
    requires data != []
    ensures var last := data[|data| - 1];
      TotalStudents(Keep(data, OfKind(t)))
        == TotalStudents(Keep(data[..|data| - 1], OfKind(t))) + (if last.etype == t then last.students else 0)
  {
    var last := data[|data| - 1];
    KeepLast(data, OfKind(t));
    if last.etype == t {
      TotalStudentsSnoc(Keep(data[..|data| - 1], OfKind(t)), last);
    } else {
      assert Keep(data, OfKind(t)) == Keep(data[..|data| - 1], OfKind(t));
    }
  }

  /** The students of the three types add up to all students. */
  lemma {:induction false} StudentsAddUp(data: seq<Elective>)
    ensures TotalStudents(Keep(data, OfKind(OE))) + TotalStudents(Keep(data, OfKind(PEI)))
      + TotalStudents(Keep(data, OfKind(PEII))) == TotalStudents(data)
  {
    if data != [] {
      StudentsAddUp(data[..|data| - 1]);
      StudentsOfKindStep(data, OE);
      StudentsOfKindStep(data, PEI);
      StudentsOfKindStep(data, PEII);
    }
  }

  /** No record has more students than the total. */
  lemma {:induction false} StudentsBounded(data: seq<Elective>, i: int)
    requires 0 <= i < |data|
    ensures data[i].students <= TotalStudents(data)
  {
    if i < |data| - 1 {
      StudentsBounded(data[..|data| - 1], i);
    }
  }

  /** What `getStats` returns. */
  datatype Summary = Summary(
    totalElectives: nat,
    oeCount: nat,
    pe1Count: nat,
    pe2Count: nat,
    lowestCutoff: Extreme,
    highestCutoff: Extreme,
    totalStudents: nat,
    departments: nat)

  /** `getStats` over `data`. */
  function GetStats(data: seq<Elective>): (s: Summary)
    ensures s.totalElectives == |data|
    ensures s.oeCount == Count(data, OE) && s.pe1Count == Count(data, PEI) && s.pe2Count == Count(data, PEII)
    ensures s.totalStudents == TotalStudents(data)
    ensures s.lowestCutoff == LowestCutoff(data) && s.highestCutoff == HighestCutoff(data)
    ensures s.oeCount + s.pe1Count + s.pe2Count == s.totalElectives
    ensures s.departments == |DepartmentSet(data)|
    ensures data == [] ==> s.lowestCutoff == PlusInfinity && s.highestCutoff == MinusInfinity
    ensures data != [] ==>
      && s.lowestCutoff.Finite? && s.highestCutoff.Finite?
      && (forall i :: 0 <= i < |data| ==> s.lowestCutoff.value <= data[i].lowestCGPA <= s.highestCutoff.value)
  {
    CountsAddUp(data);
    DepartmentsCount(data);
    Summary(
      |data|,
      Count(data, OE),
      Count(data, PEI),
      Count(data, PEII),
      LowestCutoff(data),
      HighestCutoff(data),
      TotalStudents(data),
      |Departments(data)|)
  }
}
