/**
 * The state of the `ElectiveDashboard` page and of its `CommandSearch`
 * palette, and the handlers that change it. React's state hooks become
 * fields; each handler, together with the effects it triggers, becomes one
 * method; the memoised filtered list is a field every method recomputes.
 */
module Dashboard {
  import opened Text
  import opened Seqs
  import opened Sorting
  import opened Electives
  import opened Query
  import opened Wrappers

  /** The palette shows at most this many results. */
  const MaxResults := 8

  /** The palette's search: a record matches when the lower-cased query occurs
      in its lower-cased name, code or department. */
  function Found(query: string): (found: Elective -> bool)
    ensures query == "" ==> forall e :: found(e)
  {
    (e: Elective) => SearchMatches(query, e)
  }

  /** `results` of the palette: the first eight matching records in data
      order, or the first eight records when the query is empty. */
  function QuickSearchResults(data: seq<Elective>, query: string): (r: seq<Elective>)
    ensures |r| == if |Keep(data, Found(query))| < MaxResults then |Keep(data, Found(query))| else MaxResults
    ensures forall i :: 0 <= i < |r| ==> r[i] == Keep(data, Found(query))[i]
  {
    if |query| > 0 then
      KeepSame(data, Mentions(ToLower(query)), Found(query));
      Prefix(Keep(data, Mentions(ToLower(query))), MaxResults)
    else
      KeepEverything(data, Found(query));
      Prefix(data, MaxResults)
  }

  /** Every result is a record of the data that matches the query. */
  lemma QuickResultsMatch(data: seq<Elective>, query: string, i: int)
    requires 0 <= i < |QuickSearchResults(data, query)|
    ensures QuickSearchResults(data, query)[i] in data
    ensures SearchMatches(query, QuickSearchResults(data, query)[i])
  {
    KeepMembers(data, Found(query), QuickSearchResults(data, query)[i]);
  }

  /** A record the palette finds is also on the grid when the grid is
      searched for the same text with no type or department filter. */
  lemma QuickResultsInGrid(data: seq<Elective>, query: string, key: SortKey, order: SortOrder, i: int)
    requires 0 <= i < |QuickSearchResults(data, query)|
    ensures QuickSearchResults(data, query)[i] in FilterSpec(data, "all", "all", query, key, order)
  {
    QuickResultsMatch(data, query, i);
    FilterMembers(data, "all", "all", query, key, order, QuickSearchResults(data, query)[i]);
  }

  /** With no search and no type or department filter every record of the
      data is on the grid. */
  lemma ClearedFiltersShow(data: seq<Elective>, t: string, d: string, q: string, key: SortKey, order: SortOrder, e: Elective)
    requires e in data
    requires (t == "" || t == "all") && (d == "" || d == "all") && q == ""
    ensures e in FilterSpec(data, t, d, q, key, order)
  {
    FilterMembers(data, t, d, q, key, order, e);
  }

  /** With no search and no type or department filter the grid shows every
      record, each as often as it occurs in the data. */
  lemma ClearedFiltersShowAll(data: seq<Elective>, t: string, d: string, q: string, key: SortKey, order: SortOrder)
    requires (t == "" || t == "all") && (d == "" || d == "all") && q == ""
    ensures multiset(FilterSpec(data, t, d, q, key, order)) == multiset(data)
  {
    forall e
      ensures multiset(FilterSpec(data, t, d, q, key, order))[e] == multiset(data)[e]
    {
      FilterPermutation(data, t, d, q, key, order, e);
    }
  }

  /** The `id` of the card the grid renders for a record, which is also
      what a selection highlights. */
  function CardId(e: Elective): (id: string)
    ensures |id| == 10 + |e.code| + |TypeName(e.etype)|
  {
    "elective-" + e.code + "-" + TypeName(e.etype)
  }

  /** Records with codes of the table's shape share a card `id` exactly when
      they share code and type, so a highlight names one card. */
  lemma CardIdInjective(a: Elective, b: Elective)
    requires CourseCode(a.code) && CourseCode(b.code)
    ensures CardId(a) == CardId(b) <==> a.code == b.code && a.etype == b.etype
  {
    if CardId(a) == CardId(b) {
      assert |TypeName(a.etype)| == |TypeName(b.etype)|;
      assert a.etype == b.etype;
      assert CardId(a)[9..17] == a.code;
      assert CardId(b)[9..17] == b.code;
    }
  }

  /** `prev => Math.min(prev + 1, results.length - 1)`: one down, but not
      past the last result; -1 when there are none. */
  function NextIndex(i: int, n: nat): (r: int)
    requires -1 <= i
    ensures n > 0 ==> 0 <= r < n
    ensures n == 0 ==> r == -1
    ensures i + 1 < n ==> r == i + 1
    ensures n > 0 && i + 1 >= n ==> r == n - 1
  {
    if i + 1 < n - 1 then i + 1 else n - 1
  }

  /** `prev => Math.max(prev - 1, 0)`: one up, but not past the first result. */
  function PrevIndex(i: int): (r: int)
    ensures 0 <= r
    ensures 0 < i ==> r == i - 1
    ensures i <= 1 ==> r == 0
  {
    if i - 1 > 0 then i - 1 else 0
  }

  /** `toggleSort(newSortBy)`: the same column flips the direction, another
      column is sorted ascending. */
  function ToggledSort(sortBy: SortKey, sortOrder: SortOrder, newSortBy: SortKey): (r: (SortKey, SortOrder))
    ensures r.0 == newSortBy
    ensures newSortBy != sortBy ==> r.1 == Asc
    ensures newSortBy == sortBy ==> r.1 != sortOrder
  {
    if sortBy == newSortBy then (sortBy, if sortOrder == Asc then Desc else Asc)
    else (newSortBy, Asc)
  }

  /** Clicking the same column twice gives back the order it had. */
  lemma ToggleSortTwice(sortBy: SortKey, sortOrder: SortOrder, newSortBy: SortKey)
    ensures var (k, o) := ToggledSort(sortBy, sortOrder, newSortBy);
      ToggledSort(k, o, newSortBy) == (newSortBy, if newSortBy == sortBy then sortOrder else Desc)
  {
  }

  class Dashboard {
    /** `electiveData`, which the page never changes. */
    const data: seq<Elective>

    var search: string
    var typeFilter: string
    var deptFilter: string
    var sortBy: SortKey
    var sortOrder: SortOrder
    var commandOpen: bool
    var highlighted: Option<string>

    /** The palette's own state; it keeps it while closed, since the
        component stays mounted and only renders nothing. */
    var query: string
    var selectedIndex: int

    /** The memoised `filterElectives(...)` the grid renders. */
    var filteredElectives: seq<Elective>

    /** The grid always shows the filter of the current settings, the sort
        key is one of the three columns, and the palette's index is -1, 0 or
        the index of a result. */
    predicate Valid()
      reads this
    {
      GridValid() && PaletteValid()
    }

    predicate GridValid()
      reads this`search, this`typeFilter, this`deptFilter, this`sortBy, this`sortOrder, this`filteredElectives
    {
      && sortBy != ByDifficulty
      && filteredElectives == FilterSpec(data, typeFilter, deptFilter, search, sortBy, sortOrder)
    }

    predicate PaletteValid()
      reads this`query, this`selectedIndex
    {
      -1 <= selectedIndex && (selectedIndex <= 0 || selectedIndex < |Results()|)
    }

    /** The palette's `results` for the current query. */
    function Results(): seq<Elective>
      reads this`query
    {
      QuickSearchResults(data, query)
    }

    /** The initial state: no search, every type and department, sorted by
        cutoff ascending, the palette closed, nothing highlighted. */
    constructor (data: seq<Elective>)
      ensures Valid()
      ensures this.data == data
      ensures search == "" && typeFilter == "all" && deptFilter == "all"
      ensures sortBy == ByCutoff && sortOrder == Asc
      ensures !commandOpen && highlighted == None
      ensures query == "" && selectedIndex == 0
      ensures multiset(filteredElectives) == multiset(data)
    {
      this.data := data;
      search := "";
      typeFilter := "all";
      deptFilter := "all";
      sortBy := ByCutoff;
      sortOrder := Asc;
      commandOpen := false;
      highlighted := None;
      query := "";
      selectedIndex := 0;
      new;
      filteredElectives := FilterElectives(data, "all", "all", "", ByCutoff, Asc);
      ClearedFiltersShowAll(data, typeFilter, deptFilter, search, sortBy, sortOrder);
    }

    /** The `useMemo` over the filter settings. */
    method Refilter()
      modifies this
      ensures filteredElectives == FilterSpec(data, typeFilter, deptFilter, search, sortBy, sortOrder)
      ensures search == old(search) && typeFilter == old(typeFilter) && deptFilter == old(deptFilter)
      ensures sortBy == old(sortBy) && sortOrder == old(sortOrder)
      ensures commandOpen == old(commandOpen) && highlighted == old(highlighted)
      ensures query == old(query) && selectedIndex == old(selectedIndex)
    {
      filteredElectives := FilterElectives(data, typeFilter, deptFilter, search, sortBy, sortOrder);
    }

    /** Typing in the search box of the page. */
    method SetSearch(s: string)
      requires Valid()
      modifies this
      ensures Valid()
      ensures search == s
      ensures typeFilter == old(typeFilter) && deptFilter == old(deptFilter)
      ensures sortBy == old(sortBy) && sortOrder == old(sortOrder)
      ensures commandOpen == old(commandOpen) && highlighted == old(highlighted)
      ensures query == old(query) && selectedIndex == old(selectedIndex)
    {
      search := s;
      Refilter();
    }

    /** Choosing in the type select. */
    method SetTypeFilter(t: string)
      requires Valid()
      modifies this
      ensures Valid()
      ensures typeFilter == t
      ensures search == old(search) && deptFilter == old(deptFilter)
      ensures sortBy == old(sortBy) && sortOrder == old(sortOrder)
      ensures commandOpen == old(commandOpen) && highlighted == old(highlighted)
      ensures query == old(query) && selectedIndex == old(selectedIndex)
    {
      typeFilter := t;
      Refilter();
    }

    /** Choosing in the department select. */
    method SetDeptFilter(d: string)
      requires Valid()
      modifies this
      ensures Valid()
      ensures deptFilter == d
      ensures search == old(search) && typeFilter == old(typeFilter)
      ensures sortBy == old(sortBy) && sortOrder == old(sortOrder)
      ensures commandOpen == old(commandOpen) && highlighted == old(highlighted)
      ensures query == old(query) && selectedIndex == old(selectedIndex)
    {
      deptFilter := d;
      Refilter();
    }

    /** A click on one of the three sort buttons. */
    method ToggleSort(newSortBy: SortKey)
      requires Valid() && newSortBy != ByDifficulty
      modifies this
      ensures Valid()
      ensures (sortBy, sortOrder) == ToggledSort(old(sortBy), old(sortOrder), newSortBy)
      ensures search == old(search) && typeFilter == old(typeFilter) && deptFilter == old(deptFilter)
      ensures commandOpen == old(commandOpen) && highlighted == old(highlighted)
      ensures query == old(query) && selectedIndex == old(selectedIndex)
    {
      if sortBy == newSortBy {
        sortOrder := if sortOrder == Asc then Desc else Asc;
      } else {
        sortBy := newSortBy;
        sortOrder := Asc;
      }
      Refilter();
    }

    /** "Clear Filters": no search, every type, every department. */
    method ClearFilters()
      requires Valid()
      modifies this
      ensures Valid()
      ensures search == "" && typeFilter == "all" && deptFilter == "all"
      ensures sortBy == old(sortBy) && sortOrder == old(sortOrder)
      ensures commandOpen == old(commandOpen) && highlighted == old(highlighted)
      ensures query == old(query) && selectedIndex == old(selectedIndex)
    {
      search := "";
      typeFilter := "all";
      deptFilter := "all";
      Refilter();
    }

    /** `handleSelectElective`: clear the filters so that the record is on
        the grid, and highlight its card. */
    method SelectElective(e: Elective)
      requires Valid()
      modifies this
      ensures Valid()
      ensures search == "" && typeFilter == "all" && deptFilter == "all"
      ensures highlighted == Some(CardId(e))
      ensures e in data ==> e in filteredElectives
      ensures sortBy == old(sortBy) && sortOrder == old(sortOrder)
      ensures commandOpen == old(commandOpen)
      ensures query == old(query) && selectedIndex == old(selectedIndex)
    {
      ClearFilters();
      highlighted := Some(CardId(e));
      if e in data {
        ClearedFiltersShow(data, typeFilter, deptFilter, search, sortBy, sortOrder, e);
      }
    }

    /** The timer that removes the highlight two seconds after the scroll. */
    method HighlightExpired()
      requires Valid()
      modifies this
      ensures Valid()
      ensures highlighted == None
      ensures search == old(search) && typeFilter == old(typeFilter) && deptFilter == old(deptFilter)
      ensures sortBy == old(sortBy) && sortOrder == old(sortOrder)
      ensures filteredElectives == old(filteredElectives) && commandOpen == old(commandOpen)
      ensures query == old(query) && selectedIndex == old(selectedIndex)
    {
      highlighted := None;
    }

    /** The palette's `isOpen` effect: an empty query and the first result. */
    method ResetPalette()
      requires Valid()
      modifies this
      ensures Valid()
      ensures query == "" && selectedIndex == 0
      ensures search == old(search) && typeFilter == old(typeFilter) && deptFilter == old(deptFilter)
      ensures sortBy == old(sortBy) && sortOrder == old(sortOrder)
      ensures filteredElectives == old(filteredElectives)
      ensures commandOpen == old(commandOpen) && highlighted == old(highlighted)
    {
      query := "";
      selectedIndex := 0;
    }

    /** Ctrl+K or Cmd+K: open the palette when closed and close it when open. */
    method ToggleCommand()
      requires Valid()
      modifies this
      ensures Valid()
      ensures commandOpen == !old(commandOpen)
      ensures commandOpen ==> query == "" && selectedIndex == 0
      ensures !commandOpen ==> query == old(query) && selectedIndex == old(selectedIndex)
      ensures search == old(search) && typeFilter == old(typeFilter) && deptFilter == old(deptFilter)
      ensures sortBy == old(sortBy) && sortOrder == old(sortOrder)
      ensures filteredElectives == old(filteredElectives) && highlighted == old(highlighted)
    {
      commandOpen := !commandOpen;
      if commandOpen {
        ResetPalette();
      }
    }

    /** The "Search..." button: open the palette; a palette already open
        stays as it is. */
    method OpenCommand()
      requires Valid()
      modifies this
      ensures Valid()
      ensures commandOpen
      ensures !old(commandOpen) ==> query == "" && selectedIndex == 0
      ensures old(commandOpen) ==> query == old(query) && selectedIndex == old(selectedIndex)
      ensures search == old(search) && typeFilter == old(typeFilter) && deptFilter == old(deptFilter)
      ensures sortBy == old(sortBy) && sortOrder == old(sortOrder)
      ensures filteredElectives == old(filteredElectives) && highlighted == old(highlighted)
    {
      if !commandOpen {
        commandOpen := true;
        ResetPalette();
      }
    }

    /** `onClose`: Escape, the backdrop or the close button. */
    method CloseCommand()
      requires Valid()
      modifies this
      ensures Valid()
      ensures !commandOpen
      ensures search == old(search) && typeFilter == old(typeFilter) && deptFilter == old(deptFilter)
      ensures sortBy == old(sortBy) && sortOrder == old(sortOrder)
      ensures filteredElectives == old(filteredElectives) && highlighted == old(highlighted)
      ensures query == old(query) && selectedIndex == old(selectedIndex)
    {
      commandOpen := false;
    }

    /** Typing in the palette; the `query` effect goes back to the first
        result whenever the text changes. */
    method SetQuery(q: string)
      requires Valid()
      modifies this
      ensures Valid()
      ensures query == q
      ensures selectedIndex == if q == old(query) then old(selectedIndex) else 0
      ensures search == old(search) && typeFilter == old(typeFilter) && deptFilter == old(deptFilter)
      ensures sortBy == old(sortBy) && sortOrder == old(sortOrder)
      ensures filteredElectives == old(filteredElectives)
      ensures commandOpen == old(commandOpen) && highlighted == old(highlighted)
    {
      if q != query {
        query := q;
        selectedIndex := 0;
      }
    }

    /** ArrowDown in the palette. */
    method ArrowDown()
      requires Valid()
      modifies this
      ensures Valid()
      ensures selectedIndex == NextIndex(old(selectedIndex), |Results()|)
      ensures |Results()| > 0 ==> 0 <= selectedIndex < |Results()|
      ensures search == old(search) && typeFilter == old(typeFilter) && deptFilter == old(deptFilter)
      ensures sortBy == old(sortBy) && sortOrder == old(sortOrder)
      ensures filteredElectives == old(filteredElectives)
      ensures commandOpen == old(commandOpen) && highlighted == old(highlighted)
      ensures query == old(query)
    {
      selectedIndex := NextIndex(selectedIndex, |Results()|);
    }

    /** ArrowUp in the palette. */
    method ArrowUp()
      requires Valid()
      modifies this
      ensures Valid()
      ensures selectedIndex == PrevIndex(old(selectedIndex))
      ensures search == old(search) && typeFilter == old(typeFilter) && deptFilter == old(deptFilter)
      ensures sortBy == old(sortBy) && sortOrder == old(sortOrder)
      ensures filteredElectives == old(filteredElectives)
      ensures commandOpen == old(commandOpen) && highlighted == old(highlighted)
      ensures query == old(query)
    {
      selectedIndex := PrevIndex(selectedIndex);
    }

    /** Enter in the palette: when the index names a result, select that
        record and close the palette; otherwise nothing happens. */
    method Enter()
      requires Valid()
      modifies this
      ensures Valid()
      ensures old(0 <= selectedIndex < |Results()|) ==>
        && !commandOpen
        && search == "" && typeFilter == "all" && deptFilter == "all"
        && highlighted == Some(CardId(old(Results()[selectedIndex])))
        && old(Results()[selectedIndex]) in filteredElectives
      ensures !old(0 <= selectedIndex < |Results()|) ==>
        && search == old(search) && typeFilter == old(typeFilter) && deptFilter == old(deptFilter)
        && filteredElectives == old(filteredElectives)
        && commandOpen == old(commandOpen) && highlighted == old(highlighted)
      ensures sortBy == old(sortBy) && sortOrder == old(sortOrder)
      ensures query == old(query) && selectedIndex == old(selectedIndex)
    {
      var results := Results();
      if 0 <= selectedIndex < |results| {
        QuickResultsMatch(data, query, selectedIndex);
        var e := results[selectedIndex];
        SelectElective(e);
        CloseCommand();
      }
    }

    /** A click on the result at position `i`. */
    method ClickResult(i: int)
      requires Valid() && commandOpen && 0 <= i < |Results()|
      modifies this
      ensures Valid()
      ensures !commandOpen
      ensures search == "" && typeFilter == "all" && deptFilter == "all"
      ensures highlighted == Some(CardId(old(Results()[i])))
      ensures old(Results()[i]) in filteredElectives
      ensures sortBy == old(sortBy) && sortOrder == old(sortOrder)
      ensures query == old(query) && selectedIndex == old(selectedIndex)
    {
      QuickResultsMatch(data, query, i);
      var e := Results()[i];
      SelectElective(e);
      CloseCommand();
    }
  }
}
