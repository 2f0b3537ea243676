/** The correspondence list state of src/lib/state.svelte.ts: the search filter and
    sort behind the visible list, the selected correspondence, and keyboard navigation
    through the list. */
module State {
  import opened Text
  import opened Types
  import opened Sorting

  datatype Direction = Up | Down

  /** `'source' | 'target'`: which code the list is ordered by. */
  datatype SortBy = BySource | ByTarget

  // ---------------------------------------------------------------------------
  // Filtering and ordering

  /** `searchQuery.trim().toLowerCase()`, computed lower-case first; `QueryTrimsFirst`
      shows the order does not matter. */
  function Query(searchQuery: string): string {
    Trim(ToLower(searchQuery))
  }

  lemma {:induction false} TrimStartLower(s: string)
    ensures TrimStart(ToLower(s)) == ToLower(TrimStart(s))
    decreases |s|
  {
    if s != [] {
      assert ToLower(s)[1..] == ToLower(s[1..]);
      TrimStartLower(s[1..]);
    }
  }

  lemma {:induction false} TrimEndLower(s: string)
    ensures TrimEnd(ToLower(s)) == ToLower(TrimEnd(s))
    decreases |s|
  {
    if s != [] {
      assert ToLower(s)[..|s| - 1] == ToLower(s[..|s| - 1]);
      TrimEndLower(s[..|s| - 1]);
    }
  }

  /** Lower-casing keeps white space, so trimming before or after it is the same. */
  lemma QueryTrimsFirst(searchQuery: string)
    ensures Query(searchQuery) == ToLower(Trim(searchQuery))
  {
    TrimStartLower(searchQuery);
    TrimEndLower(TrimStart(searchQuery));
  }

  /** The source or the target code, lower-cased, contains the query. */
  predicate MatchesQuery(c: Correspondence, q: string) {
    Contains(ToLower(c.sourceCode), q) || Contains(ToLower(c.targetCode), q)
  }

  /** `items.filter(...)`: the correspondences that match, in their order. */
  function KeepMatching(items: seq<Correspondence>, q: string): seq<Correspondence> {
    if items == [] then []
    else
      var last := items[|items| - 1];
      KeepMatching(items[..|items| - 1], q) + (if MatchesQuery(last, q) then [last] else [])
  }

  /** The filter step: everything for an empty query, else the matching items. */
  function FilterByQuery(items: seq<Correspondence>, q: string): seq<Correspondence> {
    if q == [] then items else KeepMatching(items, q)
  }

  /** Each correspondence that matches is kept as often as it occurs, the others never. */
  lemma {:induction false} KeepMatchingCount(items: seq<Correspondence>, q: string, c: Correspondence)
    ensures multiset(KeepMatching(items, q))[c] == if MatchesQuery(c, q) then multiset(items)[c] else 0
    decreases |items|
  {
    if items != [] {
      var init, last := items[..|items| - 1], items[|items| - 1];
      KeepMatchingCount(init, q, c);
      assert items == init + [last];
    }
  }

  /** The order of the list: `naturalCompare` on the chosen code. */
  function ByCode(sortBy: SortBy, naturalCompare: (string, string) -> int): (Correspondence, Correspondence) -> int {
    (a: Correspondence, b: Correspondence) =>
      if sortBy == BySource then naturalCompare(a.sourceCode, b.sourceCode)
      else naturalCompare(a.targetCode, b.targetCode)
  }

  /** `filteredCorrespondences`: the filtered items, sorted by the chosen code. */
  function Listed(items: seq<Correspondence>, searchQuery: string, sortBy: SortBy,
                  naturalCompare: (string, string) -> int): seq<Correspondence>
  {
    Sort(FilterByQuery(items, Query(searchQuery)), ByCode(sortBy, naturalCompare))
  }

  /** The search ignores case: two queries that agree letter by letter up to case list
      the same correspondences in the same order. */
  lemma ListedIgnoresCase(items: seq<Correspondence>, s: string, t: string, sortBy: SortBy,
                          naturalCompare: (string, string) -> int)
    requires |s| == |t| && forall i :: 0 <= i < |s| ==> LowerChar(s[i]) == LowerChar(t[i])
    ensures Listed(items, s, sortBy, naturalCompare) == Listed(items, t, sortBy, naturalCompare)
  {
    assert ToLower(s) == ToLower(t);
  }

  /** The list holds exactly the matching correspondences, each as often as in the data;
      a blank query lists everything. */
  lemma ListedContents(items: seq<Correspondence>, searchQuery: string, sortBy: SortBy,
                       naturalCompare: (string, string) -> int, c: Correspondence)
    ensures var q := Query(searchQuery);
      multiset(Listed(items, searchQuery, sortBy, naturalCompare))[c]
        == if q == [] || MatchesQuery(c, q) then multiset(items)[c] else 0
    ensures AllSpace(searchQuery) ==>
      multiset(Listed(items, searchQuery, sortBy, naturalCompare)) == multiset(items)
  {
    var q := Query(searchQuery);
    SortPermutes(FilterByQuery(items, q), ByCode(sortBy, naturalCompare));
    if q != [] {
      KeepMatchingCount(items, q, c);
    }
    TrimBlank(searchQuery);
  }

  /** Ordering by a code is consistent when `naturalCompare` is. */
  lemma ByCodeConsistent(sortBy: SortBy, naturalCompare: (string, string) -> int)
    requires IsComparator(naturalCompare)
    ensures IsComparator(ByCode(sortBy, naturalCompare))
  {
    var cmp := ByCode(sortBy, naturalCompare);
    forall x, y ensures cmp(x, y) > 0 <==> cmp(y, x) < 0 {
      if sortBy == BySource {
        assert cmp(x, y) == naturalCompare(x.sourceCode, y.sourceCode);
        assert cmp(y, x) == naturalCompare(y.sourceCode, x.sourceCode);
      } else {
        assert cmp(x, y) == naturalCompare(x.targetCode, y.targetCode);
        assert cmp(y, x) == naturalCompare(y.targetCode, x.targetCode);
      }
    }
    forall x, y, z | cmp(x, y) <= 0 && cmp(y, z) <= 0 ensures cmp(x, z) <= 0 {
      if sortBy == BySource {
        Transitive(naturalCompare, x.sourceCode, y.sourceCode, z.sourceCode);
      } else {
        Transitive(naturalCompare, x.targetCode, y.targetCode, z.targetCode);
      }
    }
  }

  /** Under a consistent `naturalCompare` the list is ordered by the chosen code. */
  lemma ListedSorted(items: seq<Correspondence>, searchQuery: string, sortBy: SortBy,
                     naturalCompare: (string, string) -> int)
    requires IsComparator(naturalCompare)
    ensures Sorted(Listed(items, searchQuery, sortBy, naturalCompare), ByCode(sortBy, naturalCompare))
  {
    ByCodeConsistent(sortBy, naturalCompare);
    SortSorted(FilterByQuery(items, Query(searchQuery)), ByCode(sortBy, naturalCompare));
  }

  // ---------------------------------------------------------------------------
  // Lookup

  /** `items.findIndex(c => c.id === id)`: the first index holding `id`, or -1. */
  function FindIndex(items: seq<Correspondence>, id: string): (r: int)
    ensures -1 <= r < |items|
    ensures r == -1 <==> forall k :: 0 <= k < |items| ==> items[k].id != id
    ensures r >= 0 ==> items[r].id == id && forall k :: 0 <= k < r ==> items[k].id != id
  {
    if items == [] then -1
    else if items[0].id == id then 0
    else
      var r := FindIndex(items[1..], id);
      assert forall k :: 1 <= k < |items| ==> items[k] == items[1..][k - 1];
      if r == -1 then -1 else r + 1
  }

  /** `find(...) || null`: the first correspondence with `id`, if any. */
  function Find(items: seq<Correspondence>, id: string): (r: Option<Correspondence>)
    ensures r.None? <==> forall k :: 0 <= k < |items| ==> items[k].id != id
    ensures r.Some? ==> r.value.id == id
    ensures r.Some? ==> exists k :: 0 <= k < |items| && items[k] == r.value && (forall l :: 0 <= l < k ==> items[l].id != id)
  {
    var k := FindIndex(items, id);
    if k == -1 then None else Some(items[k])
  }

  /** `selectedCorrespondence`: nothing without a selection (`null` or `''`), else the
      first correspondence of the whole data with the selected id. */
  function SelectedOf(items: seq<Correspondence>, selectedId: Option<string>): (r: Option<Correspondence>)
    ensures (selectedId.None? || selectedId.value == []) ==> r.None?
    ensures selectedId.Some? && selectedId.value != [] ==> r == Find(items, selectedId.value)
  {
    if selectedId.None? || selectedId.value == [] then None else Find(items, selectedId.value)
  }

  // ---------------------------------------------------------------------------
  // Navigation

  /** The index one step up (not above the first) or down (not below the last). */
  function NeighbourIndex(idx: nat, len: nat, direction: Direction): (r: nat)
    requires idx < len
    ensures r < len
    ensures direction == Up ==> r == if idx == 0 then 0 else idx - 1
    ensures direction == Down ==> r == if idx == len - 1 then idx else idx + 1
  {
    match direction
    case Up => if idx - 1 > 0 then idx - 1 else 0
    case Down => if len - 1 < idx + 1 then len - 1 else idx + 1
  }

  /** The selection after one navigation step through `items`. */
  function Navigate(items: seq<Correspondence>, selectedId: Option<string>, direction: Direction): Option<string> {
    if items == [] then selectedId
    else if selectedId.None? || selectedId.value == [] then Some(items[0].id)
    else
      var idx := FindIndex(items, selectedId.value);
      if idx == -1 then Some(items[0].id)
      else Some(items[NeighbourIndex(idx, |items|, direction)].id)
  }

  /** What a step does: nothing on an empty list; the first item without a selection or
      when the selection is not listed; else the neighbour of the selected item. */
  lemma NavigateCases(items: seq<Correspondence>, selectedId: Option<string>, direction: Direction)
    ensures items == [] ==> Navigate(items, selectedId, direction) == selectedId
    ensures items != [] && (selectedId.None? || selectedId.value == []) ==>
      Navigate(items, selectedId, direction) == Some(items[0].id)
    ensures items != [] && selectedId.Some? && (forall k :: 0 <= k < |items| ==> items[k].id != selectedId.value) ==>
      Navigate(items, selectedId, direction) == Some(items[0].id)
    ensures forall k :: (0 <= k < |items| && selectedId == Some(items[k].id) && items[k].id != []
      && (forall l :: 0 <= l < k ==> items[l].id != items[k].id)) ==>
        Navigate(items, selectedId, direction) == Some(items[NeighbourIndex(k, |items|, direction)].id)
  {
    forall k | 0 <= k < |items| && selectedId == Some(items[k].id) && items[k].id != []
      && (forall l :: 0 <= l < k ==> items[l].id != items[k].id)
      ensures Navigate(items, selectedId, direction) == Some(items[NeighbourIndex(k, |items|, direction)].id)
    {
      assert FindIndex(items, items[k].id) == k;
    }
  }

  /** On a non-empty list a step always selects the id of a listed item. */
  lemma NavigateSelectsListed(items: seq<Correspondence>, selectedId: Option<string>, direction: Direction)
    requires items != []
    ensures Navigate(items, selectedId, direction).Some?
    ensures exists k :: 0 <= k < |items| && Navigate(items, selectedId, direction) == Some(items[k].id)
  {
    if selectedId.None? || selectedId.value == [] {
      assert Navigate(items, selectedId, direction) == Some(items[0].id);
    } else {
      var idx := FindIndex(items, selectedId.value);
      if idx == -1 {
        assert Navigate(items, selectedId, direction) == Some(items[0].id);
      } else {
        var n := NeighbourIndex(idx, |items|, direction);
        assert Navigate(items, selectedId, direction) == Some(items[n].id);
      }
    }
  }

  /** With distinct, non-empty ids, a step down from any item but the last followed by a
      step up comes back to it. */
  lemma NavigateDownUp(items: seq<Correspondence>, k: nat)
    requires k + 1 < |items|
    requires forall i :: 0 <= i < |items| ==> items[i].id != []
    requires forall i, j :: 0 <= i < j < |items| ==> items[i].id != items[j].id
    ensures Navigate(items, Navigate(items, Some(items[k].id), Down), Up) == Some(items[k].id)
  {
    assert FindIndex(items, items[k].id) == k;
    assert Navigate(items, Some(items[k].id), Down) == Some(items[k + 1].id);
    assert FindIndex(items, items[k + 1].id) == k + 1;
  }

  // ---------------------------------------------------------------------------
  // The state object

  class AppState {
    /** `data.correspondences` */
    const correspondences: seq<Correspondence>
    /** `localeCompare` with numeric collation, which is not modelled. */
    const naturalCompare: (string, string) -> int
    var selectedId: Option<string>
    var searchQuery: string
    var sortBy: SortBy

    constructor(correspondences: seq<Correspondence>, naturalCompare: (string, string) -> int)
      ensures this.correspondences == correspondences && this.naturalCompare == naturalCompare
      ensures selectedId.None? && searchQuery == [] && sortBy == BySource
    {
      this.correspondences := correspondences;
      this.naturalCompare := naturalCompare;
      selectedId := None;
      searchQuery := [];
      sortBy := BySource;
    }

    /** `filteredCorrespondences` */
    function FilteredCorrespondences(): seq<Correspondence>
      reads `searchQuery, `sortBy
    {
      Listed(correspondences, searchQuery, sortBy, naturalCompare)
    }

    /** `selectedCorrespondence` */
    function SelectedCorrespondence(): (r: Option<Correspondence>)
      reads `selectedId
      ensures (selectedId.None? || selectedId.value == []) ==> r.None?
      ensures r.Some? ==> r.value in correspondences && Some(r.value.id) == selectedId
      ensures selectedId.Some? && selectedId.value != [] && r.None? ==>
        forall c :: c in correspondences ==> c.id != selectedId.value
    {
      SelectedOf(correspondences, selectedId)
    }

    /** `navigateList`: moves the selection one step through the visible list. */
    method NavigateList(direction: Direction)
      modifies `selectedId
      ensures selectedId == Navigate(FilteredCorrespondences(), old(selectedId), direction)
    {
      var items := FilteredCorrespondences();
      ghost var next := Navigate(items, selectedId, direction);
      if |items| == 0 {
        return;
      }
      if selectedId.None? || selectedId.value == [] {
        selectedId := Some(items[0].id);
        assert FilteredCorrespondences() == items;
        return;
      }
      var idx := FindIndex(items, selectedId.value);
      if idx == -1 {
        selectedId := Some(items[0].id);
        assert FilteredCorrespondences() == items;
        return;
      }
      var newIdx := if direction == Up then (if 0 > idx - 1 then 0 else idx - 1)
        else (if |items| - 1 < idx + 1 then |items| - 1 else idx + 1);
      assert newIdx == NeighbourIndex(idx, |items|, direction);
      assert next == Some(items[newIdx].id);
      selectedId := Some(items[newIdx].id);
      assert FilteredCorrespondences() == items;
    }
  }
}
