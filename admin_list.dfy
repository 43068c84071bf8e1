/**
 * The admin listing (frontend/src/components/List.tsx): a lower-cased search
 * query filters the fetched registrations by name, the result is cut into
 * pages of ten, and the Previous/Next buttons move between pages.
 */
module AdminList {
  import opened Common
  import opened Text
  import opened Query

  /** A registration as the listing receives it from `/api/registrations`. */
  datatype Entry = Entry(
    id: nat,
    name: string,
    designation: string,
    collegeName: Option<string>,
    phone: string,
    email: string,
    reason: string,
    photoUrl: string)

  /** `PAGE_SIZE`. */
  const PageSize: nat := 10

  /** The component state the listing logic uses: `searchQuery` and `currentPage`. */
  datatype ListState = ListState(searchQuery: string, currentPage: int)

  /** The state on mount: no query, first page. */
  function Initial(): ListState {
    ListState("", 1)
  }

  /** `handleSearch`: stores the lower-cased input and goes back to page 1. */
  function HandleSearch(input: string): (st: ListState)
    ensures st.currentPage == 1
    ensures |st.searchQuery| == |input|
    ensures forall i :: 0 <= i < |input| ==> st.searchQuery[i] == LowerChar(input[i])
    ensures forall i :: 0 <= i < |input| ==> !IsUpper(st.searchQuery[i])
  {
    ListState(ToLower(input), 1)
  }

  /** Typing a query in any case shows the same entries as typing it in lower case. */
  lemma SearchCaseIrrelevant(entries: seq<Entry>, input: string)
    ensures Filtered(entries, HandleSearch(input).searchQuery)
         == Filtered(entries, HandleSearch(ToLower(input)).searchQuery)
  {
    ToLowerIdempotent(input);
  }

  /** `filteredRegistrations`: the entries whose lower-cased name contains the query, in order. */
  function Filtered(entries: seq<Entry>, query: string): (r: seq<Entry>)
    ensures forall i :: 0 <= i < |r| ==> r[i] in entries && Contains(ToLower(r[i].name), query)
    ensures forall i :: 0 <= i < |entries| && Contains(ToLower(entries[i].name), query) ==> entries[i] in r
    ensures query == "" ==> r == entries
    ensures multiset(r) <= multiset(entries)
  {
    var keep := (e: Entry) => Contains(ToLower(e.name), query);
    if query == "" then
      forall i | 0 <= i < |entries| ensures keep(entries[i]) { ContainsEmpty(ToLower(entries[i].name)); }
      FilterKeepsAll(entries, keep);
      Filter(entries, keep)
    else
      Filter(entries, keep)
  }

  /** How `Array.prototype.slice` reads one bound: negative counts from the end, then clamp to the length. */
  function SliceBound(k: int, len: nat): (b: nat)
    ensures b <= len
    ensures 0 <= k ==> b == Min(k, len)
    ensures k < 0 ==> b == Max(len + k, 0)
  {
    if k < 0 then (if len + k < 0 then 0 else len + k)
    else if k > len then len
    else k
  }

  /** `s.slice(start, end)`: the contiguous run between the two bounds, empty when they cross. */
  function Slice<T>(s: seq<T>, start: int, end: int): (r: seq<T>)
    ensures |r| == Max(SliceBound(end, |s|) - SliceBound(start, |s|), 0)
    ensures forall i :: 0 <= i < |r| ==> r[i] == s[SliceBound(start, |s|) + i]
  {
    var a := SliceBound(start, |s|);
    var b := SliceBound(end, |s|);
    if a < b then s[a..b] else []
  }

  /** `paginatedRegistrations`: `filtered.slice((page - 1) * PAGE_SIZE, page * PAGE_SIZE)`. */
  function Page<T>(filtered: seq<T>, page: int): (r: seq<T>)
    ensures |r| <= PageSize
    ensures page >= 1 ==> r == filtered[Min((page - 1) * PageSize, |filtered|)..Min(page * PageSize, |filtered|)]
    ensures page >= 1 ==> forall i :: 0 <= i < |r| ==> r[i] == filtered[(page - 1) * PageSize + i]
    ensures page == 0 ==> r == []
  {
    Slice(filtered, (page - 1) * PageSize, page * PageSize)
  }

  /** `totalPages`: `Math.ceil(n / PAGE_SIZE)`, the fewest pages of ten that hold `n` entries. */
  function TotalPages(n: nat): (t: nat)
    ensures t * PageSize >= n
    ensures t > 0 ==> (t - 1) * PageSize < n
    ensures t == 0 <==> n == 0
  {
    (n + PageSize - 1) / PageSize
  }

  /** The Previous button's update: `Math.max(prev - 1, 1)`. */
  function Previous(page: int): (p: int)
    ensures p >= 1
    ensures page > 1 ==> p == page - 1
    ensures page <= 1 ==> p == 1
  {
    Max(page - 1, 1)
  }

  /** The Next button's update: `Math.min(prev + 1, totalPages)`. */
  function Next(page: int, totalPages: nat): (p: int)
    ensures p <= totalPages
    ensures page < totalPages ==> p == page + 1
    ensures page >= totalPages ==> p == totalPages
  {
    Min(page + 1, totalPages)
  }

  /** A disabled button is one whose update would change nothing. */
  lemma DisabledMeansNoChange(page: int, totalPages: nat)
    ensures (page == 1) <==> Previous(page) == page
    ensures (page == totalPages) <==> Next(page, totalPages) == page
  {
  }

  /** The user actions that change the listing state. */
  datatype Action = Search(input: string) | ClickPrevious | ClickNext

  /** One action against the fetched entries; a disabled button does nothing. */
  function Step(entries: seq<Entry>, st: ListState, a: Action): (next: ListState)
    ensures a.Search? ==> next == HandleSearch(a.input)
    ensures !a.Search? ==> next.searchQuery == st.searchQuery
    ensures a == ClickPrevious ==> next.currentPage == Previous(st.currentPage)
    ensures a == ClickNext ==>
      next.currentPage == Next(st.currentPage, TotalPages(|Filtered(entries, st.searchQuery)|))
  {
    var total := TotalPages(|Filtered(entries, st.searchQuery)|);
    match a
    case Search(input) => HandleSearch(input)
    case ClickPrevious =>
      if st.currentPage == 1 then st else st.(currentPage := Previous(st.currentPage))
    case ClickNext =>
      if st.currentPage == total then st else st.(currentPage := Next(st.currentPage, total))
  }

  /**
   * The page index is in range: between 1 and the number of pages when some
   * entry matches; 0 or 1 when none does (Next then sets 0 = totalPages).
   */
  predicate PageInRange(page: int, totalPages: nat) {
    if totalPages == 0 then 0 <= page <= 1 else 1 <= page <= totalPages
  }

  predicate InRange(entries: seq<Entry>, st: ListState) {
    PageInRange(st.currentPage, TotalPages(|Filtered(entries, st.searchQuery)|))
  }

  /** The listing starts in range and every action keeps it there. */
  lemma InitialInRange(entries: seq<Entry>)
    ensures InRange(entries, Initial())
  {
  }

  lemma StepKeepsInRange(entries: seq<Entry>, st: ListState, a: Action)
    requires InRange(entries, st)
    ensures InRange(entries, Step(entries, st, a))
  {
  }

  /** On an in-range page of a non-empty result the page shown is non-empty. */
  lemma InRangePageNonEmpty<T>(filtered: seq<T>, page: int)
    requires filtered != [] && PageInRange(page, TotalPages(|filtered|))
    ensures Page(filtered, page) != []
  {
  }

  /** Pages 1..k laid end to end. */
  function PagesUpTo<T>(filtered: seq<T>, k: nat): seq<T> {
    if k == 0 then [] else PagesUpTo(filtered, k - 1) + Page(filtered, k)
  }

  /** The first k pages are the first k * PAGE_SIZE entries. */
  lemma {:induction false} PagesUpToIsPrefix<T>(filtered: seq<T>, k: nat)
    ensures PagesUpTo(filtered, k) == filtered[..Min(k * PageSize, |filtered|)]
  {
    if k > 0 {
      PagesUpToIsPrefix(filtered, k - 1);
      var a := Min((k - 1) * PageSize, |filtered|);
      var b := Min(k * PageSize, |filtered|);
      assert filtered[..a] + filtered[a..b] == filtered[..b];
    }
  }

  /** Pages 1..totalPages partition the filtered list: together they give it back exactly. */
  lemma PagesCoverFiltered<T>(filtered: seq<T>)
    ensures PagesUpTo(filtered, TotalPages(|filtered|)) == filtered
  {
    PagesUpToIsPrefix(filtered, TotalPages(|filtered|));
    assert filtered[..|filtered|] == filtered;
  }
}
