/** The vocabulary browser (`src/app/vocab/page.jsx`): a search box, a topic
    and a level filter over the whole catalog, and twelve words per page. */
module Vocab {
  import opened Js
  import opened Catalog

  const ItemsPerPage: nat := 12

  /** The page's state: the three filters and the current page number. */
  datatype View = View(searchTerm: string, topic: string, level: string, page: int)

  /** The initial state, also what "clear filters" restores. */
  function Initial(): View {
    View("", "all", "ALL", 1)
  }

  /** The search matches the Chinese text, the Vietnamese meaning or the
      pinyin, case-insensitively. */
  predicate MatchesSearch(w: Word, term: string) {
    var t := Lower(term);
    Contains(Lower(w.chinese), t) || Contains(Lower(w.vietnamese), t) || Contains(Lower(w.pinyin), t)
  }

  /** A word passes when the search, the topic ("all" for any) and the level
      ("ALL" for any) all accept it. */
  predicate Keeps(w: Word, term: string, topic: string, level: string) {
    && MatchesSearch(w, term)
    && (topic == "all" || w.topic == topic)
    && (level == "ALL" || w.hskLevel == level)
  }

  function Matches(term: string, topic: string, level: string): Word -> bool {
    (w: Word) => Keeps(w, term, topic, level)
  }

  /** `filteredVocabulary`: exactly the catalog words the filters keep, in
      catalog order. */
  function FilteredVocabulary(v: Vocabulary, view: View): (r: seq<Word>)
    ensures forall i :: 0 <= i < |r| ==> r[i] in All(v) && Keeps(r[i], view.searchTerm, view.topic, view.level)
    ensures forall i :: 0 <= i < |All(v)| && Keeps(All(v)[i], view.searchTerm, view.topic, view.level) ==>
              All(v)[i] in r
  {
    Filter(All(v), Matches(view.searchTerm, view.topic, view.level))
  }

  /** The filtered list is the catalog with words left out, never reordered. */
  lemma FilteredIsSubsequence(v: Vocabulary, view: View)
    ensures IsSubsequence(FilteredVocabulary(v, view), All(v))
  {
    FilterSubsequence(All(v), Matches(view.searchTerm, view.topic, view.level));
  }

  /** With an empty search, any topic and any level, nothing is filtered out. */
  lemma UnfilteredKeepsCatalog(v: Vocabulary, view: View)
    requires view.searchTerm == "" && view.topic == "all" && view.level == "ALL"
    ensures FilteredVocabulary(v, view) == All(v)
  {
    forall w | w in All(v)
      ensures Matches(view.searchTerm, view.topic, view.level)(w)
    {
      EmptyContained(Lower(w.chinese));
    }
    FilterAll(All(v), Matches(view.searchTerm, view.topic, view.level));
  }

  /** `Math.ceil(n / 12)`: the fewest pages that hold `n` words. */
  function TotalPages(n: nat): (r: nat)
    ensures r * ItemsPerPage >= n
    ensures r == 0 || (r - 1) * ItemsPerPage < n
  {
    (n + ItemsPerPage - 1) / ItemsPerPage
  }

  /** `paginatedVocabulary`: the slice starting at `(page - 1) * 12`. */
  function PageOf<T>(list: seq<T>, page: int): (r: seq<T>)
    ensures |r| <= ItemsPerPage
  {
    Slice(list, (page - 1) * ItemsPerPage, (page - 1) * ItemsPerPage + ItemsPerPage)
  }

  /** Every page up to the last one is non-empty and holds the words at
      positions `(page - 1) * 12` onwards. */
  lemma PageInRange<T>(list: seq<T>, page: int)
    requires 1 <= page <= TotalPages(|list|)
    ensures 0 < |PageOf(list, page)|
    ensures var start := (page - 1) * ItemsPerPage;
      PageOf(list, page) == list[start..if start + ItemsPerPage <= |list| then start + ItemsPerPage else |list|]
  {
  }

  /** Pages `1 .. k` one after another. */
  function PagesUpTo<T>(list: seq<T>, k: nat): seq<T> {
    if k == 0 then [] else PagesUpTo(list, k - 1) + PageOf(list, k)
  }

  lemma {:induction false} PagesUpToPrefix<T>(list: seq<T>, k: nat)
    requires k <= TotalPages(|list|)
    ensures PagesUpTo(list, k) == list[..if k * ItemsPerPage <= |list| then k * ItemsPerPage else |list|]
  {
    if k > 0 {
      PagesUpToPrefix(list, k - 1);
      PageInRange(list, k);
      var start := (k - 1) * ItemsPerPage;
      assert start < |list|;
      assert PagesUpTo(list, k - 1) == list[..start];
    }
  }

  /** Reading pages 1 to the last one in turn shows every filtered word once,
      in order. */
  lemma PagesConcatenate<T>(list: seq<T>)
    ensures PagesUpTo(list, TotalPages(|list|)) == list
  {
    PagesUpToPrefix(list, TotalPages(|list|));
  }

  /** The words shown. */
  function Paginated(v: Vocabulary, view: View): seq<Word> {
    PageOf(FilteredVocabulary(v, view), view.page)
  }

  /** The pager is shown only when there is more than one page, that is, more
      than twelve matching words. */
  predicate ShowsPagination(v: Vocabulary, view: View) {
    TotalPages(|FilteredVocabulary(v, view)|) > 1
  }

  lemma ShowsPaginationIffMoreThanOnePage(v: Vocabulary, view: View)
    ensures ShowsPagination(v, view) <==> |FilteredVocabulary(v, view)| > ItemsPerPage
  {
  }

  // ---------------------------------------------------------------------------
  // Filter changes

  /** Typing in the search box. */
  function SetSearch(view: View, term: string): (r: View)
    ensures r.searchTerm == term && r.page == 1
    ensures r.topic == view.topic && r.level == view.level
  {
    view.(searchTerm := term, page := 1)
  }

  /** Picking a level; the selector's `null` ("all levels") becomes "ALL". */
  function SetLevel(view: View, level: Option<Level>): (r: View)
    ensures r.page == 1
    ensures Truthy(level) ==> r.level == level.value
    ensures !Truthy(level) ==> r.level == "ALL"
    ensures r.searchTerm == view.searchTerm && r.topic == view.topic
  {
    view.(level := if Truthy(level) then level.value else "ALL", page := 1)
  }

  /** Picking a topic. */
  function SetTopic(view: View, topic: string): (r: View)
    ensures r.topic == topic && r.page == 1
    ensures r.searchTerm == view.searchTerm && r.level == view.level
  {
    view.(topic := topic, page := 1)
  }

  /** The pager's `onPageChange`: only the page changes. */
  function SetPage(view: View, page: int): (r: View)
    ensures r.page == page
    ensures r.searchTerm == view.searchTerm && r.topic == view.topic && r.level == view.level
  {
    view.(page := page)
  }

  /** "Clear filters" on the empty-result card. */
  function ClearFilters(view: View): (r: View)
    ensures r == Initial()
  {
    View("", "all", "ALL", 1)
  }

  /** After any filter change the first twelve matching words are shown. */
  lemma FilterChangeShowsFirstPage(v: Vocabulary, view: View, term: string, topic: string, level: Option<Level>)
    ensures var n := FilteredVocabulary(v, SetSearch(view, term));
      Paginated(v, SetSearch(view, term)) == n[..if |n| < ItemsPerPage then |n| else ItemsPerPage]
    ensures var n := FilteredVocabulary(v, SetTopic(view, topic));
      Paginated(v, SetTopic(view, topic)) == n[..if |n| < ItemsPerPage then |n| else ItemsPerPage]
    ensures var n := FilteredVocabulary(v, SetLevel(view, level));
      Paginated(v, SetLevel(view, level)) == n[..if |n| < ItemsPerPage then |n| else ItemsPerPage]
  {
  }

  /** Clearing the filters brings back the whole catalog from its first page. */
  lemma ClearFiltersShowsCatalog(v: Vocabulary, view: View)
    ensures FilteredVocabulary(v, ClearFilters(view)) == All(v)
    ensures Paginated(v, ClearFilters(view)) == All(v)[..if |All(v)| < ItemsPerPage then |All(v)| else ItemsPerPage]
  {
    UnfilteredKeepsCatalog(v, ClearFilters(view));
  }
}
