/**
 * screens/MovieRoute/MovieSearchScreen.js: the search box, the page cache of
 * fetched result pages and the Previous/Next buttons.
 *
 * The catalogue is a fixed function from (normalised title, page) to a response,
 * given when the screen is created; every cached page is therefore what the
 * catalogue answers for the last successful query and that page's number.
 */
module MovieSearchScreen {
  import opened Wrappers
  import opened MovieApi

  const EmptyQueryMsg := "Please enter a movie's title"
  const EndOfResultsMsg := "You have reached the end of the search results"
  const BeginningOfResultsMsg := "You have reached the beginning of the search results"

  /** One fetched page: the `Search` array of the response, undefined when the response had none. */
  type Page = Option<seq<SearchItem>>

  class SearchScreen {
    const fetch: (string, nat) -> CatalogResponse
    var searchQuery: string
    var prevSearchQuery: string
    var fetchedResults: seq<Page>
    var pageNumber: int
    var statusMsg: string

    /**
     * Before the first successful search nothing is cached and the page is 1;
     * afterwards the current page is one of the cached pages, and cached page
     * `k` (counted from 0) is the catalogue's page `k + 1` for `prevSearchQuery`.
     */
    ghost predicate Valid()
      reads this
    {
      && 1 <= pageNumber
      && (prevSearchQuery == "" ==> fetchedResults == [] && pageNumber == 1)
      && (prevSearchQuery != "" ==> pageNumber <= |fetchedResults|)
      && forall k :: 0 <= k < |fetchedResults| ==>
           FetchSearchResults(fetch, prevSearchQuery, k + 1) == Ok(fetchedResults[k])
    }

    constructor (fetch: (string, nat) -> CatalogResponse)
      ensures Valid()
      ensures this.fetch == fetch
      ensures searchQuery == "" && prevSearchQuery == "" && fetchedResults == []
      ensures pageNumber == 1 && statusMsg == ""
    {
      this.fetch := fetch;
      searchQuery := "";
      prevSearchQuery := "";
      fetchedResults := [];
      pageNumber := 1;
      statusMsg := "";
    }

    /** What the screen renders below the buttons: `fetchedResults[pageNumber - 1]` when it is not null. */
    function Displayed(): Page
      reads this
    {
      if 1 <= pageNumber <= |fetchedResults| then fetchedResults[pageNumber - 1] else None
    }

    /** The text input's `onChangeText`. */
    method SetSearchQuery(q: string)
      requires Valid()
      modifies this
      ensures Valid()
      ensures searchQuery == q
      ensures prevSearchQuery == old(prevSearchQuery) && fetchedResults == old(fetchedResults)
      ensures pageNumber == old(pageNumber) && statusMsg == old(statusMsg)
    {
      searchQuery := q;
    }

    /** `search()`: page 1 of the typed query replaces the whole cache. */
    method Search()
      requires Valid()
      modifies this
      ensures Valid()
      ensures searchQuery == old(searchQuery)
      ensures old(searchQuery) == "" ==>
        statusMsg == EmptyQueryMsg && prevSearchQuery == old(prevSearchQuery)
        && fetchedResults == old(fetchedResults) && pageNumber == old(pageNumber)
      ensures old(searchQuery) != "" ==>
        var res := FetchSearchResults(fetch, old(searchQuery), 1);
        if res.Ok? then
          fetchedResults == [res.value] && prevSearchQuery == old(searchQuery)
          && pageNumber == 1 && statusMsg == ""
        else
          statusMsg == res.error && prevSearchQuery == old(prevSearchQuery)
          && fetchedResults == old(fetchedResults) && pageNumber == old(pageNumber)
    {
      if searchQuery == "" {
        statusMsg := EmptyQueryMsg;
        return;
      }
      var res := FetchSearchResults(fetch, searchQuery, 1);
      if res.Ok? {
        fetchedResults := [res.value];
        prevSearchQuery := searchQuery;
        pageNumber := 1;
        statusMsg := "";
      } else {
        statusMsg := res.error;
      }
    }

    /** `goNextPage()`: move forward through the cache, fetching one page past its end when needed. */
    method GoNextPage()
      requires Valid()
      modifies this
      ensures Valid()
      ensures searchQuery == old(searchQuery) && prevSearchQuery == old(prevSearchQuery)
      ensures old(prevSearchQuery) == "" ==>
        fetchedResults == old(fetchedResults) && pageNumber == old(pageNumber) && statusMsg == old(statusMsg)
      ensures old(prevSearchQuery) != "" && |old(fetchedResults)| > old(pageNumber) ==>
        fetchedResults == old(fetchedResults) && pageNumber == old(pageNumber) + 1 && statusMsg == ""
      ensures old(prevSearchQuery) != "" && |old(fetchedResults)| <= old(pageNumber) ==>
        var res := FetchSearchResults(fetch, old(prevSearchQuery), old(pageNumber) + 1);
        if res.Ok? then
          fetchedResults == old(fetchedResults) + [res.value] && pageNumber == old(pageNumber) + 1
          && statusMsg == ""
        else
          fetchedResults == old(fetchedResults) && pageNumber == old(pageNumber)
          && statusMsg == EndOfResultsMsg
    {
      if prevSearchQuery == "" {
        return;
      }
      if |fetchedResults| > pageNumber {
        statusMsg := "";
        pageNumber := pageNumber + 1;
        return;
      }
      var res := FetchSearchResults(fetch, prevSearchQuery, pageNumber + 1);
      if res.Ok? {
        fetchedResults := fetchedResults + [res.value];
        pageNumber := pageNumber + 1;
        statusMsg := "";
      } else {
        statusMsg := EndOfResultsMsg;
      }
    }

    /** `goPrevPage()`: guarded by the typed query, not by the last searched one. */
    method GoPrevPage()
      requires Valid()
      modifies this
      ensures Valid()
      ensures searchQuery == old(searchQuery) && prevSearchQuery == old(prevSearchQuery)
      ensures fetchedResults == old(fetchedResults)
      ensures old(searchQuery) == "" ==> pageNumber == old(pageNumber) && statusMsg == old(statusMsg)
      ensures old(searchQuery) != "" && old(pageNumber) == 1 ==>
        pageNumber == 1 && statusMsg == BeginningOfResultsMsg
      ensures old(searchQuery) != "" && old(pageNumber) != 1 ==>
        pageNumber == old(pageNumber) - 1 && statusMsg == old(statusMsg)
    {
      if searchQuery == "" {
        return;
      }
      if pageNumber == 1 {
        statusMsg := BeginningOfResultsMsg;
        return;
      }
      pageNumber := pageNumber - 1;
    }
  }

  /**
   * Whatever sequence of presses led here, the results on screen are exactly the
   * catalogue's answer for the last successful query at the current page number,
   * and nothing is shown before the first successful search.
   */
  lemma DisplayedIsCatalogPage(s: SearchScreen)
    requires s.Valid()
    ensures s.prevSearchQuery == "" ==> s.Displayed() == None
    ensures s.prevSearchQuery != "" ==>
      FetchSearchResults(s.fetch, s.prevSearchQuery, s.pageNumber) == Ok(s.Displayed())
  {
    if s.prevSearchQuery != "" {
      assert FetchSearchResults(s.fetch, s.prevSearchQuery, (s.pageNumber - 1) + 1) == Ok(s.fetchedResults[s.pageNumber - 1]);
    }
  }

  /** Next followed by Previous, from a page already cached, returns to the same results with no refetch. */
  method NextThenPrevious(s: SearchScreen) returns (before: Page, after: Page)
    requires s.Valid() && s.searchQuery != "" && s.prevSearchQuery != ""
    requires |s.fetchedResults| > s.pageNumber
    modifies s
    ensures s.Valid()
    ensures before == after
    ensures s.fetchedResults == old(s.fetchedResults) && s.pageNumber == old(s.pageNumber)
  {
    before := s.Displayed();
    s.GoNextPage();
    s.GoPrevPage();
    after := s.Displayed();
  }
}
