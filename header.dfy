/**
 * The search box of the header (src/components/HeaderComp.jsx): the text in
 * the box, whether the box is open, and the query it publishes to the
 * shared store.
 */
module Header {
  import opened Store

  /**
   * The shared query after the box changes to `value`: the new text once it
   * is longer than two characters, empty once the box is empty, and
   * otherwise the query as it was.
   */
  function QueryAfterChange(value: string, query: string): (r: string)
    ensures |value| > 2 ==> r == value
    ensures |value| == 0 ==> r == ""
    ensures 0 < |value| <= 2 ==> r == query
  {
    if |value| > 2 then value
    else if |value| == 0 then ""
    else query
  }

  /** The published query agrees with the box whenever the box is empty or holds more than two characters. */
  predicate Follows(localSearch: string, query: string) {
    (|localSearch| > 2 || localSearch == "") ==> query == localSearch
  }

  /** Every change leaves the query following the box. */
  lemma ChangeFollows(value: string, query: string)
    ensures Follows(value, QueryAfterChange(value, query))
  {
  }

  /** The same change event twice has the effect of once. */
  lemma ChangeIsIdempotent(value: string, query: string)
    ensures QueryAfterChange(value, QueryAfterChange(value, query)) == QueryAfterChange(value, query)
  {
  }

  /** A change publishes either the new text or nothing new: never some third string. */
  lemma ChangePublishesTheBoxOrKeeps(value: string, query: string)
    ensures QueryAfterChange(value, query) == value || QueryAfterChange(value, query) == query
  {
  }

  /** The header's own state cells; `app` is the provider whose `searchQuery` it publishes to. */
  class SearchHeader {
    var searchOpen: bool
    var localSearch: string
    const app: AppProvider

    constructor (app: AppProvider)
      ensures this.app == app
      ensures !searchOpen && localSearch == ""
    {
      this.app := app;
      searchOpen := false;
      localSearch := "";
    }

    /** `handleSearchSubmit`: publishes whatever the box holds. */
    method HandleSearchSubmit()
      modifies app`searchQuery
      ensures app.searchQuery == localSearch
      ensures Follows(localSearch, app.searchQuery)
    {
      app.SetSearchQuery(localSearch);
    }

    /** `handleSearchChange`: takes the new text and publishes it under the length rule. */
    method HandleSearchChange(value: string)
      modifies this, app`searchQuery
      ensures localSearch == value && searchOpen == old(searchOpen)
      ensures app.searchQuery == QueryAfterChange(value, old(app.searchQuery))
      ensures Follows(localSearch, app.searchQuery)
    {
      localSearch := value;
      if |value| > 2 {
        app.SetSearchQuery(value);
      } else if |value| == 0 {
        app.SetSearchQuery("");
      }
      ChangeFollows(value, old(app.searchQuery));
    }

    /** `clearSearch`: empties the box and the query and closes the box. */
    method ClearSearch()
      modifies this, app`searchQuery
      ensures localSearch == "" && app.searchQuery == "" && !searchOpen
      ensures Follows(localSearch, app.searchQuery)
    {
      localSearch := "";
      app.SetSearchQuery("");
      searchOpen := false;
    }

    /** The search button: `setSearchOpen(!searchOpen)`. */
    method ToggleSearch()
      modifies this`searchOpen
      ensures searchOpen == !old(searchOpen)
    {
      searchOpen := !searchOpen;
    }
  }
}
