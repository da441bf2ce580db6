/**
 * The browse page (src/components/BrowsePage.jsx): the genre and year
 * choices it derives from the repository, and its result list, which is
 * `filterContent` for the selected options followed by an in-place sort.
 */
module Browse {
  import opened Wrappers
  import opened Text
  import opened Seqs
  import opened Sorting
  import opened Content
  import opened Catalog

  // ------------------------------------------------------------ the option lists

  /** `set.add(v)` on a set kept in insertion order. */
  function SetAdd(s: seq<string>, v: string): (r: seq<string>)
    ensures Distinct(s) ==> Distinct(r)
    ensures forall g :: g in r <==> g in s || g == v
  {
    if v in s then s
    else
      assert forall i :: 0 <= i < |s| ==> (s + [v])[i] == s[i];
      s + [v]
  }

  /** `a < b` on strings, as the default `sort()` compares them. */
  function StringOrder(): (string, string) -> bool {
    (a: string, b: string) => LexLeq(a, b)
  }

  lemma StringOrderIsTotalPreorder()
    ensures TotalPreorder(StringOrder())
  {
    forall a: string, b: string ensures LexLeq(a, b) || LexLeq(b, a) {
      LexLeqTotal(a, b);
    }
    forall a: string, b: string, c: string | LexLeq(a, b) && LexLeq(b, c) ensures LexLeq(a, c) {
      LexLeqTransitive(a, b, c);
    }
  }

  /** The genre tokens of one record: its Genre, when not empty, split at commas, each piece trimmed. */
  function GenreTokens(x: Record): seq<string> {
    if Truthy(x.Genre) then
      var pieces := Split(x.Genre.value, ',');
      seq(|pieces|, k requires 0 <= k < |pieces| => Trim(pieces[k]))
    else []
  }

  /** `g` is a token of some record among the first `n`. */
  ghost predicate GenreSeen(all: seq<Record>, n: nat, g: string)
    requires n <= |all|
  {
    exists k :: 0 <= k < n && g in GenreTokens(all[k])
  }

  /** Each string ahead of the next in string order, none repeated. */
  predicate StrictlyAscending(s: seq<string>) {
    forall i, j :: 0 <= i < j < |s| ==> LexLeq(s[i], s[j]) && s[i] != s[j]
  }

  predicate StrictlyDescending(s: seq<string>) {
    forall i, j :: 0 <= i < j < |s| ==> LexLeq(s[j], s[i]) && s[i] != s[j]
  }

  /** Copies a sequence into a new array and sorts it there: `Array.from(set).sort()`. */
  method SortedStrings(s: seq<string>) returns (a: array<string>)
    requires Distinct(s)
    ensures fresh(a)
    ensures multiset(a[..]) == multiset(s)
    ensures StrictlyAscending(a[..])
  {
    a := new string[|s|](k requires 0 <= k < |s| => s[k]);
    assert a[..] == s;
    SortInPlace(a, StringOrder());
    ghost var sorted := a[..];
    StringOrderIsTotalPreorder();
    InsertionSortIsSorted(s, StringOrder());
    assert SortedBy(sorted, StringOrder());
    DistinctPermutation(s, sorted);
  }

  /** `item.Genre.split(',').forEach(g => genreSet.add(g.trim()))`: adds the record's tokens in order. */
  method AddGenreTokens(genreSet: seq<string>, item: Record) returns (r: seq<string>)
    requires Distinct(genreSet)
    ensures Distinct(r)
    ensures forall g :: g in r <==> g in genreSet || g in GenreTokens(item)
  {
    var tokens := GenreTokens(item);
    r := genreSet;
    var j := 0;
    while j < |tokens|
      invariant 0 <= j <= |tokens|
      invariant Distinct(r)
      invariant forall g :: g in r <==> g in genreSet || g in tokens[..j]
    {
      assert tokens[..j + 1] == tokens[..j] + [tokens[j]];
      r := SetAdd(r, tokens[j]);
      j := j + 1;
    }
    assert tokens[..j] == tokens;
  }

  /** Counting one more record adds exactly its tokens. */
  lemma GenreSeenStep(all: seq<Record>, i: nat)
    requires i < |all|
    ensures forall g :: GenreSeen(all, i + 1, g) <==> GenreSeen(all, i, g) || g in GenreTokens(all[i])
  {
  }

  /**
   * The genre list: every trimmed comma-separated token of every record
   * with a Genre, each once, in ascending order.
   */
  method DeriveGenres(all: seq<Record>) returns (genres: seq<string>)
    ensures StrictlyAscending(genres)
    ensures forall g :: g in genres <==> exists x :: x in all && g in GenreTokens(x)
  {
    var genreSet: seq<string> := [];
    var i := 0;
    while i < |all|
      invariant 0 <= i <= |all|
      invariant Distinct(genreSet)
      invariant forall g :: g in genreSet <==> GenreSeen(all, i, g)
    {
      var item := all[i];
      if Truthy(item.Genre) {
        genreSet := AddGenreTokens(genreSet, item);
      }
      GenreSeenStep(all, i);
      i := i + 1;
    }
    var a := SortedStrings(genreSet);
    genres := a[..];
    SameMembers(genres, genreSet);
    forall g | g in genreSet ensures exists x :: x in all && g in GenreTokens(x) {
      var k :| 0 <= k < |all| && g in GenreTokens(all[k]);
      assert all[k] in all;
    }
  }

  /** Sequences with the same multiset have the same members. */
  lemma SameMembers<T>(a: seq<T>, b: seq<T>)
    requires multiset(a) == multiset(b)
    ensures forall x :: x in a <==> x in b
  {
    assert forall x :: x in a <==> x in multiset(a);
    assert forall x :: x in b <==> x in multiset(b);
  }

  /** The year a record contributes: the text before the first `–` of a Year that is present, not empty and not "N/A". */
  function YearChoice(x: Record): (r: Option<string>)
    ensures r.Some? <==> Truthy(x.Year) && x.Year.value != "N/A"
    ensures r.Some? ==> StartsWith(x.Year.value, r.value) && '–' !in r.value
    ensures r.Some? ==> |r.value| == |x.Year.value|
                        || (|r.value| < |x.Year.value| && x.Year.value[|r.value|] == '–')
  {
    if Truthy(x.Year) && x.Year.value != "N/A" then
      FirstPieceIsPrefix(x.Year.value, '–');
      Some(Split(x.Year.value, '–')[0])
    else None
  }

  /** Some record among the first `n` contributes the year `y`. */
  ghost predicate YearSeen(all: seq<Record>, n: nat, y: string)
    requires n <= |all|
  {
    exists k :: 0 <= k < n && YearChoice(all[k]) == Some(y)
  }

  /**
   * The year list: the year of every record that has one, each once, in
   * descending order (`sort()` then `reverse()`).
   */
  method DeriveYears(all: seq<Record>) returns (years: seq<string>)
    ensures StrictlyDescending(years)
    ensures forall y :: y in years <==> exists x :: x in all && YearChoice(x) == Some(y)
  {
    var yearSet: seq<string> := [];
    var i := 0;
    while i < |all|
      invariant 0 <= i <= |all|
      invariant Distinct(yearSet)
      invariant forall y :: y in yearSet <==> YearSeen(all, i, y)
    {
      var item := all[i];
      if Truthy(item.Year) && item.Year.value != "N/A" {
        var year := Split(item.Year.value, '–')[0];
        yearSet := SetAdd(yearSet, year);
      }
      forall y ensures YearSeen(all, i + 1, y) <==> YearSeen(all, i, y) || YearChoice(item) == Some(y) {
        if YearChoice(item) == Some(y) {
          assert all[i] == item;
        }
      }
      i := i + 1;
    }
    var a := SortedStrings(yearSet);
    ghost var ascending := a[..];
    ReverseInPlace(a);
    years := a[..];
    ReversedAscending(ascending);
    SameMembers(ascending, yearSet);
    forall y | y in yearSet ensures exists x :: x in all && YearChoice(x) == Some(y) {
      var k :| 0 <= k < |all| && YearChoice(all[k]) == Some(y);
      assert all[k] in all;
    }
  }

  /** Reversing a strictly ascending list gives a strictly descending one with the same members. */
  lemma ReversedAscending(s: seq<string>)
    requires StrictlyAscending(s)
    ensures StrictlyDescending(Reversed(s))
    ensures forall y :: y in Reversed(s) <==> y in s
  {
    var r := Reversed(s);
    forall y | y in s ensures y in r {
      var k :| 0 <= k < |s| && s[k] == y;
      assert r[|s| - 1 - k] == y;
    }
  }

  // ------------------------------------------------------------ the result list

  /** `minRating ? parseFloat(minRating) : undefined`, in tenths; the choices are whole numbers. */
  function MinRatingArg(minRating: string): (r: Option<int>)
    ensures minRating == "" ==> r.None?
    ensures minRating != "" && ParseInt(minRating).Some? ==> r == Some(10 * ParseInt(minRating).value)
    ensures ParseInt(minRating).None? ==> !ActiveMinRating(r)
  {
    if minRating == "" then None
    else
      match ParseInt(minRating)
      case None => None
      case Some(v) => Some(10 * v)
  }

  /** The argument object the page hands to `filterContent`. */
  function BrowseArgs(mediaType: string, selectedGenre: string, selectedYear: string, minRating: string): (args: FilterArgs)
    ensures args.comingSoon == Some(false)
    ensures args.contentType == Some(mediaType)
    ensures args.genre == Some(selectedGenre) && args.year == Some(selectedYear)
    ensures args.minRating == MinRatingArg(minRating)
    ensures minRating == "" ==> !ActiveMinRating(args.minRating)
  {
    FilterArgs(Some(mediaType), Some(selectedGenre), MinRatingArg(minRating), Some(selectedYear), Some(false))
  }

  /** With the page's initial selections (all empty) only the media type and the coming-soon flag filter. */
  lemma InitialArgsFilterByTypeOnly(mediaType: string, x: Record)
    requires mediaType != ""
    ensures Matches(BrowseArgs(mediaType, "", "", ""), x) <==> x.Type == Some(mediaType) && !x.ComingSoon
  {
  }

  /** The four `sortBy` values and the comparator each one selects. */
  function SortOrder(sortBy: string): (r: Option<Order>)
    ensures r.Some? <==> sortBy == "rating" || sortBy == "year" || sortBy == "title" || sortBy == "votes"
  {
    if sortBy == "rating" then Some(ByRatingDesc)
    else if sortBy == "year" then Some(ByYearDesc)
    else if sortBy == "title" then Some(ByTitleAsc)
    else if sortBy == "votes" then Some(ByVotesDesc)
    else None
  }

  /** The `switch (sortBy)` of `results`: sorts the array in place with the selected comparator. */
  method SortBy(a: array<Record>, sortBy: string)
    modifies a
    ensures multiset(a[..]) == multiset(old(a[..]))
    ensures SortOrder(sortBy).Some? ==> a[..] == InsertionSort(old(a[..]), Before(SortOrder(sortBy).value))
    ensures SortOrder(sortBy).None? ==> a[..] == old(a[..])
    ensures sortBy == "rating" ==> RatingDescending(a[..])
    ensures sortBy == "year" ==> YearDescending(a[..])
    ensures sortBy == "title" ==> TitleAscending(a[..])
    ensures sortBy == "votes" ==> VotesDescending(a[..])
  {
    ghost var s := a[..];
    var order := SortOrder(sortBy);
    if order.Some? {
      SortInPlace(a, Before(order.value));
      SortByOrder(order.value, s);
      SortedByKeys(order.value, a[..]);
    }
  }

  /**
   * `results`: the `filterContent` output for the selected options, sorted
   * in place by the comparator `sortBy` names and left in repository order
   * for any other `sortBy`.
   */
  method Results(all: seq<Record>, mediaType: string, selectedGenre: string, selectedYear: string,
                 minRating: string, sortBy: string) returns (results: seq<Record>)
    ensures forall x :: (multiset(results)[x] ==
      if Matches(BrowseArgs(mediaType, selectedGenre, selectedYear, minRating), x) then multiset(all)[x] else 0)
    ensures forall x :: x in results ==> x in all && !x.ComingSoon
    ensures mediaType != "" ==> forall x :: x in results ==> x.Type == Some(mediaType)
    ensures mediaType != "" && (forall x :: x in all ==> x.Type != Some(mediaType)) ==> results == []
    ensures sortBy == "rating" ==> RatingDescending(results)
    ensures sortBy == "year" ==> YearDescending(results)
    ensures sortBy == "title" ==> TitleAscending(results)
    ensures sortBy == "votes" ==> VotesDescending(results)
    ensures SortOrder(sortBy).None? ==> IsSubsequence(results, all)
  {
    var args := BrowseArgs(mediaType, selectedGenre, selectedYear, minRating);
    var filtered := FilterContent(all, args);
    var a := new Record[|filtered|](k requires 0 <= k < |filtered| => filtered[k]);
    assert a[..] == filtered;
    SortBy(a, sortBy);
    results := a[..];
    SameMembers(results, filtered);
    if mediaType != "" && (forall x :: x in all ==> x.Type != Some(mediaType)) {
      assert forall x :: multiset(results)[x] == 0;
      assert multiset(results) == multiset{};
    }
  }
}
