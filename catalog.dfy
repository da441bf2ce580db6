/**
 * The content repository and its query engine (src/services/dataService.js).
 * The repository is built once, from the three bundled lists, and never
 * changes; every query is a function of it, here the parameter `all`.
 */
module Catalog {
  import opened Wrappers
  import opened Text
  import opened Seqs
  import opened Sorting
  import opened Content

  // ------------------------------------------------------------ building

  /** `data.findIndex(m => m.imdbID === id)`: the first index with that id, or -1. */
  function FindIndex(data: seq<Record>, id: Option<string>): (k: int)
    ensures -1 <= k < |data|
    ensures k == -1 <==> forall j :: 0 <= j < |data| ==> data[j].imdbID != id
    ensures 0 <= k ==> data[k].imdbID == id && forall j :: 0 <= j < k ==> data[j].imdbID != id
  {
    if data == [] then -1
    else if data[0].imdbID == id then 0
    else
      var k := FindIndex(data[1..], id);
      if k == -1 then -1 else k + 1
  }

  /** The records of `data[i..]` that are the first in all of `data` to carry their id. */
  function KeepFirsts(data: seq<Record>, i: nat): (r: seq<Record>)
    requires i <= |data|
    ensures |r| <= |data| - i
    decreases |data| - i
  {
    if i == |data| then []
    else if FindIndex(data, data[i].imdbID) == i then [data[i]] + KeepFirsts(data, i + 1)
    else KeepFirsts(data, i + 1)
  }

  /** `KeepFirsts` holds exactly the records found at their id's first index, when that index is `i` or later. */
  lemma {:induction false} KeepFirstsMembers(data: seq<Record>, i: nat)
    requires i <= |data|
    ensures forall x :: x in KeepFirsts(data, i) <==>
      i <= FindIndex(data, x.imdbID) && data[FindIndex(data, x.imdbID)] == x
    decreases |data| - i
  {
    if i < |data| {
      KeepFirstsMembers(data, i + 1);
      forall x ensures x in KeepFirsts(data, i) <==>
        i <= FindIndex(data, x.imdbID) && data[FindIndex(data, x.imdbID)] == x
      {
        KeepFirstsStep(data, i, x);
      }
    }
  }

  /** One step of `KeepFirstsMembers`: from `i + 1` back to `i`. */
  lemma KeepFirstsStep(data: seq<Record>, i: nat, x: Record)
    requires i < |data|
    requires x in KeepFirsts(data, i + 1) <==>
      i + 1 <= FindIndex(data, x.imdbID) && data[FindIndex(data, x.imdbID)] == x
    ensures x in KeepFirsts(data, i) <==>
      i <= FindIndex(data, x.imdbID) && data[FindIndex(data, x.imdbID)] == x
  {
    var f := FindIndex(data, x.imdbID);
    if f == i && data[f] == x {
      assert FindIndex(data, data[i].imdbID) == i;
    }
  }

  /** No two records `KeepFirsts` keeps share an id. */
  lemma {:induction false} KeepFirstsUnique(data: seq<Record>, i: nat)
    requires i <= |data|
    ensures UniqueIds(KeepFirsts(data, i))
    decreases |data| - i
  {
    if i < |data| {
      KeepFirstsUnique(data, i + 1);
      var rest := KeepFirsts(data, i + 1);
      if FindIndex(data, data[i].imdbID) == i {
        KeepFirstsMembers(data, i + 1);
        assert forall y :: y in rest ==> i + 1 <= FindIndex(data, y.imdbID);
        ConsKeepsUniqueIds(data[i], rest);
      }
    }
  }

  /** Putting a record in front of a list without its id keeps ids unique. */
  lemma ConsKeepsUniqueIds(x: Record, rest: seq<Record>)
    requires UniqueIds(rest)
    requires forall y :: y in rest ==> y.imdbID != x.imdbID
    ensures UniqueIds([x] + rest)
  {
    var r := [x] + rest;
    forall a, b | 0 <= a < b < |r| ensures r[a].imdbID != r[b].imdbID {
      assert r[b] == rest[b - 1] && r[b] in rest;
      if a > 0 {
        assert r[a] == rest[a - 1];
      }
    }
  }

  /** `KeepFirsts` keeps the order of `data[i..]`. */
  lemma {:induction false} KeepFirstsSubsequence(data: seq<Record>, i: nat)
    requires i <= |data|
    ensures IsSubsequence(KeepFirsts(data, i), data[i..])
    decreases |data| - i
  {
    if i < |data| {
      KeepFirstsSubsequence(data, i + 1);
      assert data[i..][1..] == data[i + 1..];
      assert data[i..][0] == data[i];
      var rest := KeepFirsts(data, i + 1);
      if FindIndex(data, data[i].imdbID) == i {
        assert ([data[i]] + rest)[1..] == rest;
      }
    }
  }

  /** The records of `r` come in the order of their ids' first occurrences in `data`. */
  predicate InFirstOccurrenceOrder(r: seq<Record>, data: seq<Record>) {
    forall a, b :: 0 <= a < b < |r| ==> FindIndex(data, r[a].imdbID) < FindIndex(data, r[b].imdbID)
  }

  /** `KeepFirsts` lists its records by increasing first index of their ids. */
  lemma {:induction false} KeepFirstsOrdered(data: seq<Record>, i: nat)
    requires i <= |data|
    ensures InFirstOccurrenceOrder(KeepFirsts(data, i), data)
    decreases |data| - i
  {
    if i < |data| {
      KeepFirstsOrdered(data, i + 1);
      var rest := KeepFirsts(data, i + 1);
      if FindIndex(data, data[i].imdbID) == i {
        KeepFirstsMembers(data, i + 1);
        ConsKeepsOrder(data, i, rest);
      }
    }
  }

  /** One step of `KeepFirstsOrdered`: a record at first index `i` goes in front of records whose first indexes are later. */
  lemma ConsKeepsOrder(data: seq<Record>, i: nat, rest: seq<Record>)
    requires i < |data| && FindIndex(data, data[i].imdbID) == i
    requires InFirstOccurrenceOrder(rest, data)
    requires forall y :: y in rest ==> i + 1 <= FindIndex(data, y.imdbID)
    ensures InFirstOccurrenceOrder([data[i]] + rest, data)
  {
    var r := [data[i]] + rest;
    forall a, b | 0 <= a < b < |r| ensures FindIndex(data, r[a].imdbID) < FindIndex(data, r[b].imdbID) {
      var y := rest[b - 1];
      assert r[b] == y;
      if a == 0 {
        assert y in rest;
        assert r[a] == data[i];
      } else {
        assert r[a] == rest[a - 1];
        assert FindIndex(data, rest[a - 1].imdbID) < FindIndex(data, rest[b - 1].imdbID);
      }
    }
  }

  /**
   * `combineAndDeduplicate(data)`: keeps a record exactly when no earlier
   * record has the same `imdbID` (compared with `===`, so all records
   * without an id count as one id).
   */
  function CombineAndDeduplicate(data: seq<Record>): (r: seq<Record>)
    ensures IsSubsequence(r, data)
    ensures forall a, b :: 0 <= a < b < |r| ==> r[a].imdbID != r[b].imdbID
    ensures forall x :: x in r ==> 0 <= FindIndex(data, x.imdbID) && x == data[FindIndex(data, x.imdbID)]
    ensures forall k :: 0 <= k < |data| ==> data[FindIndex(data, data[k].imdbID)] in r
    ensures InFirstOccurrenceOrder(r, data)
  {
    assert data[0..] == data;
    var r := KeepFirsts(data, 0);
    KeepFirstsOrdered(data, 0);
    KeepFirstsMembers(data, 0);
    KeepFirstsUnique(data, 0);
    KeepFirstsSubsequence(data, 0);
    forall k | 0 <= k < |data| ensures data[FindIndex(data, data[k].imdbID)] in r {
      var f := FindIndex(data, data[k].imdbID);
      assert data[f].imdbID == data[k].imdbID;
    }
    r
  }

  /** The constructor: the three source lists, concatenated in order, deduplicated. */
  function Load(contentData: seq<Record>, homeTiles: seq<Record>, contentTiles: seq<Record>): (all: seq<Record>)
    ensures UniqueIds(all)
    ensures IsSubsequence(all, contentData + homeTiles + contentTiles)
    ensures InFirstOccurrenceOrder(all, contentData + homeTiles + contentTiles)
  {
    CombineAndDeduplicate(contentData + homeTiles + contentTiles)
  }

  /** Every id in the input survives deduplication. */
  lemma DeduplicateKeepsEveryId(data: seq<Record>, all: seq<Record>)
    requires all == CombineAndDeduplicate(data)
    ensures forall x :: x in data ==> exists y :: y in all && y.imdbID == x.imdbID
  {
    forall x | x in data ensures exists y :: y in all && y.imdbID == x.imdbID {
      var k :| 0 <= k < |data| && data[k] == x;
      var y := data[FindIndex(data, x.imdbID)];
      assert y in all && y.imdbID == x.imdbID;
    }
  }

  /** A record that survives deduplication is the first in the input with its id. */
  lemma DeduplicateKeepsFirsts(data: seq<Record>, all: seq<Record>)
    requires all == CombineAndDeduplicate(data)
    ensures forall y :: y in all ==> forall k :: 0 <= k < |data| && data[k].imdbID == y.imdbID ==>
              data[k] == y || exists j :: 0 <= j < k && data[j] == y
  {
    forall y, k | y in all && 0 <= k < |data| && data[k].imdbID == y.imdbID
      ensures data[k] == y || exists j :: 0 <= j < k && data[j] == y
    {
      var f := FindIndex(data, y.imdbID);
      assert f <= k;
      if f < k {
        assert data[f] == y;
      }
    }
  }

  /** The repository holds one record per distinct input id: the first with that id. */
  lemma LoadKeepsFirstOfEachId(contentData: seq<Record>, homeTiles: seq<Record>, contentTiles: seq<Record>)
    ensures var data := contentData + homeTiles + contentTiles;
            var all := Load(contentData, homeTiles, contentTiles);
            && UniqueIds(all)
            && IsSubsequence(all, data)
            && (forall x :: x in data ==> exists y :: y in all && y.imdbID == x.imdbID)
            && (forall y :: y in all ==> forall k :: 0 <= k < |data| && data[k].imdbID == y.imdbID ==>
                  data[k] == y || exists j :: 0 <= j < k && data[j] == y)
  {
    var data := contentData + homeTiles + contentTiles;
    var all := Load(contentData, homeTiles, contentTiles);
    DeduplicateKeepsEveryId(data, all);
    DeduplicateKeepsFirsts(data, all);
  }

  /** Records without an `imdbID` collapse into one: the repository keeps at most one of them. */
  lemma AtMostOneWithoutId(contentData: seq<Record>, homeTiles: seq<Record>, contentTiles: seq<Record>)
    ensures var all := Load(contentData, homeTiles, contentTiles);
      forall a, b :: 0 <= a < |all| && 0 <= b < |all| && all[a].imdbID.None? && all[b].imdbID.None? ==> a == b
  {
    var all := Load(contentData, homeTiles, contentTiles);
    forall a, b | 0 <= a < |all| && 0 <= b < |all| && all[a].imdbID.None? && all[b].imdbID.None?
      ensures a == b
    {
      assert all[a].imdbID == all[b].imdbID;
    }
  }

  // ------------------------------------------------------------ lookups

  /** `item.id === id || item.imdbID === id`. */
  predicate MatchesId(x: Record, id: string) {
    x.id == Some(id) || x.imdbID == Some(id)
  }

  /** `getContentById(id)`: the first record whose `id` or `imdbID` is `id`. */
  function ContentById(all: seq<Record>, id: string): (r: Option<Record>)
    ensures r.None? <==> forall x :: x in all ==> !MatchesId(x, id)
    ensures r.Some? ==> exists k :: 0 <= k < |all| && all[k] == r.value && MatchesId(r.value, id)
                                    && forall j :: 0 <= j < k ==> !MatchesId(all[j], id)
  {
    if all == [] then None
    else if MatchesId(all[0], id) then
      assert all[0] == all[0];
      Some(all[0])
    else
      var r := ContentById(all[1..], id);
      assert forall x :: x in all ==> x == all[0] || x in all[1..];
      if r.Some? then
        var k :| 0 <= k < |all[1..]| && all[1..][k] == r.value && MatchesId(r.value, id)
                 && forall j :: 0 <= j < k ==> !MatchesId(all[1..][j], id);
        assert all[k + 1] == r.value;
        assert forall j :: 1 <= j < k + 1 ==> all[j] == all[1..][j - 1];
        r
      else r
  }

  // ------------------------------------------------------------ simple filters

  /** `getContentByType(type)`: the records whose `Type` is `type`. */
  function ContentByType(all: seq<Record>, contentType: Option<string>): (r: seq<Record>)
    ensures forall x :: x in r <==> x in all && x.Type == contentType
    ensures IsSubsequence(r, all)
  {
    Filter(all, (x: Record) => x.Type == contentType)
  }

  predicate IsReleasedMovie(x: Record) { x.Type == Some("movie") && !x.ComingSoon }
  predicate IsSeries(x: Record) { x.Type == Some("series") }
  predicate IsComingSoon(x: Record) { x.ComingSoon }

  /** `getMovies()`: movies that are not marked coming soon. */
  function Movies(all: seq<Record>): (r: seq<Record>)
    ensures forall x :: x in r <==> x in all && x.Type == Some("movie") && !x.ComingSoon
    ensures IsSubsequence(r, all)
  {
    Filter(all, IsReleasedMovie)
  }

  /** `getSeries()`. */
  function Series(all: seq<Record>): (r: seq<Record>)
    ensures forall x :: x in r <==> x in all && x.Type == Some("series")
    ensures IsSubsequence(r, all)
  {
    Filter(all, IsSeries)
  }

  /** `getComingSoon()`. */
  function ComingSoon(all: seq<Record>): (r: seq<Record>)
    ensures forall x :: x in r <==> x in all && x.ComingSoon
    ensures IsSubsequence(r, all)
  {
    Filter(all, IsComingSoon)
  }

  /** `item.Genre?.toLowerCase().includes(g)`: a record without a Genre never matches. */
  predicate GenreIncludes(x: Record, g: string) {
    x.Genre.Some? && Contains(Lower(x.Genre.value), g)
  }

  /** `getByGenre(genre)`: case-insensitive substring match on the raw genre text. */
  function ByGenre(all: seq<Record>, genre: string): (r: seq<Record>)
    ensures forall x :: x in r <==> (x in all && x.Genre.Some? && Contains(Lower(x.Genre.value), Lower(genre)))
    ensures IsSubsequence(r, all)
  {
    Filter(all, (x: Record) => GenreIncludes(x, Lower(genre)))
  }

  /** `item.Awards && !item.Awards.includes('N/A') && item.Awards.toLowerCase().includes('won')`. */
  predicate IsAwardWinner(x: Record) {
    Truthy(x.Awards) && !Contains(x.Awards.value, "N/A") && Contains(Lower(x.Awards.value), "won")
  }

  /** `getAwardWinners()`. */
  function AwardWinners(all: seq<Record>): (r: seq<Record>)
    ensures forall x :: x in r <==> (x in all && x.Awards.Some? && x.Awards.value != ""
                                     && !Contains(x.Awards.value, "N/A") && Contains(Lower(x.Awards.value), "won"))
    ensures IsSubsequence(r, all)
  {
    Filter(all, IsAwardWinner)
  }

  /** `item.Year?.toString().includes(y)`. */
  predicate YearIncludes(x: Record, y: string) {
    x.Year.Some? && Contains(x.Year.value, y)
  }

  /** `getByYear(year)`: substring match on the year text. */
  function ByYear(all: seq<Record>, year: string): (r: seq<Record>)
    ensures forall x :: x in r <==> (x in all && x.Year.Some? && Contains(x.Year.value, year))
    ensures IsSubsequence(r, all)
  {
    Filter(all, (x: Record) => YearIncludes(x, year))
  }

  /** `!isNaN(rating) && min <= rating && rating <= max`, in tenths. */
  predicate RatedWithin(x: Record, minRating: int, maxRating: int) {
    x.imdbRating.Tenths? && minRating <= x.imdbRating.value <= maxRating
  }

  /**
   * `getByRatingRange(min, max)`, bounds in tenths and both inclusive; the
   * source's default `max` of 10 is 100 here.
   */
  function ByRatingRange(all: seq<Record>, minRating: int, maxRating: int): (r: seq<Record>)
    ensures forall x :: x in r <==> (x in all && IsRated(x)
                                     && minRating <= RatingKey(x) && RatingKey(x) <= maxRating)
    ensures IsSubsequence(r, all)
  {
    Filter(all, (x: Record) => RatedWithin(x, minRating, maxRating))
  }

  // ------------------------------------------------------------ search

  /** One of the five searched fields, lowercased, contains `q`. */
  predicate SearchHit(x: Record, q: string) {
    || Contains(LowerOrEmpty(x.Title), q)
    || Contains(LowerOrEmpty(x.Genre), q)
    || Contains(LowerOrEmpty(x.Actors), q)
    || Contains(LowerOrEmpty(x.Director), q)
    || Contains(LowerOrEmpty(x.Plot), q)
  }

  /**
   * `search(query)`: nothing for an absent or blank query, otherwise the
   * records where the trimmed, lowercased query occurs in one of the fields.
   */
  function Search(all: seq<Record>, query: Option<string>): (r: seq<Record>)
    ensures query.None? ==> r == []
    ensures query.Some? && AllWhitespace(query.value) ==> r == []
    ensures query.Some? && !AllWhitespace(query.value) ==>
      forall x :: x in r <==> x in all && SearchHit(x, Trim(Lower(query.value)))
    ensures IsSubsequence(r, all)
  {
    if query.None? then []
    else
      TrimEmptyIff(query.value);
      if Trim(query.value) == "" then []
      else
        var q := Trim(Lower(query.value));
        Filter(all, (x: Record) => SearchHit(x, q))
  }

  // ------------------------------------------------------------ rankings

  /** `filter(p).sort(compare).slice(0, limit)`: the chain both rankings use. */
  function Ranked(all: seq<Record>, p: Record -> bool, o: Order, limit: nat): (r: seq<Record>)
    ensures |r| == if limit < |Filter(all, p)| then limit else |Filter(all, p)|
    ensures multiset(r) <= multiset(Filter(all, p))
  {
    Take(InsertionSort(Filter(all, p), Before(o)), limit)
  }

  /**
   * A ranking keeps `limit` candidates, or all of them when fewer qualify,
   * never one more often than it occurs among the candidates, and nothing else.
   */
  lemma RankedMembers(all: seq<Record>, p: Record -> bool, o: Order, limit: nat, r: seq<Record>)
    requires r == Ranked(all, p, o, limit)
    ensures |r| == if limit < |Filter(all, p)| then limit else |Filter(all, p)|
    ensures multiset(r) <= multiset(Filter(all, p))
    ensures |r| < limit ==> multiset(r) == multiset(Filter(all, p))
    ensures forall x :: x in r ==> x in all && p(x)
  {
    var candidates := Filter(all, p);
    var sorted := InsertionSort(candidates, Before(o));
    SortByOrder(o, candidates);
    assert forall x :: x in r ==> x in sorted;
    assert forall x :: x in sorted ==> x in candidates by {
      assert forall x :: x in sorted <==> x in multiset(sorted);
    }
  }

  /** A ranking is in comparator order. */
  lemma RankedIsOrdered(all: seq<Record>, p: Record -> bool, o: Order, limit: nat, r: seq<Record>)
    requires r == Ranked(all, p, o, limit)
    ensures forall i, j :: 0 <= i < j < |r| ==> Precedes(o, r[i], r[j])
  {
    var sorted := InsertionSort(Filter(all, p), Before(o));
    SortByOrder(o, Filter(all, p));
    forall i, j | 0 <= i < j < |r| ensures Precedes(o, r[i], r[j]) {
      assert r[i] == sorted[i] && r[j] == sorted[j];
      assert Before(o)(sorted[i], sorted[j]);
    }
  }

  /** Nothing a ranking left out goes ahead of what it kept. */
  lemma RankedDominates(all: seq<Record>, p: Record -> bool, o: Order, limit: nat, r: seq<Record>)
    requires r == Ranked(all, p, o, limit)
    ensures forall x, y :: x in all && p(x) && x !in r && y in r ==> Precedes(o, y, x)
  {
    var candidates := Filter(all, p);
    var sorted := InsertionSort(candidates, Before(o));
    SortByOrder(o, candidates);
    PrefixDominates(sorted, |r|, Before(o));
    forall x, y | x in all && p(x) && x !in r && y in r ensures Precedes(o, y, x) {
      assert x in candidates;
      assert x in multiset(candidates);
      assert x in sorted;
      assert Before(o)(y, x);
    }
  }

  /**
   * A ranking returns `limit` records (or every candidate, when fewer
   * qualify), drawn from the candidates without repeats beyond theirs, in
   * comparator order, and none that the comparator puts behind a candidate
   * it left out.
   */
  lemma RankedIsTopK(all: seq<Record>, p: Record -> bool, o: Order, limit: nat, r: seq<Record>)
    requires r == Ranked(all, p, o, limit)
    ensures |r| == if limit < |Filter(all, p)| then limit else |Filter(all, p)|
    ensures multiset(r) <= multiset(Filter(all, p))
    ensures |r| < limit ==> multiset(r) == multiset(Filter(all, p))
    ensures forall x :: x in r ==> x in all && p(x)
    ensures forall i, j :: 0 <= i < j < |r| ==> Precedes(o, r[i], r[j])
    ensures forall x, y :: x in all && p(x) && x !in r && y in r ==> Precedes(o, y, x)
  {
    RankedMembers(all, p, o, limit, r);
    RankedIsOrdered(all, p, o, limit, r);
    RankedDominates(all, p, o, limit, r);
  }

  /** `getTopRated(limit)`: the rated records, highest rating first, cut at `limit`. */
  function TopRated(all: seq<Record>, limit: nat): (r: seq<Record>)
    ensures |r| == if limit < |Filter(all, IsRated)| then limit else |Filter(all, IsRated)|
    ensures multiset(r) <= multiset(Filter(all, IsRated))
    ensures |r| < limit ==> multiset(r) == multiset(Filter(all, IsRated))
    ensures forall x :: x in r ==> x in all && x.imdbRating.Tenths?
  {
    var r := Ranked(all, IsRated, ByRatingDesc, limit);
    RankedMembers(all, IsRated, ByRatingDesc, limit, r);
    assert forall x :: x in r ==> x in all && IsRated(x);
    r
  }

  /** `getTopRated` puts higher ratings first and leaves out no rated record rated above one it kept. */
  lemma TopRatedRanks(all: seq<Record>, limit: nat)
    ensures var r := TopRated(all, limit);
      && (forall i, j :: 0 <= i < j < |r| ==> RatingKey(r[i]) >= RatingKey(r[j]))
      && (forall x, y :: x in all && IsRated(x) && x !in r && y in r ==> RatingKey(y) >= RatingKey(x))
  {
    var r := TopRated(all, limit);
    RankedIsOrdered(all, IsRated, ByRatingDesc, limit, r);
    RankedDominates(all, IsRated, ByRatingDesc, limit, r);
  }

  /** `getTrending`'s filter: rating and vote count both present and not "N/A". */
  predicate HasTrendingData(x: Record) {
    IsRated(x) && Truthy(x.imdbVotes) && x.imdbVotes.value != "N/A"
  }

  /** `getTrending(limit)`: records with a rating and a vote count, by rating times votes. */
  function Trending(all: seq<Record>, limit: nat): (r: seq<Record>)
    ensures |r| == if limit < |Filter(all, HasTrendingData)| then limit else |Filter(all, HasTrendingData)|
    ensures multiset(r) <= multiset(Filter(all, HasTrendingData))
    ensures |r| < limit ==> multiset(r) == multiset(Filter(all, HasTrendingData))
    ensures forall x :: x in r ==> (x in all && x.imdbRating.Tenths? && x.imdbVotes.Some?
                                    && x.imdbVotes.value != "" && x.imdbVotes.value != "N/A")
  {
    var r := Ranked(all, HasTrendingData, ByTrendingDesc, limit);
    RankedMembers(all, HasTrendingData, ByTrendingDesc, limit, r);
    assert forall x :: x in r ==> x in all && HasTrendingData(x);
    r
  }

  /** `getTrending` puts higher scores first. */
  lemma TrendingIsDescending(all: seq<Record>, limit: nat)
    ensures var r := Trending(all, limit);
      forall i, j :: 0 <= i < j < |r| ==> TrendingScore(r[i]) >= TrendingScore(r[j])
  {
    RankedIsOrdered(all, HasTrendingData, ByTrendingDesc, limit, Trending(all, limit));
  }

  /** `getTrending` leaves out nothing that outscores a record it kept. */
  lemma TrendingKeepsTheTop(all: seq<Record>, limit: nat)
    ensures var r := Trending(all, limit);
      forall x, y :: x in all && HasTrendingData(x) && x !in r && y in r ==>
        TrendingScore(y) >= TrendingScore(x)
  {
    var r := Trending(all, limit);
    RankedDominates(all, HasTrendingData, ByTrendingDesc, limit, r);
    forall x, y | x in all && HasTrendingData(x) && x !in r && y in r
      ensures TrendingScore(y) >= TrendingScore(x)
    {
      assert Precedes(ByTrendingDesc, y, x);
    }
  }

  // ------------------------------------------------------------ random picks

  /** What `getRandom` returns: one record (or `null`), or a list. */
  datatype Pick = Single(choice: Option<Record>) | Several(items: seq<Record>)

  /**
   * `getRandom(count)`, with the shuffle made by `Math.random` supplied as
   * `shuffled`, some ordering of the repository.
   */
  function Random(all: seq<Record>, count: nat, shuffled: seq<Record>): (r: Pick)
    requires multiset(shuffled) == multiset(all)
    ensures r.Single? <==> count == 1
    ensures r.Single? ==> (r.choice.None? <==> all == [])
    ensures r.Single? && r.choice.Some? ==> r.choice.value in all
    ensures r.Single? && r.choice.Some? ==> shuffled != [] && r.choice.value == shuffled[0]
    ensures r.Several? ==> |r.items| == (if count < |all| then count else |all|)
    ensures r.Several? ==> r.items <= shuffled
    ensures r.Several? ==> forall x :: x in r.items ==> x in all
    ensures r.Several? && |all| <= count ==> multiset(r.items) == multiset(all)
  {
    assert |shuffled| == |all| by {
      assert |multiset(shuffled)| == |multiset(all)|;
    }
    assert forall x :: x in shuffled ==> x in all by {
      assert forall x :: x in shuffled <==> x in multiset(shuffled);
    }
    if all == [] then
      if count == 1 then Single(None) else Several([])
    else if count == 1 then
      Single(Some(shuffled[0]))
    else
      var r := Take(shuffled, count);
      assert |all| <= count ==> r == shuffled;
      Several(r)
  }

  // ------------------------------------------------------------ homepage

  /** `item.Genre?.includes('Sci-Fi') || item.Genre?.includes('Fantasy')`, case-sensitive. */
  predicate IsSciFiOrFantasy(x: Record) {
    x.Genre.Some? && (Contains(x.Genre.value, "Sci-Fi") || Contains(x.Genre.value, "Fantasy"))
  }

  datatype Categories = Categories(
    hero: seq<Record>,
    continueWatching: seq<Record>,
    topRated: seq<Record>,
    popular: seq<Record>,
    series: seq<Record>,
    action: seq<Record>,
    drama: seq<Record>,
    sciFi: seq<Record>,
    comingSoon: seq<Record>,
    awardWinners: seq<Record>,
    trending: seq<Record>)

  /** `getHomepageCategories()`, with the shuffle behind `hero` supplied as `shuffled`. */
  function HomepageCategories(all: seq<Record>, shuffled: seq<Record>): (r: Categories)
    requires multiset(shuffled) == multiset(all)
    ensures |r.hero| == (if 5 < |all| then 5 else |all|)
    ensures r.hero <= shuffled
    ensures forall x :: x in r.hero ==> x in all
    ensures r.popular == Movies(all)
    ensures |r.continueWatching| == (if 6 < |r.popular| then 6 else |r.popular|)
    ensures r.continueWatching == r.popular[..|r.continueWatching|]
    ensures r.topRated == TopRated(all, 10)
    ensures r.series == Series(all)
    ensures r.action == ByGenre(all, "Action") && r.drama == ByGenre(all, "Drama")
    ensures forall x :: x in r.sciFi <==> x in all && IsSciFiOrFantasy(x)
    ensures IsSubsequence(r.sciFi, all)
    ensures r.comingSoon == ComingSoon(all)
    ensures r.awardWinners == AwardWinners(all)
    ensures r.trending == Trending(all, 10)
  {
    var movies := Movies(all);
    Categories(
      hero := Random(all, 5, shuffled).items,
      continueWatching := Take(movies, 6),
      topRated := TopRated(all, 10),
      popular := movies,
      series := Series(all),
      action := ByGenre(all, "Action"),
      drama := ByGenre(all, "Drama"),
      sciFi := Filter(all, IsSciFiOrFantasy),
      comingSoon := ComingSoon(all),
      awardWinners := AwardWinners(all),
      trending := Trending(all, 10))
  }

  // ------------------------------------------------------------ multi-criteria filter

  /** The argument object of `filterContent`; `None` is an omitted key. */
  datatype FilterArgs = FilterArgs(
    contentType: Option<string>,
    genre: Option<string>,
    minRating: Option<int>,
    year: Option<string>,
    comingSoon: Option<bool>)

  /** `if (minRating)`: an omitted, NaN (also `None`) or zero bound imposes nothing. */
  predicate ActiveMinRating(m: Option<int>) {
    m.Some? && m.value != 0
  }

  /** `!isNaN(rating) && rating >= minRating`, in tenths. */
  predicate RatedAtLeast(x: Record, minRating: int) {
    x.imdbRating.Tenths? && x.imdbRating.value >= minRating
  }

  /** A record meets every criterion that `args` supplies. */
  predicate Matches(args: FilterArgs, x: Record) {
    && (Truthy(args.contentType) ==> x.Type == args.contentType)
    && (Truthy(args.genre) ==> GenreIncludes(x, Lower(args.genre.value)))
    && (ActiveMinRating(args.minRating) ==> RatedAtLeast(x, args.minRating.value))
    && (Truthy(args.year) ==> YearIncludes(x, args.year.value))
    && (args.comingSoon.Some? ==> x.ComingSoon == args.comingSoon.value)
  }

  /** Criterion `k` of `filterContent`, in the order it applies them; one `args` leaves out imposes nothing. */
  predicate Criterion(args: FilterArgs, k: nat, x: Record) {
    if k == 0 then Truthy(args.contentType) ==> x.Type == args.contentType
    else if k == 1 then Truthy(args.genre) ==> GenreIncludes(x, Lower(args.genre.value))
    else if k == 2 then ActiveMinRating(args.minRating) ==> RatedAtLeast(x, args.minRating.value)
    else if k == 3 then Truthy(args.year) ==> YearIncludes(x, args.year.value)
    else if k == 4 then args.comingSoon.Some? ==> x.ComingSoon == args.comingSoon.value
    else true
  }

  /** `x` meets the first `k` criteria. */
  predicate Stage(args: FilterArgs, k: nat, x: Record) {
    k == 0 || (Stage(args, k - 1, x) && Criterion(args, k - 1, x))
  }

  /** `filtered` is the order-keeping filter of `all` by the first `k` criteria. */
  ghost predicate FilteredUpTo(filtered: seq<Record>, all: seq<Record>, args: FilterArgs, k: nat) {
    && IsSubsequence(filtered, all)
    && forall x :: multiset(filtered)[x] == if Stage(args, k, x) then multiset(all)[x] else 0
  }

  /** Filtering by `q`, which is criterion `k`, reaches stage `k + 1`. */
  lemma Narrow(filtered: seq<Record>, all: seq<Record>, args: FilterArgs, k: nat, q: Record -> bool)
    requires FilteredUpTo(filtered, all, args, k)
    requires forall x :: q(x) == Criterion(args, k, x)
    ensures FilteredUpTo(Filter(filtered, q), all, args, k + 1)
  {
    FilterCounts(filtered, q);
    SubsequenceTransitive(Filter(filtered, q), filtered, all);
  }

  /** A criterion that imposes nothing leaves the stage where it was. */
  lemma Skip(filtered: seq<Record>, all: seq<Record>, args: FilterArgs, k: nat)
    requires FilteredUpTo(filtered, all, args, k)
    requires forall x :: Criterion(args, k, x)
    ensures FilteredUpTo(filtered, all, args, k + 1)
  {
  }

  /** Meeting the five criteria is `Matches`. */
  lemma {:induction false} AllStages(filtered: seq<Record>, all: seq<Record>, args: FilterArgs)
    requires FilteredUpTo(filtered, all, args, 5)
    ensures IsSubsequence(filtered, all)
    ensures forall x :: x in filtered <==> x in all && Matches(args, x)
    ensures forall x :: multiset(filtered)[x] == if Matches(args, x) then multiset(all)[x] else 0
  {
    forall x ensures Stage(args, 5, x) == Matches(args, x) {
      assert Stage(args, 5, x) == (Stage(args, 4, x) && Criterion(args, 4, x));
      assert Stage(args, 4, x) == (Stage(args, 3, x) && Criterion(args, 3, x));
      assert Stage(args, 3, x) == (Stage(args, 2, x) && Criterion(args, 2, x));
      assert Stage(args, 2, x) == (Stage(args, 1, x) && Criterion(args, 1, x));
      assert Stage(args, 1, x) == Criterion(args, 0, x);
    }
    assert forall x :: x in filtered <==> x in multiset(filtered);
    assert forall x :: x in all <==> x in multiset(all);
  }

  /** Step `k` of `filterContent`: narrows `filtered` by criterion `k` when `args` supplies it. */
  method ApplyCriterion(filtered: seq<Record>, ghost all: seq<Record>, args: FilterArgs, k: nat)
    returns (narrowed: seq<Record>)
    requires k < 5
    requires FilteredUpTo(filtered, all, args, k)
    ensures FilteredUpTo(narrowed, all, args, k + 1)
  {
    narrowed := filtered;
    if k == 0 && Truthy(args.contentType) {
      var t := args.contentType;
      var q := (x: Record) => x.Type == t;
      Narrow(filtered, all, args, k, q);
      narrowed := Filter(filtered, q);
    } else if k == 1 && Truthy(args.genre) {
      var g := Lower(args.genre.value);
      var q := (x: Record) => GenreIncludes(x, g);
      Narrow(filtered, all, args, k, q);
      narrowed := Filter(filtered, q);
    } else if k == 2 && ActiveMinRating(args.minRating) {
      var m := args.minRating.value;
      var q := (x: Record) => RatedAtLeast(x, m);
      Narrow(filtered, all, args, k, q);
      narrowed := Filter(filtered, q);
    } else if k == 3 && Truthy(args.year) {
      var y := args.year.value;
      var q := (x: Record) => YearIncludes(x, y);
      Narrow(filtered, all, args, k, q);
      narrowed := Filter(filtered, q);
    } else if k == 4 && args.comingSoon.Some? {
      var c := args.comingSoon.value;
      var q := (x: Record) => x.ComingSoon == c;
      Narrow(filtered, all, args, k, q);
      narrowed := Filter(filtered, q);
    } else {
      Skip(filtered, all, args, k);
    }
  }

  /**
   * `filterContent(args)`: narrows a copy of the repository by each supplied
   * criterion in turn; the result is exactly the records meeting all of
   * them, each as often as in the repository, in repository order.
   */
  method FilterContent(all: seq<Record>, args: FilterArgs) returns (filtered: seq<Record>)
    ensures IsSubsequence(filtered, all)
    ensures forall x :: x in filtered <==> x in all && Matches(args, x)
    ensures forall x :: multiset(filtered)[x] == if Matches(args, x) then multiset(all)[x] else 0
  {
    filtered := all;
    SubsequenceReflexive(all);
    assert FilteredUpTo(filtered, all, args, 0);
    filtered := ApplyCriterion(filtered, all, args, 0);
    filtered := ApplyCriterion(filtered, all, args, 1);
    filtered := ApplyCriterion(filtered, all, args, 2);
    filtered := ApplyCriterion(filtered, all, args, 3);
    filtered := ApplyCriterion(filtered, all, args, 4);
    AllStages(filtered, all, args);
  }

  // ------------------------------------------------------------ similar content

  /** `content.Genre?.split(',').map(g => g.trim().toLowerCase()) || []`. */
  function SeedGenres(seed: Record): (gs: seq<string>)
    ensures seed.Genre.None? ==> gs == []
    ensures seed.Genre.Some? ==> |gs| == |Split(seed.Genre.value, ',')|
    ensures seed.Genre.Some? ==> forall k :: 0 <= k < |gs| ==> gs[k] == Lower(Trim(Split(seed.Genre.value, ',')[k]))
  {
    match seed.Genre
    case None => []
    case Some(g) =>
      var pieces := Split(g, ',');
      seq(|pieces|, k requires 0 <= k < |pieces| => Lower(Trim(pieces[k])))
  }

  /** The filter of `getSimilarContent`: another id, the same Type, a shared genre token. */
  predicate IsSimilar(seed: Record, genres: seq<string>, x: Record) {
    && x.imdbID != seed.imdbID
    && x.Type == seed.Type
    && exists k :: 0 <= k < |genres| && GenreIncludes(x, genres[k])
  }

  /** The records of the repository, in its order, that are similar to `seed`. */
  function SimilarTo(all: seq<Record>, seed: Record): (r: seq<Record>)
    ensures forall x :: x in r <==> x in all && IsSimilar(seed, SeedGenres(seed), x)
    ensures IsSubsequence(r, all)
  {
    Filter(all, (x: Record) => IsSimilar(seed, SeedGenres(seed), x))
  }

  /**
   * `getSimilarContent(id, limit)`: nothing for an unknown id; otherwise the
   * first `limit` records, in repository order, that share the seed's Type
   * and one of its genre tokens and carry a different `imdbID`.
   */
  function SimilarContent(all: seq<Record>, contentId: string, limit: nat): (r: seq<Record>)
    ensures ContentById(all, contentId).None? ==> r == []
    ensures |r| <= limit
    ensures IsSubsequence(r, all)
    ensures ContentById(all, contentId).Some? ==>
      var seed := ContentById(all, contentId).value;
      var similar := SimilarTo(all, seed);
      && |r| == (if limit < |similar| then limit else |similar|)
      && r == similar[..|r|]
      && seed !in r
      && (forall x :: x in r ==> (x.imdbID != seed.imdbID && x.Type == seed.Type
                                  && exists k :: 0 <= k < |SeedGenres(seed)| && GenreIncludes(x, SeedGenres(seed)[k])))
  {
    match ContentById(all, contentId)
    case None => []
    case Some(seed) =>
      var matches := SimilarTo(all, seed);
      var r := Take(matches, limit);
      PrefixIsSubsequence(matches, |r|);
      SubsequenceTransitive(r, matches, all);
      SubsequenceMembers(r, matches);
      r
  }

  // ------------------------------------------------------------ statistics

  /** The count fields of `getLibraryStats()`. */
  datatype Stats = Stats(total: nat, movies: nat, series: nat, comingSoon: nat)

  /** `getLibraryStats()` without `avgRating`: the size of the repository and of three of its views. */
  function LibraryStats(all: seq<Record>): (r: Stats)
    ensures r.total == |all|
    ensures r.movies == |Movies(all)| && r.series == |Series(all)| && r.comingSoon == |ComingSoon(all)|
    ensures r.movies + r.series <= r.total
    ensures r.movies + r.comingSoon <= r.total
    ensures r.series <= r.total && r.comingSoon <= r.total
    ensures r.total == 0 ==> r.movies == 0 && r.series == 0 && r.comingSoon == 0
  {
    FilterDisjointLengths(all, IsReleasedMovie, IsSeries);
    FilterDisjointLengths(all, IsReleasedMovie, IsComingSoon);
    Stats(|all|, |Movies(all)|, |Series(all)|, |ComingSoon(all)|)
  }
}
