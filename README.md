# Prime Video clone: catalog, store and UI state machines in Dafny

This project models the logic part of a Prime-Video-style React front end. It has five pieces, one module each, plus the primitives they share:

- **Catalog** (`catalog.dfy`, from `src/services/dataService.js`). The data service builds one repository from three bundled lists. It concatenates them and keeps, for each `imdbID`, the first record carrying it. The service then answers stateless queries over that repository:
  - lookup by `id` or `imdbID`;
  - filters by type, genre, year, coming-soon, awards and rating range;
  - a five-field substring search;
  - top-rated and trending rankings with a limit;
  - a random pick;
  - the homepage categories;
  - the multi-criteria `filterContent`;
  - similar content;
  - library counts.

  The queries are functions over the repository (`all`), because the code computes them as `filter`/`sort`/`slice` chains. `filterContent` narrows a local variable step by step, so it is a method.
- **Store** (`store.dfy`, from `src/context/AppContext.jsx`). The `AppProvider` is a class with the state cells `selectedMovie`, `isModalOpen`, `searchQuery` and `watchlist`, plus `persisted`, the contents of the `prime-video-watchlist` storage entry. Every watchlist change writes through to storage. The watchlist operations are also given as values (`Toggle`, `RemoveId`), with the round-trip and unique-id lemmas.
- **Browse page** (`browse.dfy`, from `src/components/BrowsePage.jsx`):
  - the genre list and the year list, built by loops that add into a set, then sorted (and reversed for years);
  - the `filterContent` arguments the page passes;
  - the four comparators applied in place by `Array.prototype.sort`.
- **Hero carousel** (`carousel.dfy`, from `src/components/HeroCarousel.jsx`). A class over `currentIndex`, `isAutoPlaying`, `direction` and the featured slice, with JavaScript's truncating `%`.
- **Header search box** (`header.dfy`, from `src/components/HeaderComp.jsx`). A class over `searchOpen` and `localSearch` that publishes into the provider's `searchQuery` under the length-threshold rule.

Shared primitives:
- `text.dfy`: the ECMAScript string operations the code uses, following the ECMAScript language specification within the limits listed under "## Left out" (ASCII-only case folding, characters rather than UTF-16 code units, code-unit order for `localeCompare`):
  - ASCII `toLowerCase`;
  - `trim` with the WhiteSpace and LineTerminator set;
  - `split` on one character;
  - `includes`;
  - comma removal;
  - `parseInt`;
  - code-unit order.
- `seqs.dfy`: `filter`, `slice(0, n)` and the subsequence relation.
- `sorting.dfy`: `Array.prototype.sort` as the stable insertion sort. ECMAScript requires a stable sort, and for a consistent comparator that pins the result down exactly. It exists as a function and as an in-place array method proved equal to it.
- `content.dfy`: the record datatype, with every field optional, and the sort keys.

Ratings are whole numbers of tenths (`Tenths(85)` is "8.5"). A missing rating and the text "N/A" are the two other rating values. Vote counts are strings with commas, stripped before `parseInt`.

## Model

| member | source | states |
|---|---|---|
| Catalog.FindIndex | src/services/dataService.js:26 | `self.findIndex(m => m.imdbID === id)`: -1 exactly when no record carries the id, otherwise the first index that does |
| Catalog.KeepFirsts | src/services/dataService.js:24-27 | the first-occurrence filter from a scan position keeps at most the records from that position on |
| Catalog.CombineAndDeduplicate | src/services/dataService.js:23-28 | the result is a subsequence of the input; no two kept records share an `imdbID`; every kept record is the first input record with its id; the first record of every id in the input is kept; the kept records come in the order of their ids' first occurrences |
| Catalog.KeepFirstsMembers | src/services/dataService.js:24-27 | the filter keeps a record exactly when it sits at the first index of its id, at or after the scan position |
| Catalog.KeepFirstsUnique | src/services/dataService.js:24-27 | no two records kept by the first-occurrence filter share an id |
| Catalog.KeepFirstsSubsequence | src/services/dataService.js:24-27 | the first-occurrence filter keeps input order |
| Catalog.KeepFirstsOrdered | src/services/dataService.js:24-27 | the first-occurrence filter lists its records by increasing first index of their ids |
| Catalog.DeduplicateKeepsEveryId | src/services/dataService.js:23-28 | every id present in the input is present in the result |
| Catalog.DeduplicateKeepsFirsts | src/services/dataService.js:23-28 | a kept record equals, or comes earlier than, every input record with its id |
| Catalog.Load | src/services/dataService.js:11-18 | the repository has unique ids, is a subsequence of the three lists concatenated in order, and lists its records in the order their ids first occur in that concatenation |
| Catalog.LoadKeepsFirstOfEachId | src/services/dataService.js:11-18 | the repository built from the three lists has unique ids, is a subsequence of their concatenation, has a record for every input id, and keeps the first record of each id |
| Catalog.AtMostOneWithoutId | src/services/dataService.js:11-27 | records without an `imdbID` compare equal under `===`, so the repository built from the three lists holds at most one of them |
| Catalog.ContentById | src/services/dataService.js:40-42 | `None` exactly when no record matches by `id` or `imdbID`; otherwise the first record that matches by either |
| Catalog.ContentByType | src/services/dataService.js:47-49 | exactly the records of that `Type`, in repository order |
| Catalog.Movies | src/services/dataService.js:54-58 | exactly the movies not marked coming soon, in order |
| Catalog.Series | src/services/dataService.js:63-65 | exactly the series, in order |
| Catalog.ComingSoon | src/services/dataService.js:70-72 | exactly the records marked coming soon, in order |
| Catalog.ByGenre | src/services/dataService.js:77-81 | exactly the records whose lowercased Genre contains the lowercased genre, in order; records without a Genre are dropped |
| Catalog.AwardWinners | src/services/dataService.js:96-103 | exactly the records with non-empty Awards that do not contain "N/A" and whose lowercase contains "won", in order |
| Catalog.ByYear | src/services/dataService.js:108-112 | exactly the records whose Year text contains the given text, in order |
| Catalog.ByRatingRange | src/services/dataService.js:154-159 | exactly the records with a numeric rating between the two bounds, both inclusive, in order |
| Catalog.Search | src/services/dataService.js:127-149 | `[]` for an absent or all-whitespace query; otherwise exactly the records where one of Title, Genre, Actors, Director or Plot, lowercased, contains the lowercased trimmed query, in repository order |
| Catalog.Ranked | src/services/dataService.js:87-90 | filter, sort and `slice(0, limit)`: `min(limit, candidates)` records, none repeated beyond its multiplicity among the candidates |
| Catalog.RankedMembers | src/services/dataService.js:87-90 | a filter-sort-slice ranking returns `min(limit, candidates)` records, never a record more often than it occurs among the candidates, only candidates, and every candidate (with its multiplicity) when it returns fewer than `limit` |
| Catalog.RankedIsOrdered | src/services/dataService.js:87-90 | a ranking is in comparator order |
| Catalog.RankedDominates | src/services/dataService.js:87-90 | no candidate left out of a ranking goes ahead of one it kept |
| Catalog.RankedIsTopK | src/services/dataService.js:87-90 | the size, sub-multiset, membership, order and dominance properties above, together: the result is a top-`limit` selection of the candidates |
| Catalog.TopRated | src/services/dataService.js:86-91 | `min(limit, rated)` records drawn from the rated records without repeats beyond theirs, every rated record when fewer qualify, and each one rated (not missing, not "N/A") |
| Catalog.TopRatedRanks | src/services/dataService.js:86-91 | ratings never rise along the result, and no rated record left out has a higher rating than a kept one |
| Catalog.Trending | src/services/dataService.js:164-182 | `min(limit, eligible)` records drawn from the eligible records without repeats beyond theirs, every eligible record when fewer qualify, each with a rating and a vote count present and not "N/A" |
| Catalog.TrendingIsDescending | src/services/dataService.js:173-180 | rating × comma-stripped vote count never rises along the result |
| Catalog.TrendingKeepsTheTop | src/services/dataService.js:164-182 | no eligible record left out scores higher than a kept one |
| Catalog.Random | src/services/dataService.js:187-193 | for `count == 1`, `null` exactly for an empty repository and otherwise the first record of the shuffle; for other counts, the first `min(count, size)` records of the shuffle, and all of the repository when `count` reaches the size |
| Catalog.HomepageCategories | src/services/dataService.js:198-218 | hero is the first `min(5, size)` records of the shuffle; popular is `getMovies()` and continue-watching its first six; top-rated and trending are the rankings with limit 10; series, action, drama, coming-soon and award winners are the corresponding queries; sci-fi is exactly the records whose Genre contains "Sci-Fi" or "Fantasy", in order |
| Catalog.Narrow | src/services/dataService.js:226-251 | filtering by criterion `k` takes the filter from the first `k` criteria to the first `k + 1` |
| Catalog.Skip | src/services/dataService.js:226-251 | a criterion the arguments leave out changes nothing |
| Catalog.AllStages | src/services/dataService.js:223-254 | passing all five criteria is exactly `Matches`: the result holds the matching records, each as often as in the repository, in order |
| Catalog.ApplyCriterion | src/services/dataService.js:226-251 | one `if` block of `filterContent`: from stage `k` to stage `k + 1` |
| Catalog.FilterContent | src/services/dataService.js:223-254 | exactly the records meeting every supplied criterion, each as often as in the repository, in repository order; a falsy type, genre, rating bound (zero included) or year, and an absent `comingSoon`, impose nothing |
| Catalog.SeedGenres | src/services/dataService.js:263 | the seed's comma-separated genre tokens, each trimmed and lowercased; no tokens without a Genre |
| Catalog.SimilarTo | src/services/dataService.js:265-271 | exactly the records similar to the seed, in repository order |
| Catalog.SimilarContent | src/services/dataService.js:259-273 | `[]` for an unknown id; otherwise exactly the first `min(limit, matches)` of the similar records in repository order: none with the seed's `imdbID`, all of the seed's Type, each whose lowercased Genre contains one of the seed's tokens |
| Catalog.LibraryStats | src/services/dataService.js:278-283 | total is the repository size; movies, series and coming-soon are the lengths of `getMovies()`, `getSeries()` and `getComingSoon()`, which stay within the total, as do movies plus series and movies plus coming-soon |
| Store.RemoveId | src/context/AppContext.jsx:60 | no entry with the id remains; the others stay, in order |
| Store.RemoveAbsentId | src/context/AppContext.jsx:60 | removing an id the list does not hold returns the list unchanged |
| Store.RemoveIdKeepsOthers | src/context/AppContext.jsx:60 | every entry with another id keeps its multiplicity, and entries with the id are gone |
| Store.Toggle | src/context/AppContext.jsx:41-57 | the list holds the movie's id afterwards exactly when it did not before; an absent id appends the movie; a present id removes every entry with it and keeps the rest in order |
| Store.ToggleTwice | src/context/AppContext.jsx:41-57 | toggling a movie whose id is absent, twice, restores the list exactly |
| Store.FilterKeepsUniqueIds | src/context/AppContext.jsx:48-50 | filtering keeps ids unique |
| Store.AppendKeepsUniqueIds | src/context/AppContext.jsx:54 | appending a movie with a new id keeps ids unique |
| Store.ChangesKeepUniqueIds | src/context/AppContext.jsx:41-70 | toggling, removing and clearing all keep ids unique |
| Store.AppProvider.constructor | src/context/AppContext.jsx:14-21 | nothing selected, modal closed, empty query; the watchlist is the saved list when one is stored and `[]` otherwise |
| Store.AppProvider.SaveWatchlist | src/context/AppContext.jsx:24-27 | storage and state both hold the new list; nothing else changes |
| Store.AppProvider.OpenModal | src/context/AppContext.jsx:29-33 | selects the movie and opens the modal; flag and selection agree for a real movie; the rest is unchanged |
| Store.AppProvider.CloseModal | src/context/AppContext.jsx:35-39 | closes the modal and clears the selection; the rest is unchanged |
| Store.AppProvider.SetSearchQuery | src/context/AppContext.jsx:16 | only the query cell changes |
| Store.AppProvider.AddToWatchlist | src/context/AppContext.jsx:41-57 | the watchlist becomes the toggle of the old one; unique ids are kept; storage holds the new list; modal and query are unchanged |
| Store.AppProvider.RemoveFromWatchlist | src/context/AppContext.jsx:59-62 | no entry with the id remains, the rest keep their order, unique ids are kept, storage holds the new list |
| Store.AppProvider.IsInWatchlist | src/context/AppContext.jsx:64-66 | true exactly when some entry carries the id |
| Store.AppProvider.ClearWatchlist | src/context/AppContext.jsx:68-70 | both the list and the storage entry are empty |
| Browse.SetAdd | src/components/BrowsePage.jsx:20 | `Set.add`: the members gain the value, and a duplicate-free list stays duplicate-free |
| Browse.StringOrderIsTotalPreorder | src/components/BrowsePage.jsx:35 | the default `sort` order on strings is a consistent comparator |
| Browse.SortedStrings | src/components/BrowsePage.jsx:35 | `Array.from(set).sort()`: a fresh array holding the same strings in strictly ascending order |
| Browse.AddGenreTokens | src/components/BrowsePage.jsx:18-22 | one record's trimmed comma tokens are added to the set, which stays duplicate-free |
| Browse.GenreSeenStep | src/components/BrowsePage.jsx:17-23 | one more record adds exactly its genre tokens to the genres seen |
| Browse.DeriveGenres | src/components/BrowsePage.jsx:15-35 | strictly ascending, so without duplicates, and holding exactly the trimmed comma tokens of the records that have a Genre |
| Browse.YearChoice | src/components/BrowsePage.jsx:28-29 | a year only for a present, non-empty year that is not "N/A"; it is the whole Year text before its first '–' (or all of it when there is none) |
| Browse.DeriveYears | src/components/BrowsePage.jsx:25-36 | strictly descending, so without duplicates, and holding exactly the chosen year of each record that has one |
| Browse.ReversedAscending | src/components/BrowsePage.jsx:36 | `reverse()` turns a strictly ascending list into a strictly descending one with the same members |
| Browse.MinRatingArg | src/components/BrowsePage.jsx:47 | an empty selection passes no bound; a number passes it in tenths; text that does not parse imposes no bound |
| Browse.BrowseArgs | src/components/BrowsePage.jsx:43-49 | `comingSoon` is false; type, genre and year are the page's media type and selections; the rating bound is the converted selection, none for an empty one |
| Browse.InitialArgsFilterByTypeOnly | src/components/BrowsePage.jsx:7-9 | with the initial empty selections a record passes exactly when it has the media type and is not coming soon |
| Browse.SortOrder | src/components/BrowsePage.jsx:52-81 | a comparator is selected exactly for the four keys rating, year, title and votes |
| Browse.SortBy | src/components/BrowsePage.jsx:52-81 | the array is permuted in place; a known key sorts it stably by its comparator (ratings, years and votes never rise, titles ascend); an unknown key leaves it unchanged |
| Browse.Results | src/components/BrowsePage.jsx:41-84 | a permutation of the `filterContent` output for the page's arguments: only records of the media type, never a coming-soon record, empty when no record has that type (as for "tv", src/components/App.jsx:26), ordered by the chosen key, and in repository order for an unknown key |
| Carousel.Featured | src/components/HeroCarousel.jsx:11-12 | at most six records: the prefix of an array, a lone truthy value as a one-record list, nothing for a falsy value |
| Carousel.JsRem | src/components/HeroCarousel.jsx:18 | JavaScript's `%` for a positive divisor: below the divisor in size, with the sign of the dividend, and the Euclidean remainder for a non-negative dividend |
| Carousel.JsRemIsOdd | src/components/HeroCarousel.jsx:18 | negating the dividend negates the remainder |
| Carousel.NextIndex | src/components/HeroCarousel.jsx:18 | `(prev + 1) % n`: smaller than `n` in size, and from any index not below -1 the Euclidean remainder, on a slide |
| Carousel.PrevIndex | src/components/HeroCarousel.jsx:24-26 | from a slide, a slide whose successor (mod `n`) is the slide it started from |
| Carousel.NextWraps | src/components/HeroCarousel.jsx:18 | inside the slides, next steps forward and wraps from the last slide to the first |
| Carousel.NextLandsOnASlide | src/components/HeroCarousel.jsx:18 | from any index not below -1, next lands on a slide |
| Carousel.PrevStaysOnASlide | src/components/HeroCarousel.jsx:24-26 | inside the slides, prev stays inside them |
| Carousel.PrevUndoesNext | src/components/HeroCarousel.jsx:15-27 | prev right after next returns to the starting slide |
| Carousel.NextUndoesPrev | src/components/HeroCarousel.jsx:15-27 | next right after prev returns to the starting slide |
| Carousel.HeroCarousel.constructor | src/components/HeroCarousel.jsx:6-12 | first slide, autoplay on, direction next, featured slice of the prop |
| Carousel.HeroCarousel.Receive | src/components/HeroCarousel.jsx:11-12 | a new prop recomputes the featured slice and keeps the state cells |
| Carousel.HeroCarousel.GoToNext | src/components/HeroCarousel.jsx:15-19 | no change without slides; otherwise the index becomes `(index + 1) % n` and the direction next; the index stays in range |
| Carousel.HeroCarousel.GoToPrev | src/components/HeroCarousel.jsx:21-27 | no change without slides; otherwise 0 goes to `n - 1`, any other index down by one, direction prev; an index in range stays in range |
| Carousel.HeroCarousel.GoToSlide | src/components/HeroCarousel.jsx:29-34 | the index becomes the target, the direction is next exactly when the target is above the old index, autoplay stops |
| Carousel.HeroCarousel.ResumeAutoplay | src/components/HeroCarousel.jsx:33 | the timeout turns autoplay back on and changes nothing else |
| Carousel.HeroCarousel.Tick | src/components/HeroCarousel.jsx:36-40 | an interval tick advances like next while autoplay is on and there are slides, and otherwise changes nothing |
| Carousel.HeroCarousel.CurrentMovie | src/components/HeroCarousel.jsx:13 | the slide at the index, or nothing off the ends |
| Carousel.HeroCarousel.Renders | src/components/HeroCarousel.jsx:43-49 | something renders exactly when the index is on a slide and that record has a Title; nothing without slides |
| Header.QueryAfterChange | src/components/HeaderComp.jsx:28-32 | more than two characters publish the text, an empty box publishes "", one or two characters keep the query |
| Header.ChangeFollows | src/components/HeaderComp.jsx:25-33 | after any change the query agrees with the box whenever the box is empty or longer than two characters |
| Header.ChangeIsIdempotent | src/components/HeaderComp.jsx:25-33 | the same change twice has the effect of one |
| Header.ChangePublishesTheBoxOrKeeps | src/components/HeaderComp.jsx:28-32 | a change publishes the new text or keeps the old query, never a third string |
| Header.SearchHeader.constructor | src/components/HeaderComp.jsx:9-10 | the box is closed and empty |
| Header.SearchHeader.HandleSearchSubmit | src/components/HeaderComp.jsx:20-23 | the query becomes the box's text |
| Header.SearchHeader.HandleSearchChange | src/components/HeaderComp.jsx:25-33 | the box takes the new text, the open flag is kept, and the query follows the length rule |
| Header.SearchHeader.ClearSearch | src/components/HeaderComp.jsx:35-39 | box and query empty, box closed |
| Header.SearchHeader.ToggleSearch | src/components/HeaderComp.jsx:133 | the open flag flips |
| Content.RatingKey | src/components/BrowsePage.jsx:55-56 | `parseFloat(rating)`, or 0 when that is NaN, in tenths: the rating for a numeric one, 0 for a missing or "N/A" one |
| Content.VotesKey | src/components/BrowsePage.jsx:74-75 | the `parseInt` of the comma-stripped vote text when that is a number, and 0 otherwise (absent text or NaN) |
| Content.VotesKeyOfNumeral | src/components/BrowsePage.jsx:74-75 | a vote count whose comma-stripped text is a numeral sorts by that number |
| Content.YearKey | src/components/BrowsePage.jsx:62-63 | `parseInt(Year) || 0`: the parsed leading integer, 0 for an absent year or NaN |
| Content.YearKeyOfRange | src/components/BrowsePage.jsx:62-63 | a year or a range such as "2019–2022" sorts by its first year |
| Content.TitleKey | src/components/BrowsePage.jsx:68-69 | `Title || ''`: the title when present and not empty, otherwise the empty string |
| Content.TrendingScore | src/services/dataService.js:175-178 | rating × votes: 0 for an unrated record or a zero vote key, and never negative for a non-negative vote key |
| Content.BeforeIsTotalPreorder | src/components/BrowsePage.jsx:52-78 | each comparator in the code (rating, votes, year, title, trending score) is total and transitive |
| Content.SortByOrder | src/services/dataService.js:89 | sorting by a code comparator gives a sorted permutation that keeps tied records in their original order |
| Content.SortedByKeys | src/components/BrowsePage.jsx:52-78 | a list sorted by a comparator has the matching key monotone along it |
| Sorting.InsertionSortIsSorted | src/components/BrowsePage.jsx:54 | the sort orders its output consistently with a consistent comparator |
| Sorting.InsertionSortIsStable | src/components/BrowsePage.jsx:54 | records the comparator ties keep their original order |
| Sorting.InsertionSortOfSorted | src/components/BrowsePage.jsx:54 | an already sorted input comes back unchanged |
| Sorting.PrefixDominates | src/services/dataService.js:90 | `slice(0, n)` of a sorted list leaves out nothing that ranks ahead of what it kept |
| Sorting.SortInPlace | src/components/BrowsePage.jsx:54 | sorting the array in place leaves exactly the sort function's result in it |
| Sorting.ReverseInPlace | src/components/BrowsePage.jsx:36 | reversing the array in place leaves exactly the reversed sequence |
| Text.Lower | src/services/dataService.js:79 | ASCII `toLowerCase`, character by character, length kept |
| Text.LowerIsIdempotent | src/services/dataService.js:132 | lowercasing twice is lowercasing once |
| Text.Trim | src/services/dataService.js:128 | `trim()`: a slice of the input with no whitespace at either end, and only whitespace cut off on both sides |
| Text.TrimEmptyIff | src/services/dataService.js:128 | the trimmed text is empty exactly when the text is all whitespace |
| Text.Split | src/components/BrowsePage.jsx:19 | `split(sep)`: at least one piece, none containing the separator, joined back with the separator they give the input |
| Text.SplitJoin | src/components/BrowsePage.jsx:19 | splitting a join of separator-free pieces gives the pieces back |
| Text.RemoveAll | src/services/dataService.js:176 | `replace(/,/g, '')`: no separator is left, every other character keeps its count, and the rest stays in order |
| Text.ParseInt | src/components/BrowsePage.jsx:62 | `parseInt` without a radix yields a number exactly when, after the leading whitespace, an optional sign and an optional `0x`/`0X` prefix, a digit of the base follows |
| Text.ParseIntOfDecimal | src/components/BrowsePage.jsx:62 | parsing a numeral followed by text that does not extend it (no digit, and no `x` after a lone `0`) gives the number back |
| Text.ParseIntReadsHexPrefix | src/components/BrowsePage.jsx:62 | the `0x` prefix: `parseInt("0x1A")` is 26, `parseInt("0x")` is NaN, `parseInt("-0Xff")` is -255 |
| Text.LexLeqTotal | src/components/BrowsePage.jsx:35 | the code-unit string order is total |
| Text.LexLeqTransitive | src/components/BrowsePage.jsx:35 | the code-unit string order is transitive |
| Text.LexLeqAntisymmetric | src/components/BrowsePage.jsx:35 | strings that each order before the other are equal |

## Left out

- `getRecentContent` (src/services/dataService.js:117-122) sorts by `new Date(released)`. Date parsing is not modelled, and no other core code calls it.
- `getAllContent` (src/services/dataService.js:33-35) only returns the repository: the `all` parameter every query takes.
- `avgRating` in `getLibraryStats` is floating-point division with `toFixed(1)`, and NaN for an unrated library. Only the count fields are modelled.
- Catalog.Random: the `Math.random` comparator is not modelled. The shuffled list is a parameter required to be a permutation of the repository; the result is stated as a prefix of it, so which records a shuffle yields is not stated.
- Catalog.HomepageCategories: the `hero` field inherits that parameter, so which records appear is not stated, only how many, that they come from the repository and that they lead the shuffle.
- Timers: HeroCarousel's six-second `setInterval` and ten-second `setTimeout` are callbacks the model exposes (`Tick`, `ResumeAutoplay`). When they fire, and clearing them, are not modelled.
- Listeners and the DOM: the window scroll listener, the Escape-key listeners and the `document.body.style` changes are left out.
- Storage: `localStorage` and `JSON.stringify`/`JSON.parse` are a `persisted` field holding the list. A malformed stored blob (which throws) and a stored empty string (which is falsy) are not modelled.
- React scheduling: state updates are applied immediately and in order. Batching and stale closures are not modelled.
- Content.RatingKey: ratings are whole tenths. A rating text that is neither a one-decimal number nor "N/A" cannot be represented, so `parseFloat` of other text is not modelled.
- Browse.MinRatingArg: the selection is read with `parseInt`, not `parseFloat`, and scaled to tenths. This agrees on the page's options ("", "7", "8", "9") but not on fractional text.
- Content.VotesKey and Content.TrendingScore: `parseInt` returning NaN is read as 0. In the votes comparator (src/components/BrowsePage.jsx:74-75) the `|| 0` sits inside `parseInt`, and in the trending score (src/services/dataService.js:176-178) there is none, so vote text that does not parse gives a NaN difference. That makes the JavaScript comparator inconsistent, and ECMAScript leaves the sort order implementation-defined; the model sorts such records as 0. The year comparator (`parseInt(a.Year) || 0`) already maps NaN to 0, so Content.YearKey is exact.
- Text.LexLeq: the title sort's `localeCompare` is locale-dependent, so plain code-unit order stands in for it.
- Text.Lower: `toLowerCase` is modelled on ASCII letters only.
- UTF-16: strings are sequences of characters, not of UTF-16 code units. Lengths (the header's `length > 2`) and order differ from JavaScript outside the Basic Multilingual Plane.
- Default arguments are not modelled: `getTopRated` and `getTrending` (`limit = 10`), `getRandom` (`count = 1`), `getSimilarContent` (`limit = 6`) and `getByRatingRange` (`maxRating = 10`) take every argument explicitly; the homepage passes 10, 10 and 5 as the source does.
- Limits are natural numbers. A negative `limit` passed to `slice` (which counts from the end) is not modelled.
- Browse.GenreTokens carries no contract of its own. What it computes is stated through Browse.AddGenreTokens and Browse.DeriveGenres.
- Record fields the core logic never reads (`poster`, `images`, `rated`, `released`) are left out of the datatype; only the markup and `getRecentContent` use them.
- Carousel.MoviesProp: a truthy `movies` prop that is not an array is taken to be one record. Other truthy values (numbers, strings) are not modelled.
- src/components/CategoryCarousel.jsx depends on DOM scroll metrics, and src/components/VideoPlayer.jsx on a trailer API that is not part of this model. Both are left out, as are all JSX markup and styling.
- The bundled data lists (`contentData`, `HomeTileData`, `ContentTileData`) are not part of this model. They are parameters of `Catalog.Load`.
