/**
 * A content record as the bundled data lists supply it: every field may be
 * missing, ratings are kept as a whole number of tenths, and the sort keys
 * the catalog and the browse page derive from a record.
 */
module Content {
  import opened Wrappers
  import opened Text
  import opened Sorting

  /**
   * `imdbRating`: missing or empty (falsy), the text "N/A", or a number with
   * one decimal, held as tenths ("8.5" is `Tenths(85)`).
   */
  datatype Rating = NoRating | RatingNA | Tenths(value: nat)

  /** One catalog entry; `None` is a field the record does not carry. */
  datatype Record = Record(
    id: Option<string>,
    imdbID: Option<string>,
    Title: Option<string>,
    Type: Option<string>,
    Genre: Option<string>,
    Year: Option<string>,
    imdbRating: Rating,
    imdbVotes: Option<string>,
    Awards: Option<string>,
    Actors: Option<string>,
    Director: Option<string>,
    Plot: Option<string>,
    ComingSoon: bool)

  /** No two records of the list carry the same `imdbID` (`===`, so at most one lacks one). */
  predicate UniqueIds(s: seq<Record>) {
    forall a, b :: 0 <= a < b < |s| ==> s[a].imdbID != s[b].imdbID
  }

  /** A string field that is present and not empty: what `if (field)` accepts. */
  predicate Truthy(o: Option<string>) {
    o.Some? && o.value != ""
  }

  /** `field?.toLowerCase() || ''`. */
  function LowerOrEmpty(o: Option<string>): string {
    Lower(o.GetOr(""))
  }

  /** `item.imdbRating && item.imdbRating !== 'N/A'`. */
  predicate IsRated(r: Record) {
    r.imdbRating != NoRating && r.imdbRating != RatingNA
  }

  /** `parseFloat(item.imdbRating) || 0`, in tenths. */
  function RatingKey(r: Record): (k: nat)
    ensures IsRated(r) <==> r.imdbRating.Tenths?
    ensures r.imdbRating.Tenths? ==> k == r.imdbRating.value
    ensures !r.imdbRating.Tenths? ==> k == 0
  {
    match r.imdbRating
    case Tenths(v) => v
    case _ => 0
  }

  /** `parseInt(item.imdbVotes?.replace(/,/g, '') || 0)`, NaN read as 0. */
  function VotesKey(r: Record): (k: int)
    ensures k != 0 ==> r.imdbVotes.Some? && ParseInt(RemoveAll(r.imdbVotes.value, ',')) == Some(k)
    ensures r.imdbVotes.Some? && ParseInt(RemoveAll(r.imdbVotes.value, ',')).Some? ==>
              k == ParseInt(RemoveAll(r.imdbVotes.value, ',')).value
  {
    match r.imdbVotes
    case None => 0
    case Some(v) =>
      var digits := RemoveAll(v, ',');
      if digits == "" then 0 else ParseInt(digits).GetOr(0)
  }

  /** `parseInt(item.Year) || 0`: the leading integer of the year text. */
  function YearKey(r: Record): (k: int)
    ensures k != 0 ==> r.Year.Some? && ParseInt(r.Year.value) == Some(k)
    ensures r.Year.Some? && ParseInt(r.Year.value).Some? ==> k == ParseInt(r.Year.value).value
  {
    match r.Year
    case None => 0
    case Some(y) => ParseInt(y).GetOr(0)
  }

  /** A vote count such as "1,234,567" sorts by the number its digits spell. */
  lemma VotesKeyOfNumeral(r: Record, n: nat)
    requires r.imdbVotes.Some? && RemoveAll(r.imdbVotes.value, ',') == Decimal(n)
    ensures VotesKey(r) == n
  {
    ParseIntOfDecimal(n, "");
    assert Decimal(n) + "" == Decimal(n);
  }

  /** A year or a year range such as "2019–2022" sorts by its first year. */
  lemma YearKeyOfRange(r: Record, n: nat, rest: string)
    requires r.Year == Some(Decimal(n) + rest)
    requires rest == [] || rest[0] == '–'
    ensures YearKey(r) == n
  {
    ParseIntOfDecimal(n, rest);
  }

  /** `item.Title || ''`. */
  function TitleKey(r: Record): (t: string)
    ensures Truthy(r.Title) ==> t == r.Title.value
    ensures !Truthy(r.Title) ==> t == ""
  {
    r.Title.GetOr("")
  }

  /** The trending score `rating * votes`, in tenths of a point. */
  function TrendingScore(r: Record): (score: int)
    ensures !IsRated(r) ==> score == 0
    ensures VotesKey(r) == 0 ==> score == 0
    ensures VotesKey(r) >= 0 ==> score >= 0
  {
    RatingKey(r) * VotesKey(r)
  }

  /** The comparators the code passes to `sort`. */
  datatype Order = ByRatingDesc | ByVotesDesc | ByYearDesc | ByTitleAsc | ByTrendingDesc

  /** `compare(a, b) <= 0` for the comparator `o`: `a` may stay ahead of `b`. */
  predicate Precedes(o: Order, a: Record, b: Record) {
    match o
    case ByRatingDesc => RatingKey(a) >= RatingKey(b)
    case ByVotesDesc => VotesKey(a) >= VotesKey(b)
    case ByYearDesc => YearKey(a) >= YearKey(b)
    case ByTitleAsc => LexLeq(TitleKey(a), TitleKey(b))
    case ByTrendingDesc => TrendingScore(a) >= TrendingScore(b)
  }

  function Before(o: Order): (Record, Record) -> bool {
    (a: Record, b: Record) => Precedes(o, a, b)
  }

  /** Every comparator in the code is consistent, so its sort result is determined. */
  lemma BeforeIsTotalPreorder(o: Order)
    ensures TotalPreorder(Before(o))
  {
    if o == ByTitleAsc {
      forall a: Record, b: Record ensures Precedes(o, a, b) || Precedes(o, b, a) {
        LexLeqTotal(TitleKey(a), TitleKey(b));
      }
      forall a: Record, b: Record, c: Record | Precedes(o, a, b) && Precedes(o, b, c)
        ensures Precedes(o, a, c)
      {
        LexLeqTransitive(TitleKey(a), TitleKey(b), TitleKey(c));
      }
    }
  }

  /** Sorting by `o` yields a sequence that `o` orders, a permutation, and stable. */
  lemma SortByOrder(o: Order, s: seq<Record>)
    ensures SortedBy(InsertionSort(s, Before(o)), Before(o))
    ensures multiset(InsertionSort(s, Before(o))) == multiset(s)
    ensures forall x :: Ties(InsertionSort(s, Before(o)), x, Before(o)) == Ties(s, x, Before(o))
  {
    BeforeIsTotalPreorder(o);
    InsertionSortIsSorted(s, Before(o));
    forall x ensures Ties(InsertionSort(s, Before(o)), x, Before(o)) == Ties(s, x, Before(o)) {
      InsertionSortIsStable(s, x, Before(o));
    }
  }

  /** Ratings never rise along `s` (a missing or "N/A" rating counts as 0). */
  predicate RatingDescending(s: seq<Record>) {
    forall i, j :: 0 <= i < j < |s| ==> RatingKey(s[i]) >= RatingKey(s[j])
  }

  /** Vote counts never rise along `s` (missing or unparsable counts as 0). */
  predicate VotesDescending(s: seq<Record>) {
    forall i, j :: 0 <= i < j < |s| ==> VotesKey(s[i]) >= VotesKey(s[j])
  }

  /** The leading integers of the years never rise along `s` (missing or unparsable counts as 0). */
  predicate YearDescending(s: seq<Record>) {
    forall i, j :: 0 <= i < j < |s| ==> YearKey(s[i]) >= YearKey(s[j])
  }

  /** Titles are in string order along `s` (a missing title counts as ""). */
  predicate TitleAscending(s: seq<Record>) {
    forall i, j :: 0 <= i < j < |s| ==> LexLeq(TitleKey(s[i]), TitleKey(s[j]))
  }

  /** What sortedness under each comparator means for its key. */
  lemma SortedByKeys(o: Order, s: seq<Record>)
    requires SortedBy(s, Before(o))
    ensures o == ByRatingDesc ==> RatingDescending(s)
    ensures o == ByVotesDesc ==> VotesDescending(s)
    ensures o == ByYearDesc ==> YearDescending(s)
    ensures o == ByTitleAsc ==> TitleAscending(s)
  {
    assert forall i, j :: 0 <= i < j < |s| ==> Precedes(o, s[i], s[j]);
  }
}
