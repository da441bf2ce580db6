/**
 * The hero carousel (src/components/HeroCarousel.jsx): up to six featured
 * records, the index of the one on show, the direction of the last move and
 * the autoplay flag.
 */
module Carousel {
  import opened Wrappers
  import opened Seqs
  import opened Content

  /** The `movies` prop: an array, some other truthy value (taken as one record), or a falsy value. */
  datatype MoviesProp = Many(items: seq<Record>) | One(item: Record) | Absent

  /** `featuredMovies`: the array form of the prop, cut to its first six entries. */
  function Featured(movies: MoviesProp): (r: seq<Record>)
    ensures |r| <= 6
    ensures movies.Many? ==> |r| == (if 6 < |movies.items| then 6 else |movies.items|)
                             && r == movies.items[..|r|]
    ensures movies.One? ==> r == [movies.item]
    ensures movies.Absent? ==> r == []
  {
    match movies
    case Many(items) => Take(items, 6)
    case One(item) => [item]
    case Absent => []
  }

  /**
   * JavaScript's `a % n` for `n > 0`: smaller than `n` in size, with the sign
   * of `a`, and the same as the Euclidean remainder when `a` is not negative.
   */
  function JsRem(a: int, n: int): (r: int)
    requires n > 0
    ensures -n < r < n
    ensures a >= 0 ==> r >= 0 && r == a % n
    ensures a <= 0 ==> r <= 0
  {
    if a >= 0 then a % n else -((-a) % n)
  }

  /** Unlike the Euclidean remainder, JavaScript's is odd: negating `a` negates the result. */
  lemma JsRemIsOdd(a: int, n: int)
    requires n > 0
    ensures JsRem(-a, n) == -JsRem(a, n)
  {
  }

  /** The index `goToNext` moves to: `(prev + 1) % n`. */
  function NextIndex(i: int, n: int): (r: int)
    requires n > 0
    ensures -n < r < n
    ensures i >= -1 ==> 0 <= r < n && r == (i + 1) % n
  {
    JsRem(i + 1, n)
  }

  /** The index `goToPrev` moves to: from 0 to the last slide, otherwise one back. */
  function PrevIndex(i: int, n: int): (r: int)
    requires n > 0
    ensures 0 <= i < n ==> 0 <= r < n && (r + 1) % n == i
  {
    if i == 0 then n - 1 else i - 1
  }

  /** Inside the slides, `goToNext` steps forward and wraps from the last slide to the first. */
  lemma NextWraps(i: int, n: int)
    requires 0 <= i < n
    ensures NextIndex(i, n) == if i == n - 1 then 0 else i + 1
  {
  }

  /** `goToNext` lands on a slide from any index that is not negative, even one past the end. */
  lemma NextLandsOnASlide(i: int, n: int)
    requires n > 0 && i >= -1
    ensures 0 <= NextIndex(i, n) < n
  {
  }

  /** Inside the slides, `goToPrev` stays inside them. */
  lemma PrevStaysOnASlide(i: int, n: int)
    requires 0 <= i < n
    ensures 0 <= PrevIndex(i, n) < n
  {
  }

  /** `goToPrev` right after `goToNext` returns to the slide it started from. */
  lemma PrevUndoesNext(i: int, n: int)
    requires 0 <= i < n
    ensures PrevIndex(NextIndex(i, n), n) == i
  {
    NextWraps(i, n);
  }

  /** `goToNext` right after `goToPrev` returns to the slide it started from. */
  lemma NextUndoesPrev(i: int, n: int)
    requires 0 <= i < n
    ensures NextIndex(PrevIndex(i, n), n) == i
  {
    NextWraps(PrevIndex(i, n), n);
  }

  datatype Direction = Next | Prev

  /** The component's state cells, with the featured list of the latest render. */
  class HeroCarousel {
    var currentIndex: int
    var isAutoPlaying: bool
    var direction: Direction
    var featured: seq<Record>

    /** The index points at a featured record. */
    predicate InRange()
      reads this
    {
      0 <= currentIndex < |featured|
    }

    /** First render: the first slide, autoplay on, direction "next". */
    constructor (movies: MoviesProp)
      ensures featured == Featured(movies)
      ensures currentIndex == 0 && isAutoPlaying && direction == Next
      ensures |featured| > 0 ==> InRange()
    {
      featured := Featured(movies);
      currentIndex := 0;
      isAutoPlaying := true;
      direction := Next;
    }

    /** A later render with a new `movies` prop: the featured list is recomputed, the state cells persist. */
    method Receive(movies: MoviesProp)
      modifies this
      ensures featured == Featured(movies)
      ensures currentIndex == old(currentIndex) && isAutoPlaying == old(isAutoPlaying)
      ensures direction == old(direction)
    {
      featured := Featured(movies);
    }

    /** `goToNext()`: nothing without slides; otherwise one forward, wrapping, direction "next". */
    method GoToNext()
      modifies this
      ensures featured == old(featured) && isAutoPlaying == old(isAutoPlaying)
      ensures |featured| == 0 ==> currentIndex == old(currentIndex) && direction == old(direction)
      ensures |featured| > 0 ==> currentIndex == NextIndex(old(currentIndex), |featured|) && direction == Next
      ensures |featured| > 0 && old(currentIndex) >= -1 ==> InRange()
    {
      if |featured| == 0 {
        return;
      }
      direction := Next;
      if currentIndex >= -1 {
        NextLandsOnASlide(currentIndex, |featured|);
      }
      currentIndex := JsRem(currentIndex + 1, |featured|);
    }

    /** `goToPrev()`: nothing without slides; otherwise one back, wrapping, direction "prev". */
    method GoToPrev()
      modifies this
      ensures featured == old(featured) && isAutoPlaying == old(isAutoPlaying)
      ensures |featured| == 0 ==> currentIndex == old(currentIndex) && direction == old(direction)
      ensures |featured| > 0 ==> currentIndex == PrevIndex(old(currentIndex), |featured|) && direction == Prev
      ensures old(InRange()) ==> InRange()
    {
      if |featured| == 0 {
        return;
      }
      direction := Prev;
      currentIndex := if currentIndex == 0 then |featured| - 1 else currentIndex - 1;
    }

    /** `goToSlide(index)`: jumps to `index`, facing the way it moved, and pauses autoplay. */
    method GoToSlide(index: int)
      modifies this
      ensures currentIndex == index && !isAutoPlaying
      ensures direction == if index > old(currentIndex) then Next else Prev
      ensures featured == old(featured)
    {
      direction := if index > currentIndex then Next else Prev;
      currentIndex := index;
      isAutoPlaying := false;
    }

    /** The callback of the ten-second timeout `goToSlide` starts: autoplay resumes. */
    method ResumeAutoplay()
      modifies this
      ensures isAutoPlaying
      ensures currentIndex == old(currentIndex) && direction == old(direction) && featured == old(featured)
    {
      isAutoPlaying := true;
    }

    /** One tick of the six-second interval, which runs only while autoplay is on and there are slides. */
    method Tick()
      modifies this
      ensures featured == old(featured) && isAutoPlaying == old(isAutoPlaying)
      ensures old(isAutoPlaying) && |featured| > 0 ==>
        currentIndex == NextIndex(old(currentIndex), |featured|) && direction == Next
      ensures !old(isAutoPlaying) || |featured| == 0 ==>
        currentIndex == old(currentIndex) && direction == old(direction)
    {
      if isAutoPlaying && |featured| > 0 {
        GoToNext();
      }
    }

    /** `featuredMovies[currentIndex]`: `undefined` off the ends. */
    function CurrentMovie(): (r: Option<Record>)
      reads this
      ensures r.Some? <==> InRange()
      ensures r.Some? ==> r.value == featured[currentIndex]
    {
      if 0 <= currentIndex < |featured| then Some(featured[currentIndex]) else None
    }

    /** The render guards: nothing shows without slides, off the ends, or for a record without a Title. */
    function Renders(): (b: bool)
      reads this
      ensures b <==> InRange() && Truthy(featured[currentIndex].Title)
      ensures |featured| == 0 ==> !b
    {
      if |featured| == 0 then false
      else
        match CurrentMovie()
        case None => false
        case Some(movie) => Truthy(movie.Title)
    }
  }
}
