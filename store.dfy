/**
 * The application-wide state of src/context/AppContext.jsx: the selected
 * record and the modal flag, the shared search query, and the watchlist,
 * which every change writes through to the `prime-video-watchlist` storage
 * entry.
 */
module Store {
  import opened Wrappers
  import opened Seqs
  import opened Content

  // ------------------------------------------------------------ the watchlist as a value

  /** `list.some(item => item.imdbID === id)`. */
  predicate HasId(w: seq<Record>, id: Option<string>) {
    exists x :: x in w && x.imdbID == id
  }

  /** `list.filter(item => item.imdbID !== id)`: every entry with that id goes, the rest keep their order. */
  function RemoveId(w: seq<Record>, id: Option<string>): (r: seq<Record>)
    ensures !HasId(r, id)
    ensures forall x :: x in r <==> x in w && x.imdbID != id
    ensures IsSubsequence(r, w)
  {
    Filter(w, (x: Record) => x.imdbID != id)
  }

  /** Removing an id the list does not hold returns the list itself. */
  lemma RemoveAbsentId(w: seq<Record>, id: Option<string>)
    requires !HasId(w, id)
    ensures RemoveId(w, id) == w
  {
    FilterAll(w, (x: Record) => x.imdbID != id);
  }

  /** Removal touches no entry with another id: each keeps its multiplicity. */
  lemma RemoveIdKeepsOthers(w: seq<Record>, id: Option<string>)
    ensures forall x: Record :: x.imdbID != id ==> multiset(RemoveId(w, id))[x] == multiset(w)[x]
    ensures forall x: Record :: x.imdbID == id ==> multiset(RemoveId(w, id))[x] == 0
  {
    FilterCounts(w, (x: Record) => x.imdbID != id);
  }

  /**
   * The list `addToWatchlist(movie)` saves: when an entry already carries
   * the movie's id, the list without every such entry; otherwise the list
   * with the movie appended.
   */
  function Toggle(w: seq<Record>, movie: Record): (r: seq<Record>)
    ensures HasId(r, movie.imdbID) <==> !HasId(w, movie.imdbID)
    ensures !HasId(w, movie.imdbID) ==> r == w + [movie]
    ensures HasId(w, movie.imdbID) ==>
      IsSubsequence(r, w) && forall x :: x in r <==> x in w && x.imdbID != movie.imdbID
  {
    if HasId(w, movie.imdbID) then RemoveId(w, movie.imdbID)
    else
      assert movie in w + [movie];
      w + [movie]
  }

  /** Toggling a movie the list does not hold, twice, restores the list exactly. */
  lemma ToggleTwice(w: seq<Record>, movie: Record)
    requires !HasId(w, movie.imdbID)
    ensures Toggle(Toggle(w, movie), movie) == w
  {
    var p := (x: Record) => x.imdbID != movie.imdbID;
    FilterAppend(w, [movie], p);
    FilterAll(w, p);
    FilterNone([movie], p);
  }

  /** Filtering keeps ids unique. */
  lemma {:induction false} FilterKeepsUniqueIds(w: seq<Record>, p: Record -> bool)
    requires UniqueIds(w)
    ensures UniqueIds(Filter(w, p))
  {
    if w != [] {
      assert UniqueIds(w[1..]) by {
        forall a, b | 0 <= a < b < |w[1..]| ensures w[1..][a].imdbID != w[1..][b].imdbID {
          assert w[1..][a] == w[a + 1] && w[1..][b] == w[b + 1];
        }
      }
      FilterKeepsUniqueIds(w[1..], p);
      var rest := Filter(w[1..], p);
      if p(w[0]) {
        assert forall x :: x in rest ==> x.imdbID != w[0].imdbID by {
          forall x | x in rest ensures x.imdbID != w[0].imdbID {
            var k :| 0 <= k < |w[1..]| && w[1..][k] == x;
            assert w[k + 1] == x;
          }
        }
        var r := [w[0]] + rest;
        forall a, b | 0 <= a < b < |r| ensures r[a].imdbID != r[b].imdbID {
          if a == 0 {
            assert r[b] == rest[b - 1] && r[b] in rest;
          } else {
            assert r[a] == rest[a - 1] && r[b] == rest[b - 1];
          }
        }
      }
    }
  }

  /** Appending a movie whose id is new keeps ids unique. */
  lemma AppendKeepsUniqueIds(w: seq<Record>, movie: Record)
    requires UniqueIds(w) && !HasId(w, movie.imdbID)
    ensures UniqueIds(w + [movie])
  {
    var r := w + [movie];
    forall a, b | 0 <= a < b < |r| ensures r[a].imdbID != r[b].imdbID {
      if b == |w| {
        assert r[a] == w[a] && r[a] in w;
      } else {
        assert r[a] == w[a] && r[b] == w[b];
      }
    }
  }

  /** Every watchlist change keeps the ids in the list unique. */
  lemma ChangesKeepUniqueIds(w: seq<Record>, movie: Record, id: Option<string>)
    requires UniqueIds(w)
    ensures UniqueIds(Toggle(w, movie))
    ensures UniqueIds(RemoveId(w, id))
    ensures UniqueIds([])
  {
    FilterKeepsUniqueIds(w, (x: Record) => x.imdbID != id);
    FilterKeepsUniqueIds(w, (x: Record) => x.imdbID != movie.imdbID);
    if !HasId(w, movie.imdbID) {
      AppendKeepsUniqueIds(w, movie);
    }
  }

  // ------------------------------------------------------------ the provider

  /** The provider's state cells, plus the parsed contents of the storage entry. */
  class AppProvider {
    var selectedMovie: Option<Record>
    var isModalOpen: bool
    var searchQuery: string
    var watchlist: seq<Record>
    /** What `prime-video-watchlist` holds; `None` while nothing is stored. */
    var persisted: Option<seq<Record>>

    /** Memory agrees with storage: the stored list, or the empty list while nothing is stored. */
    predicate Mirrors()
      reads this
    {
      watchlist == persisted.GetOr([])
    }

    /** The modal is open exactly while a record is selected. */
    predicate ModalInStep()
      reads this
    {
      isModalOpen <==> selectedMovie.Some?
    }

    /** Mounting the provider: nothing selected, an empty query, the saved watchlist or `[]`. */
    constructor (saved: Option<seq<Record>>)
      ensures selectedMovie == None && !isModalOpen && searchQuery == ""
      ensures watchlist == (if saved.Some? then saved.value else [])
      ensures persisted == saved
      ensures Mirrors() && ModalInStep()
    {
      selectedMovie := None;
      isModalOpen := false;
      searchQuery := "";
      watchlist := if saved.Some? then saved.value else [];
      persisted := saved;
    }

    /** `saveWatchlist(list)`: writes the list to storage, then into state. */
    method SaveWatchlist(newWatchlist: seq<Record>)
      modifies this
      ensures persisted == Some(newWatchlist) && watchlist == newWatchlist
      ensures selectedMovie == old(selectedMovie) && isModalOpen == old(isModalOpen)
      ensures searchQuery == old(searchQuery)
      ensures Mirrors()
    {
      persisted := Some(newWatchlist);
      watchlist := newWatchlist;
    }

    /** `openModal(movie)`. */
    method OpenModal(movie: Option<Record>)
      modifies this
      ensures selectedMovie == movie && isModalOpen
      ensures movie.Some? ==> ModalInStep()
      ensures searchQuery == old(searchQuery) && watchlist == old(watchlist) && persisted == old(persisted)
    {
      selectedMovie := movie;
      isModalOpen := true;
    }

    /** `closeModal()`. */
    method CloseModal()
      modifies this
      ensures !isModalOpen && selectedMovie == None
      ensures ModalInStep()
      ensures searchQuery == old(searchQuery) && watchlist == old(watchlist) && persisted == old(persisted)
    {
      isModalOpen := false;
      selectedMovie := None;
    }

    /** `setSearchQuery(q)`: only the query cell changes. */
    method SetSearchQuery(q: string)
      modifies this`searchQuery
      ensures searchQuery == q
    {
      searchQuery := q;
    }

    /** `addToWatchlist(movie)`: a toggle by `imdbID`, saved through to storage. */
    method AddToWatchlist(movie: Record)
      modifies this
      ensures watchlist == Toggle(old(watchlist), movie)
      ensures HasId(watchlist, movie.imdbID) <==> !HasId(old(watchlist), movie.imdbID)
      ensures UniqueIds(old(watchlist)) ==> UniqueIds(watchlist)
      ensures persisted == Some(watchlist)
      ensures selectedMovie == old(selectedMovie) && isModalOpen == old(isModalOpen)
      ensures searchQuery == old(searchQuery)
    {
      var isAlreadyInWatchlist := HasId(watchlist, movie.imdbID);
      if UniqueIds(watchlist) {
        ChangesKeepUniqueIds(watchlist, movie, movie.imdbID);
      }
      if isAlreadyInWatchlist {
        var newWatchlist := RemoveId(watchlist, movie.imdbID);
        SaveWatchlist(newWatchlist);
      } else {
        var newWatchlist := watchlist + [movie];
        SaveWatchlist(newWatchlist);
      }
    }

    /** `removeFromWatchlist(id)`: drops every entry with that id, keeping the others in order. */
    method RemoveFromWatchlist(imdbID: Option<string>)
      modifies this
      ensures watchlist == RemoveId(old(watchlist), imdbID)
      ensures !HasId(watchlist, imdbID)
      ensures IsSubsequence(watchlist, old(watchlist))
      ensures UniqueIds(old(watchlist)) ==> UniqueIds(watchlist)
      ensures persisted == Some(watchlist)
      ensures selectedMovie == old(selectedMovie) && isModalOpen == old(isModalOpen)
      ensures searchQuery == old(searchQuery)
    {
      if UniqueIds(watchlist) {
        FilterKeepsUniqueIds(watchlist, (x: Record) => x.imdbID != imdbID);
      }
      var newWatchlist := RemoveId(watchlist, imdbID);
      SaveWatchlist(newWatchlist);
    }

    /** `isInWatchlist(id)`. */
    method IsInWatchlist(imdbID: Option<string>) returns (b: bool)
      ensures b <==> exists k :: 0 <= k < |watchlist| && watchlist[k].imdbID == imdbID
    {
      b := HasId(watchlist, imdbID);
    }

    /** `clearWatchlist()`: empties both the list and the storage entry. */
    method ClearWatchlist()
      modifies this
      ensures watchlist == [] && persisted == Some([])
      ensures selectedMovie == old(selectedMovie) && isModalOpen == old(isModalOpen)
      ensures searchQuery == old(searchQuery)
    {
      SaveWatchlist([]);
    }
  }
}
