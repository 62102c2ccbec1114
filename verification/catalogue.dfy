/**
  The paged catalogue (`Movies`): five pages of now-playing movies are
  filtered by the selected genre, deduplicated by id keeping the first
  occurrence, and shown twenty at a time. The page responses are inputs.
 */
module Catalogue {
  import opened Common

  /** A catalogue movie; only the id and the genre ids take part in the logic. */
  datatype Movie = Movie(id: int, title: string, genreIds: seq<int>)

  /** How many result pages are requested, one after another. */
  const PagesFetched: nat := 5

  /** How many movies one catalogue page shows. */
  const PageSize: nat := 20

  /** The default label of the genre menu. */
  const DefaultPlaceholder: string := "Genres"

  // ---------------------------------------------------------------------------
  // Genre filter
  // ---------------------------------------------------------------------------

  /** `if (selectedGenre)`: a genre filters only when it is present and non-zero. */
  predicate GenreActive(genre: Option<int>) {
    genre.Some? && genre.value != 0
  }

  /** One page after the genre filter. */
  function GenreFilter(page: seq<Movie>, genre: Option<int>): (r: seq<Movie>)
    ensures GenreActive(genre) ==> forall i :: 0 <= i < |r| ==> genre.value in r[i].genreIds
    ensures forall i :: 0 <= i < |r| ==> r[i] in page
    ensures forall i :: 0 <= i < |page| && (GenreActive(genre) ==> genre.value in page[i].genreIds) ==> page[i] in r
    ensures !GenreActive(genre) ==> r == page
  {
    if GenreActive(genre) then
      var g := genre.value;
      Filter(page, (m: Movie) => g in m.genreIds)
    else page
  }

  /** The filter keeps the page order: filtering two pieces is filtering their concatenation. */
  lemma GenreFilterConcat(a: seq<Movie>, b: seq<Movie>, genre: Option<int>)
    ensures GenreFilter(a + b, genre) == GenreFilter(a, genre) + GenreFilter(b, genre)
  {
    if GenreActive(genre) {
      var g := genre.value;
      FilterConcat(a, b, (m: Movie) => g in m.genreIds);
    }
  }

  /** On a single movie the filter keeps it exactly when it has the selected genre. */
  lemma GenreFilterSingle(m: Movie, genre: Option<int>)
    ensures GenreFilter([m], genre) == if !GenreActive(genre) || genre.value in m.genreIds then [m] else []
  {
  }

  /** The filtered pages, concatenated in page order. */
  function Candidates(pages: seq<seq<Movie>>, genre: Option<int>): (r: seq<Movie>)
    decreases |pages|
  {
    if pages == [] then []
    else Candidates(pages[..|pages| - 1], genre) + GenreFilter(pages[|pages| - 1], genre)
  }

  // ---------------------------------------------------------------------------
  // Deduplication
  // ---------------------------------------------------------------------------

  /** The set of ids in a list. */
  function IdsOf(s: seq<Movie>): (r: set<int>) {
    set i | 0 <= i < |s| :: s[i].id
  }

  /** No two movies of the list share an id. */
  predicate UniqueIds(s: seq<Movie>) {
    forall i, j :: 0 <= i < j < |s| ==> s[i].id != s[j].id
  }

  lemma IdsOfAppend(s: seq<Movie>, m: Movie)
    ensures IdsOf(s + [m]) == IdsOf(s) + {m.id}
  {
    var t := s + [m];
    assert t[|s|].id == m.id;
    forall x | x in IdsOf(s)
      ensures x in IdsOf(t)
    {
      var i :| 0 <= i < |s| && s[i].id == x;
      assert t[i] == s[i];
    }
  }

  /**
    The list with every movie whose id was already seen earlier dropped, as the
    source's `seenMovieIds` loop builds it: each movie, taken in order, is
    appended when its id is new.
   */
  function Dedupe(s: seq<Movie>): (r: seq<Movie>)
    ensures UniqueIds(r)
    ensures IdsOf(r) == IdsOf(s)
    ensures forall k :: 0 <= k < |r| ==> r[k] in s
    decreases |s|
  {
    if s == [] then []
    else
      var init := s[..|s| - 1];
      var last := s[|s| - 1];
      var d := Dedupe(init);
      IdsOfAppend(init, last);
      assert s == init + [last];
      if last.id in IdsOf(d) then d
      else
        IdsOfAppend(d, last);
        d + [last]
  }

  /** The position of the first movie with id `id`. */
  function FirstIndex(s: seq<Movie>, id: int): (i: nat)
    requires id in IdsOf(s)
    ensures i < |s| && s[i].id == id
    ensures forall j :: 0 <= j < i ==> s[j].id != id
  {
    if s[0].id == id then 0
    else
      assert id in IdsOf(s[1..]) by {
        var k :| 0 <= k < |s| && s[k].id == id;
        assert s[1..][k - 1] == s[k];
      }
      1 + FirstIndex(s[1..], id)
  }

  /** The first-position characterisation pins `FirstIndex` down. */
  lemma FirstIndexUnique(s: seq<Movie>, id: int, i: nat)
    requires i < |s| && s[i].id == id
    requires forall j :: 0 <= j < i ==> s[j].id != id
    ensures id in IdsOf(s) && FirstIndex(s, id) == i
  {
  }

  /** Appending a movie does not move the first position of an id already present. */
  lemma FirstIndexAppendOld(s: seq<Movie>, m: Movie, id: int)
    requires id in IdsOf(s)
    ensures id in IdsOf(s + [m]) && FirstIndex(s + [m], id) == FirstIndex(s, id)
  {
    var f := FirstIndex(s, id);
    var t := s + [m];
    assert t[f] == s[f];
    forall j | 0 <= j < f
      ensures t[j].id != id
    {
      assert t[j] == s[j];
    }
    FirstIndexUnique(t, id, f);
  }

  /**
    `r` consists of first occurrences from `s`: each of its movies is the one at
    the first position of its id in `s`, and they come in the order of those positions.
   */
  predicate FirstOccurrencesInOrder(s: seq<Movie>, r: seq<Movie>) {
    && (forall k :: 0 <= k < |r| ==> r[k].id in IdsOf(s) && r[k] == s[FirstIndex(s, r[k].id)])
    && (forall k1, k2 :: 0 <= k1 < k2 < |r| && r[k1].id in IdsOf(s) && r[k2].id in IdsOf(s) ==>
          FirstIndex(s, r[k1].id) < FirstIndex(s, r[k2].id))
  }

  /**
    `Dedupe` keeps exactly the first occurrence of every id, in the order those
    first occurrences appear in the input.
   */
  lemma {:induction false} DedupeKeepsFirstOccurrences(s: seq<Movie>)
    ensures FirstOccurrencesInOrder(s, Dedupe(s))
    decreases |s|
  {
    var r := Dedupe(s);
    if s != [] {
      var init := s[..|s| - 1];
      var last := s[|s| - 1];
      var d := Dedupe(init);
      DedupeKeepsFirstOccurrences(init);
      assert FirstOccurrencesInOrder(init, d);
      assert s == init + [last];
      forall k | 0 <= k < |d|
        ensures d[k].id in IdsOf(s) && FirstIndex(s, d[k].id) == FirstIndex(init, d[k].id)
        ensures d[k] == s[FirstIndex(s, d[k].id)]
      {
        assert d[k].id in IdsOf(init) && d[k] == init[FirstIndex(init, d[k].id)];
        FirstIndexAppendOld(init, last, d[k].id);
        var f := FirstIndex(init, d[k].id);
        assert s[f] == init[f];
      }
      if last.id !in IdsOf(d) {
        assert r == d + [last];
        assert last.id in IdsOf(s) by { assert s[|s| - 1].id == last.id; }
        FirstIndexUnique(s, last.id, |s| - 1);
        assert r[|r| - 1] == last;
      }
    }
  }

  // ---------------------------------------------------------------------------
  // Fetching and paging
  // ---------------------------------------------------------------------------

  /**
    The loop of `fetchMovies`: pages in order, each filtered by genre, each
    movie appended when its id has not been seen. Computes exactly `Dedupe`
    of the concatenated filtered pages.
   */
  method CollectMovies(pages: seq<seq<Movie>>, genre: Option<int>) returns (list: seq<Movie>)
    ensures list == Dedupe(Candidates(pages, genre))
    ensures UniqueIds(list)
    ensures GenreActive(genre) ==> forall i :: 0 <= i < |list| ==> genre.value in list[i].genreIds
  {
    list := [];
    var seen: set<int> := {};
    var p := 0;
    while p < |pages|
      invariant 0 <= p <= |pages|
      invariant list == Dedupe(Candidates(pages[..p], genre))
      invariant seen == IdsOf(list)
    {
      list, seen := AppendNew(list, seen, Candidates(pages[..p], genre), GenreFilter(pages[p], genre));
      CandidatesSnoc(pages, p, genre);
      p := p + 1;
    }
    assert pages[..|pages|] == pages;
    GenreFilterOnCandidates(pages, genre);
  }

  /** One more movie: appended exactly when its id is new. */
  lemma DedupeSnoc(s: seq<Movie>, m: Movie)
    ensures Dedupe(s + [m]) == if m.id in IdsOf(Dedupe(s)) then Dedupe(s) else Dedupe(s) + [m]
  {
    assert (s + [m])[..|s + [m]| - 1] == s;
    assert (s + [m])[|s + [m]| - 1] == m;
  }

  lemma PrefixSnoc(a: seq<Movie>, b: seq<Movie>, j: nat)
    requires j < |b|
    ensures a + b[..j + 1] == (a + b[..j]) + [b[j]]
  {
    assert b[..j + 1] == b[..j] + [b[j]];
  }

  /** One more page: its filtered movies follow the earlier candidates. */
  lemma CandidatesSnoc(pages: seq<seq<Movie>>, p: nat, genre: Option<int>)
    requires p < |pages|
    ensures Candidates(pages[..p + 1], genre) == Candidates(pages[..p], genre) + GenreFilter(pages[p], genre)
  {
    assert pages[..p + 1][..p] == pages[..p];
    assert pages[..p + 1][p] == pages[p];
  }

  /**
    The inner `forEach` of `fetchMovies`: the movies of one filtered page are
    appended in order, each only when its id is not in `seen` yet.
   */
  method AppendNew(list: seq<Movie>, seen: set<int>, ghost before: seq<Movie>, toAdd: seq<Movie>)
    returns (list': seq<Movie>, seen': set<int>)
    requires list == Dedupe(before) && seen == IdsOf(list)
    ensures list' == Dedupe(before + toAdd) && seen' == IdsOf(list')
  {
    list', seen' := list, seen;
    var j := 0;
    assert before + toAdd[..0] == before;
    while j < |toAdd|
      invariant 0 <= j <= |toAdd|
      invariant list' == Dedupe(before + toAdd[..j])
      invariant seen' == IdsOf(list')
    {
      var m := toAdd[j];
      PrefixSnoc(before, toAdd, j);
      DedupeSnoc(before + toAdd[..j], m);
      if m.id !in seen' {
        IdsOfAppend(list', m);
        seen' := seen' + {m.id};
        list' := list' + [m];
      }
      j := j + 1;
    }
    assert toAdd[..|toAdd|] == toAdd;
  }

  /** Every candidate carries the selected genre. */
  lemma GenreFilterOnCandidates(pages: seq<seq<Movie>>, genre: Option<int>)
    ensures GenreActive(genre) ==>
              forall i :: 0 <= i < |Dedupe(Candidates(pages, genre))| ==> genre.value in Dedupe(Candidates(pages, genre))[i].genreIds
  {
    if GenreActive(genre) {
      CandidatesHaveGenre(pages, genre);
    }
  }

  lemma {:induction false} CandidatesHaveGenre(pages: seq<seq<Movie>>, genre: Option<int>)
    requires GenreActive(genre)
    ensures forall m :: m in Candidates(pages, genre) ==> genre.value in m.genreIds
    decreases |pages|
  {
    if pages != [] {
      CandidatesHaveGenre(pages[..|pages| - 1], genre);
    }
  }

  /** The movies of page `page` (counted from 1), clipped to the list, as `slice` does. */
  function PageSlice(list: seq<Movie>, page: int): (r: seq<Movie>)
    requires page >= 1
    ensures |r| <= PageSize
    ensures var start := (page - 1) * PageSize;
            |r| == if start >= |list| then 0 else if |list| - start < PageSize then |list| - start else PageSize
    ensures forall k :: 0 <= k < |r| ==> r[k] == list[(page - 1) * PageSize + k]
  {
    var start := (page - 1) * PageSize;
    var end := start + PageSize;
    if start >= |list| then []
    else if end > |list| then list[start..]
    else list[start..end]
  }

  /** Pages 1 to `n`, one after another. */
  function FirstPages(list: seq<Movie>, n: nat): (r: seq<Movie>) {
    if n == 0 then [] else FirstPages(list, n - 1) + PageSlice(list, n)
  }

  /** Consecutive pages tile the list: the first `n` pages are its first `n * 20` movies. */
  lemma {:induction false} PagesTile(list: seq<Movie>, n: nat)
    ensures FirstPages(list, n) == list[..if n * PageSize < |list| then n * PageSize else |list|]
  {
    if n > 0 {
      PagesTile(list, n - 1);
      var prev := if (n - 1) * PageSize < |list| then (n - 1) * PageSize else |list|;
      var cur := if n * PageSize < |list| then n * PageSize else |list|;
      var slice := PageSlice(list, n);
      assert list[..cur] == list[..prev] + list[prev..cur];
      assert slice == list[prev..cur];
    }
  }

  // ---------------------------------------------------------------------------
  // The view state
  // ---------------------------------------------------------------------------

  datatype CatalogueState = CatalogueState(
    selectedGenre: Option<int>,
    placeholder: string,
    isOpen: bool,
    currentPage: int,
    allMovies: seq<Movie>,
    filteredMovies: seq<Movie>,
    displayedMovies: seq<Movie>)

  /** The state on mount: no genre, first page, menu closed, nothing loaded. */
  const Mounted: CatalogueState := CatalogueState(None, DefaultPlaceholder, false, 1, [], [], [])

  /**
    `fetchMovies` with the responses of the five page requests (`None` for a
    request that failed or was not ok). Any failure leaves the state as it was;
    otherwise the lists are rebuilt and the current page is cut from them.
   */
  method FetchMovies(st: CatalogueState, responses: seq<Option<seq<Movie>>>) returns (r: CatalogueState)
    requires |responses| == PagesFetched
    requires st.currentPage >= 1
    ensures (exists i :: 0 <= i < |responses| && responses[i].None?) ==> r == st
    ensures (forall i :: 0 <= i < |responses| ==> responses[i].Some?) ==>
              && UniqueIds(r.allMovies)
              && r.filteredMovies == r.allMovies
              && r.displayedMovies == PageSlice(r.allMovies, st.currentPage)
              && r.(allMovies := st.allMovies, filteredMovies := st.filteredMovies, displayedMovies := st.displayedMovies) == st
              && (GenreActive(st.selectedGenre) ==>
                    forall i :: 0 <= i < |r.allMovies| ==> st.selectedGenre.value in r.allMovies[i].genreIds)
              && r.allMovies == Dedupe(Candidates(PageContents(responses), st.selectedGenre))
  {
    var i := 0;
    while i < |responses|
      invariant 0 <= i <= |responses|
      invariant forall j :: 0 <= j < i ==> responses[j].Some?
    {
      if responses[i].None? {
        return st;
      }
      i := i + 1;
    }
    var list := CollectMovies(PageContents(responses), st.selectedGenre);
    r := st.(allMovies := list, filteredMovies := list, displayedMovies := PageSlice(list, st.currentPage));
  }

  /** The bodies of responses that all arrived. */
  function PageContents(responses: seq<Option<seq<Movie>>>): (pages: seq<seq<Movie>>)
    requires forall i :: 0 <= i < |responses| ==> responses[i].Some?
    ensures |pages| == |responses|
    ensures forall i :: 0 <= i < |responses| ==> pages[i] == responses[i].value
  {
    seq(|responses|, i requires 0 <= i < |responses| => responses[i].value)
  }

  /** `handleGenreSelect`: filter by the genre, label the menu with its name, close it, back to page 1. */
  function HandleGenreSelect(st: CatalogueState, genreId: int, genreName: string): (r: CatalogueState)
    ensures r.selectedGenre == Some(genreId) && r.placeholder == genreName && !r.isOpen && r.currentPage == 1
    ensures r.(selectedGenre := st.selectedGenre, placeholder := st.placeholder, isOpen := st.isOpen, currentPage := st.currentPage) == st
  {
    st.(selectedGenre := Some(genreId), placeholder := genreName, isOpen := false, currentPage := 1)
  }

  /** `clearGenreSelection`: no genre, default label, back to page 1; the menu is left as it is. */
  function ClearGenreSelection(st: CatalogueState): (r: CatalogueState)
    ensures r.selectedGenre.None? && r.placeholder == DefaultPlaceholder && r.currentPage == 1
    ensures r.(selectedGenre := st.selectedGenre, placeholder := st.placeholder, currentPage := st.currentPage) == st
  {
    st.(selectedGenre := None, placeholder := DefaultPlaceholder, currentPage := 1)
  }

  /** `goToPage` from one of the five page buttons. */
  function GoToPage(st: CatalogueState, page: int): (r: CatalogueState)
    requires 1 <= page <= PagesFetched
    ensures r.currentPage == page && r.currentPage >= 1
    ensures r.(currentPage := st.currentPage) == st
  {
    st.(currentPage := page)
  }

  /** Clearing after selecting returns to the mounted filter settings. */
  lemma SelectThenClear(st: CatalogueState, genreId: int, genreName: string)
    ensures var r := ClearGenreSelection(HandleGenreSelect(st, genreId, genreName));
            r.selectedGenre == Mounted.selectedGenre && r.placeholder == Mounted.placeholder
            && r.currentPage == Mounted.currentPage && r.isOpen == Mounted.isOpen
  {
  }
}
