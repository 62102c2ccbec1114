/**
  The reviews view (`Favorites` and its `FavoriteMovie` rows): review records
  merged with movie metadata, a per-row Display/Editing machine, optimistic
  updates and deletions on the in-memory list with the matching remote
  requests, and the two-flag favourite filter.
 */
module Favorites {
  import opened Common
  import Auth
  import opened Reviews

  /** One displayed row: a review joined with its movie's title and poster. */
  datatype Row = Row(
    id: ReviewId,
    movieId: MovieId,
    title: string,
    stars: int,
    isFavorite: bool,
    review: string,
    posterUrl: string)

  /** The metadata a movie lookup contributes. */
  datatype MovieMeta = MovieMeta(title: string, posterPath: string)

  /** Title shown when the movie lookup fails. */
  const TitleNotFound: string := "Movie Title Not Found"

  /** Prefix of every poster address. */
  const PosterBase: string := "https://image.tmdb.org/t/p/original"

  // ---------------------------------------------------------------------------
  // Merging reviews with movie metadata
  // ---------------------------------------------------------------------------

  /** The review record a row was built from. */
  function ReviewOf(row: Row): (r: Review) {
    Review(row.id, row.movieId, row.review, row.stars, row.isFavorite)
  }

  /**
    The merge of one review with the result of its movie lookup: the review's
    fields are always kept; title and poster come from the movie, or are the
    fallback values when the lookup failed.
   */
  function Merge(rv: Review, meta: Option<MovieMeta>): (row: Row)
    ensures ReviewOf(row) == rv
    ensures meta.Some? ==> row.title == meta.value.title && row.posterUrl == PosterBase + meta.value.posterPath
    ensures meta.None? ==> row.title == TitleNotFound && row.posterUrl == ""
  {
    match meta
    case Some(m) => Row(rv.id, rv.movieId, m.title, rv.rating, rv.favorite, rv.review, PosterBase + m.posterPath)
    case None => Row(rv.id, rv.movieId, TitleNotFound, rv.rating, rv.favorite, rv.review, "")
  }

  /** The merged list, in the order of the reviews (`Promise.all` keeps positions). */
  function MergeAll(reviews: seq<Review>, metas: seq<Option<MovieMeta>>): (rows: seq<Row>)
    requires |metas| == |reviews|
    ensures |rows| == |reviews|
    ensures forall i :: 0 <= i < |rows| ==> ReviewOf(rows[i]) == reviews[i]
    ensures forall i :: 0 <= i < |rows| ==> rows[i] == Merge(reviews[i], metas[i])
    ensures forall i :: 0 <= i < |rows| && metas[i].Some? ==> rows[i].title == metas[i].value.title
    ensures forall i :: 0 <= i < |rows| && metas[i].None? ==> rows[i].title == TitleNotFound && rows[i].posterUrl == ""
  {
    seq(|reviews|, i requires 0 <= i < |reviews| => Merge(reviews[i], metas[i]))
  }

  // ---------------------------------------------------------------------------
  // Updates on the in-memory list
  // ---------------------------------------------------------------------------

  /** A change to one field of a row. */
  datatype Patch = SetStars(stars: int) | SetFavorite(isFavorite: bool) | SetText(text: string)

  /** One row with one field replaced. */
  function ApplyPatch(row: Row, p: Patch): (r: Row)
    ensures r.id == row.id && r.movieId == row.movieId && r.title == row.title && r.posterUrl == row.posterUrl
    ensures r.stars == (if p.SetStars? then p.stars else row.stars)
    ensures r.isFavorite == (if p.SetFavorite? then p.isFavorite else row.isFavorite)
    ensures r.review == (if p.SetText? then p.text else row.review)
  {
    match p
    case SetStars(v) => row.(stars := v)
    case SetFavorite(f) => row.(isFavorite := f)
    case SetText(t) => row.(review := t)
  }

  /** `favorites.map(...)`: every row with the given id is patched, every other row is kept. */
  function UpdateById(rows: seq<Row>, id: ReviewId, p: Patch): (r: seq<Row>)
    ensures |r| == |rows|
    ensures forall i :: 0 <= i < |rows| && rows[i].id != id ==> r[i] == rows[i]
    ensures forall i :: 0 <= i < |rows| && rows[i].id == id ==> r[i] == ApplyPatch(rows[i], p)
  {
    seq(|rows|, i requires 0 <= i < |rows| => if rows[i].id == id then ApplyPatch(rows[i], p) else rows[i])
  }

  /** `favorites.filter(movie => movie.id !== id)`. */
  function DeleteById(rows: seq<Row>, id: ReviewId): (r: seq<Row>)
    ensures forall i :: 0 <= i < |r| ==> r[i].id != id && r[i] in rows
    ensures forall i :: 0 <= i < |rows| && rows[i].id != id ==> rows[i] in r
  {
    Filter(rows, (row: Row) => row.id != id)
  }

  /** Deletion keeps the list order: deleting from two pieces is deleting from their concatenation. */
  lemma DeleteSplits(a: seq<Row>, b: seq<Row>, id: ReviewId)
    ensures DeleteById(a + b, id) == DeleteById(a, id) + DeleteById(b, id)
  {
    FilterConcat(a, b, (row: Row) => row.id != id);
  }

  /** On a single row deletion removes it exactly when it carries the id. */
  lemma DeleteSingle(row: Row, id: ReviewId)
    ensures DeleteById([row], id) == if row.id == id then [] else [row]
  {
  }

  /** The ids of a list, position by position. */
  function Ids(rows: seq<Row>): (ids: seq<ReviewId>)
    ensures |ids| == |rows| && forall i :: 0 <= i < |rows| ==> ids[i] == rows[i].id
  {
    seq(|rows|, i requires 0 <= i < |rows| => rows[i].id)
  }

  /** The position of the first row with id `id`, as `find` looks it up. */
  function FindRow(rows: seq<Row>, id: ReviewId): (r: Option<nat>) {
    FindFirst(rows, (row: Row) => row.id == id)
  }

  /** Patching never changes which id sits where, so lookups by id are unaffected. */
  lemma UpdateKeepsIds(rows: seq<Row>, id: ReviewId, p: Patch)
    ensures Ids(UpdateById(rows, id, p)) == Ids(rows)
    ensures FindRow(UpdateById(rows, id, p), id) == FindRow(rows, id)
  {
    var r := UpdateById(rows, id, p);
    FindFirstSamePattern(r, (row: Row) => row.id == id, rows, (row: Row) => row.id == id);
  }

  /** No two rows share an id. */
  predicate UniqueIds(rows: seq<Row>) {
    forall i, j :: 0 <= i < j < |rows| ==> rows[i].id != rows[j].id
  }

  /** With unique ids, deleting the id at position `k` removes exactly that row. */
  lemma {:induction false} DeleteUniqueRemovesOne(rows: seq<Row>, k: nat)
    requires UniqueIds(rows) && k < |rows|
    ensures DeleteById(rows, rows[k].id) == rows[..k] + rows[k + 1..]
  {
    var id := rows[k].id;
    var p := (row: Row) => row.id != id;
    assert rows == rows[..k] + ([rows[k]] + rows[k + 1..]);
    FilterConcat(rows[..k], [rows[k]] + rows[k + 1..], p);
    FilterConcat([rows[k]], rows[k + 1..], p);
    FilterKeepsAll(rows[..k], p);
    FilterKeepsAll(rows[k + 1..], p);
    assert Filter([rows[k]], p) == [];
  }

  /** Deleting an id that no row has leaves the list as it was. */
  lemma DeleteAbsentIsIdentity(rows: seq<Row>, id: ReviewId)
    requires forall i :: 0 <= i < |rows| ==> rows[i].id != id
    ensures DeleteById(rows, id) == rows
  {
    FilterKeepsAll(rows, (row: Row) => row.id != id);
  }

  /** Deleting twice is deleting once. */
  lemma DeleteIdempotent(rows: seq<Row>, id: ReviewId)
    ensures DeleteById(DeleteById(rows, id), id) == DeleteById(rows, id)
  {
    DeleteAbsentIsIdentity(DeleteById(rows, id), id);
  }

  // ---------------------------------------------------------------------------
  // Commands from the rows, applied by the list
  // ---------------------------------------------------------------------------

  /** The callbacks a row invokes on the list. */
  datatype Command =
    | RatingChange(id: ReviewId, value: int)
    | ToggleFavorite(id: ReviewId, isFavorite: bool)
    | SaveReview(id: ReviewId, text: string)
    | DeleteReview(id: ReviewId)

  /** A remote request: a full-record update or a deletion. */
  datatype Request = Put(id: ReviewId, body: ReviewBody) | Delete(id: ReviewId)

  /** The new list, and the request sent, if any. */
  datatype ListStep = ListStep(rows: seq<Row>, request: Option<Request>)

  /** The full body for a row: its text, stars and favourite flag. */
  function BodyOf(row: Row): (r: ReviewBody) {
    ReviewBody(row.review, row.stars, row.isFavorite)
  }

  /**
    `handleRatingChange`, `handleToggleFavorite`, `handleSaveReview` and
    `handleDeleteReview`. Updates patch every matching row, then look up the
    first matching row of the new list and send its full record with the new
    value; without a match the lookup throws and nothing is sent. A deletion
    always sends its request.
   */
  function ApplyCommand(rows: seq<Row>, cmd: Command): (r: ListStep)
    ensures cmd.DeleteReview? ==> r.rows == DeleteById(rows, cmd.id) && r.request == Some(Delete(cmd.id))
    ensures !cmd.DeleteReview? ==> r.rows == UpdateById(rows, cmd.id, PatchOf(cmd))
    ensures !cmd.DeleteReview? ==>
              match FindRow(rows, cmd.id)
              case None => r.request.None?
              case Some(k) => r.request == Some(Put(cmd.id, BodyOf(ApplyPatch(rows[k], PatchOf(cmd)))))
  {
    match cmd
    case DeleteReview(id) => ListStep(DeleteById(rows, id), Some(Delete(id)))
    case _ =>
      var updated := UpdateById(rows, cmd.id, PatchOf(cmd));
      UpdateKeepsIds(rows, cmd.id, PatchOf(cmd));
      match FindRow(updated, cmd.id)
      case None => ListStep(updated, None)
      case Some(k) =>
        var m := updated[k];
        var body := match cmd
          case RatingChange(_, v) => ReviewBody(m.review, v, m.isFavorite)
          case ToggleFavorite(_, f) => ReviewBody(m.review, m.stars, f)
          case SaveReview(_, t) => ReviewBody(t, m.stars, m.isFavorite);
        ListStep(updated, Some(Put(cmd.id, body)))
  }

  /** The patch an update command makes to its row. */
  function PatchOf(cmd: Command): (r: Patch)
    requires !cmd.DeleteReview?
  {
    match cmd
    case RatingChange(_, v) => SetStars(v)
    case ToggleFavorite(_, f) => SetFavorite(f)
    case SaveReview(_, t) => SetText(t)
  }

  /**
    Full-record overwrite: a rating change sends the new rating together with
    the text and favourite flag the row had before the edit.
   */
  lemma RatingPutCarriesOtherFields(rows: seq<Row>, k: nat, value: int)
    requires k < |rows| && FindRow(rows, rows[k].id) == Some(k)
    ensures ApplyCommand(rows, RatingChange(rows[k].id, value)).request
              == Some(Put(rows[k].id, ReviewBody(rows[k].review, value, rows[k].isFavorite)))
  {
  }

  /**
    Optimistic update: the body sent for an update equals the first matching
    row of the new local list, so local state and request agree.
   */
  lemma PutMatchesLocalCopy(rows: seq<Row>, cmd: Command)
    requires !cmd.DeleteReview?
    ensures var r := ApplyCommand(rows, cmd);
            r.request.Some? ==>
              exists k :: 0 <= k < |r.rows| && r.rows[k].id == cmd.id && r.request == Some(Put(cmd.id, BodyOf(r.rows[k])))
  {
    var r := ApplyCommand(rows, cmd);
    UpdateKeepsIds(rows, cmd.id, PatchOf(cmd));
    if r.request.Some? {
      var k := FindRow(rows, cmd.id).value;
      assert r.rows[k] == ApplyPatch(rows[k], PatchOf(cmd));
    }
  }

  /** Updates keep the length, the order of ids, and every row with another id. */
  lemma UpdateTouchesOnlyMatching(rows: seq<Row>, cmd: Command)
    requires !cmd.DeleteReview?
    ensures var r := ApplyCommand(rows, cmd).rows;
            && Ids(r) == Ids(rows)
            && (forall i :: 0 <= i < |rows| && rows[i].id != cmd.id ==> r[i] == rows[i])
            && (forall i :: 0 <= i < |rows| ==> r[i].title == rows[i].title && r[i].movieId == rows[i].movieId)
  {
    UpdateKeepsIds(rows, cmd.id, PatchOf(cmd));
  }

  // ---------------------------------------------------------------------------
  // The per-row Display/Editing machine (`FavoriteMovie`)
  // ---------------------------------------------------------------------------

  /** A row's local state; the temporaries are initialised once, when the row mounts. */
  datatype RowState = RowState(editing: bool, tempReview: string, tempStars: int, tempIsFavorite: bool, error: Option<string>)

  /** The message shown when saving blank text. */
  const EmptyReviewError: string := "You need to write something!"

  /** The state of a freshly mounted row. */
  function MountRow(row: Row): (st: RowState)
    ensures !st.editing && st.error.None?
    ensures st.tempReview == row.review && st.tempStars == row.stars && st.tempIsFavorite == row.isFavorite
  {
    RowState(false, row.review, row.stars, row.isFavorite, None)
  }

  /** What the user can do to a row. Star, heart, text and delete exist only while editing. */
  datatype RowEvent = ClickEditOrSave | ClickHeart | ClickStar(value: int) | TypeText(text: string) | ClickDelete

  /** The row's new state and the callback it invoked, if any. */
  datatype RowStep = RowStep(state: RowState, command: Option<Command>)

  /**
    `FavoriteMovie`'s handlers. In Display mode only the Edit button reacts and
    merely switches to Editing. In Editing mode Save trims the text, rejecting
    it when blank; star and heart write through to the list at once.
   */
  function RowHandle(id: ReviewId, st: RowState, ev: RowEvent): (r: RowStep)
    ensures !st.editing && !ev.ClickEditOrSave? ==> r == RowStep(st, None)
    ensures !st.editing && ev.ClickEditOrSave? ==> r == RowStep(st.(editing := true), None)
    ensures st.editing && ev.ClickEditOrSave? && Trim(st.tempReview) == "" ==>
              r == RowStep(st.(error := Some(EmptyReviewError)), None)
    ensures st.editing && ev.ClickEditOrSave? && Trim(st.tempReview) != "" ==>
              && r.command == Some(SaveReview(id, Trim(st.tempReview)))
              && r.state == st.(editing := false, error := None)
    ensures st.editing && ev.ClickHeart? ==>
              && r.command == Some(ToggleFavorite(id, !st.tempIsFavorite))
              && r.state == st.(tempIsFavorite := !st.tempIsFavorite)
    ensures st.editing && ev.ClickStar? ==>
              r == RowStep(st.(tempStars := ev.value), Some(RatingChange(id, ev.value)))
    ensures st.editing && ev.TypeText? ==> r == RowStep(st.(tempReview := ev.text), None)
    ensures st.editing && ev.ClickDelete? ==> r == RowStep(st.(editing := false), Some(DeleteReview(id)))
  {
    match ev
    case ClickEditOrSave =>
      if !st.editing then RowStep(st.(editing := !st.editing), None)
      else if Trim(st.tempReview) == "" then RowStep(st.(error := Some(EmptyReviewError)), None)
      else RowStep(st.(editing := false, error := None), Some(SaveReview(id, Trim(st.tempReview))))
    case ClickHeart =>
      if !st.editing then RowStep(st, None)
      else RowStep(st.(tempIsFavorite := !st.tempIsFavorite), Some(ToggleFavorite(id, !st.tempIsFavorite)))
    case ClickStar(v) =>
      if !st.editing then RowStep(st, None)
      else RowStep(st.(tempStars := v), Some(RatingChange(id, v)))
    case TypeText(t) =>
      if !st.editing then RowStep(st, None)
      else RowStep(st.(tempReview := t), None)
    case ClickDelete =>
      if !st.editing then RowStep(st, None)
      else RowStep(st.(editing := false), Some(DeleteReview(id)))
  }

  /**
    Saving blank text never reaches the list: the row stays in Editing with the
    error set exactly when the text is all whitespace.
   */
  lemma SaveRejectsOnlyBlank(id: ReviewId, st: RowState)
    requires st.editing
    ensures var r := RowHandle(id, st, ClickEditOrSave);
            r.command.None? <==> forall i :: 0 <= i < |st.tempReview| ==> IsJsSpace(st.tempReview[i])
  {
    TrimEmptyIff(st.tempReview);
  }

  /** Text that reaches the list is non-empty and carries no leading or trailing whitespace. */
  lemma SavedTextIsTrimmed(id: ReviewId, st: RowState)
    ensures var r := RowHandle(id, st, ClickEditOrSave);
            r.command.Some? ==>
              && r.command.value.SaveReview?
              && var t := r.command.value.text;
                 t != "" && !IsJsSpace(t[0]) && !IsJsSpace(t[|t| - 1]) && Trim(t) == t
  {
    TrimIdempotent(st.tempReview);
  }

  /** A second heart click restores the flag and forwards the original value again. */
  lemma HeartTwiceRestores(id: ReviewId, st: RowState)
    requires st.editing
    ensures var once := RowHandle(id, st, ClickHeart);
            var twice := RowHandle(id, once.state, ClickHeart);
            twice.state == st && twice.command == Some(ToggleFavorite(id, st.tempIsFavorite))
  {
  }

  /** A Display-mode row emits no command, whatever the event. */
  lemma DisplayModeIsInert(id: ReviewId, st: RowState, ev: RowEvent)
    requires !st.editing
    ensures RowHandle(id, st, ev).command.None?
  {
  }

  // ---------------------------------------------------------------------------
  // The favourite filter
  // ---------------------------------------------------------------------------

  datatype FilterFlags = FilterFlags(showFavorites: bool, showNonFavorites: bool)

  /** Both kinds are shown when the view mounts. */
  const InitialFlags: FilterFlags := FilterFlags(true, true)

  /** Whether the filter lets a row through. */
  predicate Shown(flags: FilterFlags, row: Row) {
    (flags.showFavorites && row.isFavorite) || (flags.showNonFavorites && !row.isFavorite)
  }

  /** `filteredFavorites`. */
  function Visible(flags: FilterFlags, rows: seq<Row>): (r: seq<Row>)
    ensures forall i :: 0 <= i < |r| ==> r[i] in rows && Shown(flags, r[i])
    ensures forall i :: 0 <= i < |rows| && Shown(flags, rows[i]) ==> rows[i] in r
  {
    Filter(rows, (row: Row) => Shown(flags, row))
  }

  /** `handleFilterChange`: flips the named flag; an unknown name changes nothing. */
  function HandleFilterChange(flags: FilterFlags, filterType: string): (r: FilterFlags)
    ensures filterType == "favorites" ==>
              r.showFavorites == !flags.showFavorites && r.showNonFavorites == flags.showNonFavorites
    ensures filterType == "nonFavorites" ==>
              r.showNonFavorites == !flags.showNonFavorites && r.showFavorites == flags.showFavorites
    ensures filterType != "favorites" && filterType != "nonFavorites" ==> r == flags
  {
    if filterType == "favorites" then flags.(showFavorites := !flags.showFavorites)
    else if filterType == "nonFavorites" then flags.(showNonFavorites := !flags.showNonFavorites)
    else flags
  }

  /** Changing the same filter twice restores the flags. */
  lemma FilterChangeInvolutive(flags: FilterFlags, filterType: string)
    ensures HandleFilterChange(HandleFilterChange(flags, filterType), filterType) == flags
  {
  }

  /** Both flags off: nothing is shown. */
  lemma BothOffShowsNothing(rows: seq<Row>)
    ensures Visible(FilterFlags(false, false), rows) == []
  {
    FilterDropsAll(rows, (row: Row) => Shown(FilterFlags(false, false), row));
  }

  /** Both flags on: everything is shown, in order. */
  lemma BothOnShowsAll(rows: seq<Row>)
    ensures Visible(FilterFlags(true, true), rows) == rows
  {
    FilterKeepsAll(rows, (row: Row) => Shown(FilterFlags(true, true), row));
  }

  /** On mount every row is shown; unticking "favorites" then leaves exactly the non-favourites. */
  lemma MountedShowsAll(rows: seq<Row>)
    ensures Visible(InitialFlags, rows) == rows
    ensures Visible(HandleFilterChange(InitialFlags, "favorites"), rows) == Filter(rows, (row: Row) => !row.isFavorite)
  {
    BothOnShowsAll(rows);
    NonFavoritesOnly(rows);
  }

  /** Only non-favourites: exactly the rows whose flag is off, in their original order. */
  lemma NonFavoritesOnly(rows: seq<Row>)
    ensures Visible(FilterFlags(false, true), rows) == Filter(rows, (row: Row) => !row.isFavorite)
  {
    FilterExtensional(rows, (row: Row) => Shown(FilterFlags(false, true), row), (row: Row) => !row.isFavorite);
  }

  /** Only favourites: exactly the rows whose flag is on, in their original order. */
  lemma FavoritesOnly(rows: seq<Row>)
    ensures Visible(FilterFlags(true, false), rows) == Filter(rows, (row: Row) => row.isFavorite)
  {
    FilterExtensional(rows, (row: Row) => Shown(FilterFlags(true, false), row), (row: Row) => row.isFavorite);
  }

  /** The filtered list is the favourites and the non-favourites put back together in order. */
  lemma VisibleSplits(flags: FilterFlags, a: seq<Row>, b: seq<Row>)
    ensures Visible(flags, a + b) == Visible(flags, a) + Visible(flags, b)
  {
    FilterConcat(a, b, (row: Row) => Shown(flags, row));
  }

  // ---------------------------------------------------------------------------
  // The page
  // ---------------------------------------------------------------------------

  /** What the view shows. */
  datatype Page = LoginPrompt | NoReviews | ReviewList(rows: seq<Row>)

  /** Anonymous users get the login prompt; others the filtered list, or a placeholder when it is empty. */
  function RenderPage(session: Auth.Session, flags: FilterFlags, rows: seq<Row>): (p: Page)
    ensures p.LoginPrompt? <==> !session.isAuthenticated
    ensures p.ReviewList? ==> p.rows == Visible(flags, rows) && p.rows != []
    ensures p.NoReviews? <==> session.isAuthenticated && Visible(flags, rows) == []
  {
    if !session.isAuthenticated then LoginPrompt
    else if |Visible(flags, rows)| > 0 then ReviewList(Visible(flags, rows))
    else NoReviews
  }
}
