/**
  The movie detail view (`MovieDetails`): star and heart controls gated on the
  session, the "add review" dialog with its client-side validation, the lookup
  of the user's existing review, and the recommendation strip. Remote calls
  are abstract inputs; requests are returned as values so that "no request is
  sent" can be stated.
 */
module Details {
  import opened Common
  import Auth
  import opened Reviews

  /** The view's local state (movie metadata and load errors are left out). */
  datatype DetailState = DetailState(
    rating: int,
    favorite: bool,
    loginOpen: bool,
    reviewModalOpen: bool,
    review: string,
    userReview: Option<Review>,
    reviewError: Option<string>)

  /** The state on mount: no rating, not a favourite, both dialogs closed, no review known. */
  const Mounted: DetailState := DetailState(0, false, false, false, "", None, None)

  /** What a star or heart click does in the current situation. */
  datatype Gate =
    | AskLogin   // anonymous: open the login dialog
    | Inert      // a review already exists: the control is dimmed and ignores clicks
    | Enabled    // logged in, no review yet: the click edits the draft

  /** The three-way authorisation gate shared by the star and heart controls. */
  function ControlGate(session: Auth.Session, st: DetailState): (g: Gate)
    ensures g == AskLogin <==> !session.isAuthenticated
    ensures g == Inert <==> session.isAuthenticated && st.userReview.Some?
    ensures g == Enabled <==> session.isAuthenticated && st.userReview.None?
  {
    if !session.isAuthenticated then AskLogin
    else if st.userReview.Some? then Inert
    else Enabled
  }

  /** The star toggle: clicking the current rating clears it, any other star sets it. */
  function ToggleStar(prev: int, value: int): (r: int) {
    if prev == value then 0 else value
  }

  /** `handleRating(value)`. */
  function HandleRating(session: Auth.Session, st: DetailState, value: int): (r: DetailState)
    ensures !session.isAuthenticated ==> r == st.(loginOpen := true)
    ensures session.isAuthenticated && st.userReview.Some? ==> r == st
    ensures session.isAuthenticated && st.userReview.None? ==>
              r.rating == (if st.rating == value then 0 else value) && r.(rating := st.rating) == st
  {
    match ControlGate(session, st)
    case AskLogin => st.(loginOpen := true)
    case Inert => st
    case Enabled => st.(rating := ToggleStar(st.rating, value))
  }

  /** `handleFavoriteToggle()`. */
  function HandleFavoriteToggle(session: Auth.Session, st: DetailState): (r: DetailState)
    ensures !session.isAuthenticated ==> r == st.(loginOpen := true)
    ensures session.isAuthenticated && st.userReview.Some? ==> r == st
    ensures session.isAuthenticated && st.userReview.None? ==>
              r.favorite == !st.favorite && r.(favorite := st.favorite) == st
  {
    match ControlGate(session, st)
    case AskLogin => st.(loginOpen := true)
    case Inert => st
    case Enabled => st.(favorite := !st.favorite)
  }

  /** `handleAddReview()`: anonymous users get the login dialog, others the review dialog. */
  function HandleAddReview(session: Auth.Session, st: DetailState): (r: DetailState)
    ensures !session.isAuthenticated ==> r == st.(loginOpen := true)
    ensures session.isAuthenticated ==> r == st.(reviewModalOpen := true)
  {
    if !session.isAuthenticated then st.(loginOpen := true) else st.(reviewModalOpen := true)
  }

  /** Clicking the same star twice returns to where it started, or to 0 from any other rating. */
  lemma StarTwice(session: Auth.Session, st: DetailState, value: int)
    requires session.isAuthenticated && st.userReview.None?
    requires 1 <= value <= MaxStars
    ensures HandleRating(session, HandleRating(session, st, value), value).rating
              == (if st.rating == value then value else 0)
  {
  }

  /** Star clicks keep the draft rating within 0..5. */
  lemma RatingStaysInRange(session: Auth.Session, st: DetailState, value: int)
    requires 0 <= st.rating <= MaxStars && 1 <= value <= MaxStars
    ensures 0 <= HandleRating(session, st, value).rating <= MaxStars
  {
  }

  /**
    On a freshly mounted page the controls are enabled for a logged-in user and
    the first star click sets exactly that star.
   */
  lemma MountedControlsEnabled(session: Auth.Session, value: int)
    requires session.isAuthenticated && 1 <= value <= MaxStars
    ensures ControlGate(session, Mounted) == Enabled
    ensures HandleRating(session, Mounted, value) == Mounted.(rating := value)
  {
  }

  /** An anonymous user's clicks never change the draft rating, favourite or text. */
  lemma AnonymousClicksSwallowed(session: Auth.Session, st: DetailState, value: int)
    requires !session.isAuthenticated
    ensures var r := HandleRating(session, st, value);
            r.rating == st.rating && r.favorite == st.favorite && r.review == st.review && r.loginOpen
    ensures var r := HandleFavoriteToggle(session, st);
            r.rating == st.rating && r.favorite == st.favorite && r.review == st.review && r.loginOpen
  {
  }

  /** The heart toggles back to where it was after two enabled clicks. */
  lemma HeartTwice(session: Auth.Session, st: DetailState)
    ensures HandleFavoriteToggle(session, HandleFavoriteToggle(session, st)).favorite == st.favorite
  {
  }

  // ---------------------------------------------------------------------------
  // Review submission
  // ---------------------------------------------------------------------------

  /** The validation message of `handleSubmitReview`. */
  const InvalidReviewError: string := "Please add a valid review"

  /**
    The message set when the creation request throws. The source passes two
    arguments to the state setter; the second is ignored, so only this text remains.
   */
  const SubmitFailedError: string := "Error submitting review:"

  /** How a creation request ends. */
  datatype SubmitResponse = Created | Rejected(error: Option<string>) | Failed

  /** The state after a submission, and the creation request sent, if any. */
  datatype Submission = Submission(state: DetailState, request: Option<NewReview>)

  /** The submission is well formed: user id, movie id and text present, rating non-zero. */
  predicate Submittable(userId: Option<string>, movieId: MovieId, st: DetailState) {
    TruthyOpt(userId) && Truthy(movieId) && Truthy(st.review) && st.rating != 0
  }

  /**
    The creation request of `handleSubmitReview`, or `None` when one of the
    user id, the movie id or the text is falsy, or the rating is 0.
   */
  function ValidateSubmission(userId: Option<string>, movieId: MovieId, st: DetailState): (r: Option<NewReview>)
    ensures r.Some? <==> Submittable(userId, movieId, st)
    ensures r.Some? ==> r.value.userId == userId.value && r.value.movieId == movieId
    ensures r.Some? ==> r.value.review == st.review && r.value.rating == st.rating && r.value.favorite == st.favorite
  {
    if !TruthyOpt(userId) || !Truthy(movieId) || !Truthy(st.review) || st.rating == 0 then None
    else Some(NewReview(userId.value, movieId, st.review, st.rating, st.favorite))
  }

  /**
    `handleSubmitReview`: an invalid draft sets the validation error and sends
    nothing. A valid one sends its creation request; on success the dialog
    closes and the draft resets, otherwise the error is shown and the draft kept.
   */
  function SubmitReview(session: Auth.Session, movieId: MovieId, st: DetailState, resp: SubmitResponse): (r: Submission)
    ensures !Submittable(session.userId, movieId, st) ==>
              r.request.None? && r.state == st.(reviewError := Some(InvalidReviewError))
    ensures Submittable(session.userId, movieId, st) ==>
              r.request == ValidateSubmission(session.userId, movieId, st) && r.request.Some?
    ensures Submittable(session.userId, movieId, st) && resp.Created? ==>
              && !r.state.reviewModalOpen && r.state.review == "" && r.state.rating == 0 && !r.state.favorite
              && r.state.reviewError == st.reviewError && r.state.userReview == st.userReview
              && r.state.loginOpen == st.loginOpen
    ensures Submittable(session.userId, movieId, st) && !resp.Created? ==>
              && r.state.reviewError.Some? == (resp.Failed? || resp.error.Some?)
              && r.state.(reviewError := st.reviewError) == st
    ensures Submittable(session.userId, movieId, st) && resp.Rejected? ==> r.state.reviewError == resp.error
    ensures Submittable(session.userId, movieId, st) && resp.Failed? ==> r.state.reviewError == Some(SubmitFailedError)
  {
    match ValidateSubmission(session.userId, movieId, st)
    case None => Submission(st.(reviewError := Some(InvalidReviewError)), None)
    case Some(body) =>
      var next := match resp
        case Created =>
          st.(reviewModalOpen := false, review := "", rating := 0, favorite := false)
        case Rejected(e) => st.(reviewError := e)
        case Failed => st.(reviewError := Some(SubmitFailedError));
      Submission(next, Some(body))
  }

  /** Empty text is always rejected with an error and never reaches the server. */
  lemma EmptyTextNeverSent(session: Auth.Session, movieId: MovieId, st: DetailState, resp: SubmitResponse)
    requires st.review == ""
    ensures SubmitReview(session, movieId, st, resp).request.None?
    ensures SubmitReview(session, movieId, st, resp).state.reviewError == Some(InvalidReviewError)
  {
  }

  /** A rejected draft is left intact, so the user can correct it and resubmit. */
  lemma RejectedDraftKept(session: Auth.Session, movieId: MovieId, st: DetailState, resp: SubmitResponse)
    ensures var r := SubmitReview(session, movieId, st, resp).state;
            !resp.Created? || !Submittable(session.userId, movieId, st) ==>
              r.review == st.review && r.rating == st.rating && r.favorite == st.favorite
  {
  }

  // ---------------------------------------------------------------------------
  // The user's existing review
  // ---------------------------------------------------------------------------

  /** The first review whose `movieId` is `movieId`, as `Array.prototype.find` returns it. */
  function FindReview(reviews: seq<Review>, movieId: MovieId): (r: Option<Review>)
    ensures r.None? <==> forall i :: 0 <= i < |reviews| ==> reviews[i].movieId != movieId
    ensures r.Some? ==> exists i :: 0 <= i < |reviews| && reviews[i] == r.value && IsFirstFor(reviews, movieId, i)
  {
    match FindFirst(reviews, (rv: Review) => rv.movieId == movieId)
    case None => None
    case Some(i) => assert IsFirstFor(reviews, movieId, i); Some(reviews[i])
  }

  /** Position `i` holds the first review of `movieId`. */
  predicate IsFirstFor(reviews: seq<Review>, movieId: MovieId, i: int) {
    && 0 <= i < |reviews|
    && reviews[i].movieId == movieId
    && forall j :: 0 <= j < i ==> reviews[j].movieId != movieId
  }

  /**
    `fetchUserReview`, run on mount only for a logged-in user. A found review
    supplies the rating and favourite and disables the controls; otherwise the
    view records that there is none. A failed load changes nothing.
   */
  function LoadUserReview(session: Auth.Session, movieId: MovieId, st: DetailState, reviews: Option<seq<Review>>): (r: DetailState)
    ensures !session.isAuthenticated || reviews.None? ==> r == st
    ensures session.isAuthenticated && reviews.Some? ==>
              && r.userReview == FindReview(reviews.value, movieId)
              && (r.userReview.Some? ==> r.rating == r.userReview.value.rating && r.favorite == r.userReview.value.favorite)
              && (r.userReview.None? ==> r.rating == st.rating && r.favorite == st.favorite)
              && r.(rating := st.rating, favorite := st.favorite, userReview := st.userReview) == st
  {
    if !session.isAuthenticated || reviews.None? then st
    else match FindReview(reviews.value, movieId)
      case Some(rv) => st.(rating := rv.rating, favorite := rv.favorite, userReview := Some(rv))
      case None => st.(userReview := None)
  }

  /** Once a review is found, star and heart clicks are ignored until the view is left. */
  lemma FoundReviewFreezesControls(session: Auth.Session, movieId: MovieId, st: DetailState,
                                   reviews: seq<Review>, value: int)
    requires session.isAuthenticated
    requires exists i :: 0 <= i < |reviews| && reviews[i].movieId == movieId
    ensures var loaded := LoadUserReview(session, movieId, st, Some(reviews));
            && HandleRating(session, loaded, value) == loaded
            && HandleFavoriteToggle(session, loaded) == loaded
  {
  }

  /** `resetRatingAndFavorite`, run when following a recommendation link. */
  function ResetRatingAndFavorite(st: DetailState): (r: DetailState)
    ensures r.rating == 0 && !r.favorite
    ensures r.(rating := st.rating, favorite := st.favorite) == st
  {
    st.(rating := 0, favorite := false)
  }

  // ---------------------------------------------------------------------------
  // Recommendations
  // ---------------------------------------------------------------------------

  /** How many recommendations are shown. */
  const RecommendationCount: nat := 5

  /** `results.slice(0, 5)`: the first five results, or all of them if fewer. */
  function Recommendations<T>(results: seq<T>): (r: seq<T>)
    ensures |r| <= RecommendationCount
    ensures |r| == if |results| < RecommendationCount then |results| else RecommendationCount
    ensures r == results[..|r|]
  {
    if |results| <= RecommendationCount then results else results[..RecommendationCount]
  }
}
