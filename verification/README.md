# Movie catalogue client: a verified model of its state logic

The repository is a React single-page client for a movie catalogue. Users can
browse popular and now-playing movies, open a movie's detail page, and, once
logged in, attach a star rating, a favourite flag and a text review to a movie.
All data and authentication live behind a remote HTTP API. The client's own
logic is the state changed by its event handlers, and that is what this
project models. Each handler is a pure function from the view's state (and the
event or the server's answer) to the next state. Where a handler sends a
request, the request is part of the result, so "no request is sent" is a
provable fact.

Modules, one per component:

- `Common` (`common.dfy`): `Option` for `null`, string truthiness,
  `Array.prototype.filter` / `findIndex`, and `String.prototype.trim` with
  the ECMAScript whitespace set.
- `Auth` (`auth.dfy`): the session store, `{isAuthenticated, userId}`, with
  `login` and `logout`. Also runs of events and the invariant
  "authenticated iff a user id is held".
- `LoginGate` (`login_gate.dfy`): the login dialog. The server's answer is an
  abstract input: accepted with a user, refused with an error body, or
  failed.
- `Reviews` (`reviews.dfy`): the review record and the creation and update
  request bodies.
- `Details` (`details.dfy`): the movie detail view. It covers the three-way
  gate on stars and heart, the star toggle, review validation and
  submission, the lookup of the user's existing review, and the
  five-recommendation cut.
- `Favorites` (`favorites.dfy`): the reviews view. It covers the merge of
  reviews with movie metadata, the per-row Display/Editing machine, the
  optimistic list updates with their full-record requests, deletion, the
  two-flag favourite filter and the page choice.
- `Catalogue` (`catalogue.dfy`): the five-page fetch pipeline (genre
  filter, first-occurrence dedupe by id, 20-item page) and the
  genre/page handlers.
- `Carousel` (`carousel.dfy`): the home carousel's modular next/previous
  index, indicator selection and auto-advance.

Behaviour of the code worth knowing (the model follows the code as written):

- Switching a review row from Display to Editing only flips `editing`. The
  temporary fields are set once, when the row mounts, and are not re-copied
  (`Favorites.RowHandle`, `Favorites.MountRow`).
- In Editing mode, star and heart clicks write straight through to the list
  and send the full-record update at once. Only the text waits for Save
  (`Favorites.RowHandle`, `Favorites.ApplyCommand`).
- `login` does no validation. The invariant "authenticated iff a user id is
  held" therefore holds only when every login carries an id. This is
  `Auth.ReachableConsistent`'s precondition, and
  `Auth.LoginWithoutIdBreaksInvariant` shows the precondition is needed.
- The detail view's review check tests the text for emptiness without
  trimming, so whitespace-only text passes there. The reviews view trims
  before it checks.
- After a successful review submission the detail view resets the draft.
  It does not clear the previous validation message and does not record
  the new review, so the controls stay enabled
  (`Details.SubmitReview`).
- When the creation request throws, the error setter is called with two
  arguments. Only the first is kept, so the message is exactly
  `"Error submitting review:"`.
- The carousel arrows are drawn before the popular movies arrive. A click
  then computes the index modulo 0, which is `NaN`. `NaN` survives the load,
  later arrows and the auto-advance, so no slide is shown until an
  indicator dot is clicked (`Carousel.NaNPersists`,
  `Carousel.EarlyArrowHidesCarousel`).

## Model

| member | source | states |
|---|---|---|
| Auth.Login | src/components/AuthContext.jsx:13-16 | login makes the session authenticated with the given user id whatever it was before; the result is consistent exactly when an id was given |
| Auth.Logout | src/components/AuthContext.jsx:19-22 | logout yields the initial session `{false, null}` from any state |
| Auth.LogoutIdempotent | src/components/AuthContext.jsx:19-22 | logging out twice is logging out once |
| Auth.LoginThenLogout | src/components/AuthContext.jsx:9-22 | login followed by logout is exactly the initial session |
| Auth.EndsLoggedOut | src/components/AuthContext.jsx:9-22 | any sequence of logins and logouts that ends with a logout ends in the initial session |
| Auth.ReachableConsistent | src/components/AuthContext.jsx:9-22 | if every login carries a user id, every reachable session is authenticated exactly when it holds a user id |
| Auth.LoginWithoutIdBreaksInvariant | src/components/AuthContext.jsx:13-16 | since login does not validate, one login without an id yields an inconsistent session |
| LoginGate.ToUserData | src/components/LoginModal.jsx:29-30 | the user data handed to the store takes `userId` from the server's `_id` |
| LoginGate.HandleLogin | src/components/LoginModal.jsx:11-43 | accepted: the session gets the server's user id and the dialog closes with no error; refused: the server's error is shown, session and dialog unchanged; failed: the generic message is shown, session and dialog unchanged |
| LoginGate.PriorErrorIrrelevant | src/components/LoginModal.jsx:13 | the error is cleared before each attempt, so the previous message has no influence on the outcome |
| LoginGate.SessionChangesOnlyOnAccept | src/components/LoginModal.jsx:27-42 | only an accepted login changes the session, and no attempt logs anyone out |
| LoginGate.HandleLoginKeepsConsistent | src/components/LoginModal.jsx:27-33 | when the server sends an id, a login attempt keeps the session invariant |
| LoginGate.HandleOverlayClick | src/components/LoginModal.jsx:46-50 | the dialog closes only when the click target is the overlay itself; the session and message are untouched |
| LoginGate.Close | src/components/LoginModal.jsx:91 | the close button closes the dialog without touching the session or the message |
| LoginGate.Open | src/components/Nav.jsx:36-38 | opening the dialog keeps the session and the last message |
| LoginGate.Render | src/components/LoginModal.jsx:53-63 | nothing is rendered while closed; the error line appears exactly for a truthy message |
| LoginGate.AcceptedHidesDialog | src/components/LoginModal.jsx:27-53 | after an accepted login the dialog renders nothing |
| Details.ControlGate | src/components/MovieDetails.jsx:88-107 | the star/heart gate asks for login exactly when anonymous, is inert exactly when a review exists, and is enabled otherwise |
| Details.MountedControlsEnabled | src/components/MovieDetails.jsx:15-22 | on a freshly mounted page a logged-in user's controls are enabled, and the first star click sets exactly that star |
| Details.HandleRating | src/components/MovieDetails.jsx:99-107 | anonymous: only the login dialog opens; existing review: nothing changes; otherwise the rating toggles between the clicked star and 0, nothing else changes |
| Details.HandleFavoriteToggle | src/components/MovieDetails.jsx:88-96 | same gate as the stars; when enabled only the favourite flag is negated |
| Details.HandleAddReview | src/components/MovieDetails.jsx:116-122 | anonymous users get the login dialog, authenticated users the review dialog |
| Details.StarTwice | src/components/MovieDetails.jsx:103-105 | two clicks on the same star restore the rating if it was that star, and give 0 from any other rating |
| Details.RatingStaysInRange | src/components/MovieDetails.jsx:99-107 | star clicks keep the rating within 0..5 |
| Details.AnonymousClicksSwallowed | src/components/MovieDetails.jsx:88-107 | anonymous clicks leave rating, favourite and text unchanged and open the login dialog |
| Details.HeartTwice | src/components/MovieDetails.jsx:88-96 | two heart clicks leave the favourite flag as it was |
| Details.ValidateSubmission | src/components/MovieDetails.jsx:127-140 | a request exists exactly when user id, movie id and text are truthy and the rating is non-zero, and it carries exactly those fields |
| Details.SubmitReview | src/components/MovieDetails.jsx:124-167 | an invalid draft sets the validation error and sends nothing; a valid one sends its request; on success the dialog closes and text, rating and favourite reset; a refusal shows the server's error value, a thrown request shows exactly `"Error submitting review:"`, and nothing else changes |
| Details.EmptyTextNeverSent | src/components/MovieDetails.jsx:127-130 | empty review text never produces a request and always sets the validation error |
| Details.RejectedDraftKept | src/components/MovieDetails.jsx:127-166 | unless the server accepts, the draft text, rating and favourite are kept |
| Details.FindReview | src/components/MovieDetails.jsx:73 | the result is the first review whose movie id matches, and is absent exactly when none matches |
| Details.LoadUserReview | src/components/MovieDetails.jsx:64-85 | when logged in, a found review supplies rating and favourite and is recorded; none found records null and keeps the draft; anonymous or failed loads change nothing |
| Details.FoundReviewFreezesControls | src/components/MovieDetails.jsx:73-107 | once the user's review is loaded, star and heart clicks change nothing |
| Details.ResetRatingAndFavorite | src/components/MovieDetails.jsx:199-202 | following a recommendation clears rating and favourite and nothing else |
| Details.Recommendations | src/components/MovieDetails.jsx:56 | at most five recommendations, and they are a prefix of the results of length min(5, n) |
| Favorites.Merge | src/components/Favorites.jsx:191-211 | the merged row keeps id, movie id, rating, favourite and text of the review whether or not the movie lookup succeeded; title and poster come from the movie or are the fallbacks |
| Favorites.MergeAll | src/components/Favorites.jsx:183-215 | one row per review, in order; row i carries review i's fields and the title and poster of movie lookup i, or the not-found fallbacks when that lookup failed |
| Favorites.ApplyPatch | src/components/Favorites.jsx:237-278 | a patch replaces exactly one of stars, favourite or text and keeps every other field |
| Favorites.UpdateById | src/components/Favorites.jsx:237-242 | same length; rows with another id unchanged; rows with the id patched |
| Favorites.UpdateKeepsIds | src/components/Favorites.jsx:237-245 | an update keeps the id at every position, so looking up the id finds the same position |
| Favorites.UpdateTouchesOnlyMatching | src/components/Favorites.jsx:235-286 | rating, favourite and text updates keep length, id order, every row with another id, and the titles and movie ids of all rows |
| Favorites.DeleteById | src/components/Favorites.jsx:291 | no row with the id remains, and every row with another id is kept |
| Favorites.DeleteSplits | src/components/Favorites.jsx:291 | deletion keeps list order whatever the ids: deleting from two pieces is deleting from their concatenation |
| Favorites.DeleteSingle | src/components/Favorites.jsx:291 | a single row is removed exactly when it carries the id |
| Favorites.DeleteUniqueRemovesOne | src/components/Favorites.jsx:289-292 | with unique ids, deleting the id at position k removes exactly that row and keeps the others in order |
| Favorites.DeleteAbsentIsIdentity | src/components/Favorites.jsx:291 | deleting an id no row has leaves the list unchanged |
| Favorites.DeleteIdempotent | src/components/Favorites.jsx:291 | deleting twice is deleting once |
| Favorites.ApplyCommand | src/components/Favorites.jsx:235-297 | deletion removes the rows and always sends the delete; updates patch the list and send the first matching row's full record with the new value, or nothing when no row matches |
| Favorites.RatingPutCarriesOtherFields | src/components/Favorites.jsx:245-246 | a rating change sends the new rating with the text and favourite flag the row had before the edit |
| Favorites.PutMatchesLocalCopy | src/components/Favorites.jsx:235-286 | the body of every update request equals a row of the new local list with that id |
| Favorites.MountRow | src/components/Favorites.jsx:8-12 | a new row starts in Display mode with no error and temporaries copied from its props |
| Favorites.RowHandle | src/components/Favorites.jsx:17-99 | Display mode only reacts to Edit; in Editing, Save rejects blank text with an error or forwards the trimmed text and leaves Editing; heart, stars and delete forward at once |
| Favorites.SaveRejectsOnlyBlank | src/components/Favorites.jsx:22-26 | Save forwards nothing exactly when the text is all whitespace |
| Favorites.SavedTextIsTrimmed | src/components/Favorites.jsx:28-30 | forwarded text is non-empty and has no leading or trailing whitespace |
| Favorites.HeartTwiceRestores | src/components/Favorites.jsx:34-37 | two heart clicks restore the row and the second forwards the original flag |
| Favorites.DisplayModeIsInert | src/components/Favorites.jsx:70-99 | a row in Display mode never invokes a callback |
| Favorites.Visible | src/components/Favorites.jsx:314-318 | a row is shown iff (showFavorites and favourite) or (showNonFavorites and not favourite) |
| Favorites.HandleFilterChange | src/components/Favorites.jsx:305-311 | only the named flag flips; an unknown name changes nothing |
| Favorites.FilterChangeInvolutive | src/components/Favorites.jsx:305-311 | toggling the same filter twice restores the flags |
| Favorites.BothOffShowsNothing | src/components/Favorites.jsx:314-318 | with both flags off no row is shown |
| Favorites.BothOnShowsAll | src/components/Favorites.jsx:314-318 | with both flags on the whole list is shown in order |
| Favorites.MountedShowsAll | src/components/Favorites.jsx:167-168 | on mount every row is shown, and unticking "favorites" then leaves exactly the non-favourites |
| Favorites.NonFavoritesOnly | src/components/Favorites.jsx:314-318 | with only non-favourites on, exactly the non-favourite rows are shown in order |
| Favorites.FavoritesOnly | src/components/Favorites.jsx:314-318 | with only favourites on, exactly the favourite rows are shown in order |
| Favorites.VisibleSplits | src/components/Favorites.jsx:314-318 | filtering distributes over concatenation, so order is preserved |
| Favorites.RenderPage | src/components/Favorites.jsx:325-406 | anonymous users get the login prompt; others the filtered list, or the placeholder exactly when it is empty |
| Common.Trim | src/components/Favorites.jsx:28 | the trimmed text is an infix of the input with only JavaScript whitespace around it, and neither starts nor ends with whitespace |
| Common.TrimEmptyIff | src/components/Favorites.jsx:23 | text trims to empty exactly when every character is JavaScript whitespace |
| Common.TrimIdempotent | src/components/Favorites.jsx:28 | trimming already-trimmed text changes nothing |
| Catalogue.GenreFilter | src/components/Movies.jsx:45-48 | with a genre selected every kept movie has it, and every movie of the page that has it is kept; without one the page is kept as is |
| Catalogue.GenreFilterConcat | src/components/Movies.jsx:45-48 | the filter keeps page order: filtering two pieces is filtering their concatenation |
| Catalogue.GenreFilterSingle | src/components/Movies.jsx:45-48 | a single movie is kept exactly when no genre is selected or it has the selected genre |
| Catalogue.Dedupe | src/components/Movies.jsx:50-56 | the result has no duplicate ids, has the same id set as the input, and only holds input movies |
| Catalogue.DedupeKeepsFirstOccurrences | src/components/Movies.jsx:36-57 | each kept movie is the first occurrence of its id, and kept movies come in the order of those first occurrences |
| Catalogue.AppendNew | src/components/Movies.jsx:50-56 | the per-page loop with the seen-id set extends the deduplicated list exactly as `Dedupe` of the concatenation |
| Catalogue.CollectMovies | src/components/Movies.jsx:33-57 | the five-page loop computes the dedupe of the concatenated genre-filtered pages; no duplicate ids; every movie has the selected genre |
| Catalogue.FetchMovies | src/components/Movies.jsx:33-69 | any failed page leaves the state unchanged; otherwise all and filtered lists are the deduplicated candidates and the displayed page is cut from them, other fields unchanged |
| Catalogue.PageSlice | src/components/Movies.jsx:62-64 | page p holds the movies from index (p-1)*20 on, clipped to the list, at most 20 |
| Catalogue.PagesTile | src/components/Movies.jsx:62-64 | pages 1..n laid end to end are exactly the first min(20n, length) movies |
| Catalogue.HandleGenreSelect | src/components/Movies.jsx:73-78 | selecting sets the genre and placeholder, closes the menu, resets to page 1, nothing else changes |
| Catalogue.ClearGenreSelection | src/components/Movies.jsx:87-91 | clearing removes the genre, restores the "Genres" placeholder and resets to page 1 |
| Catalogue.GoToPage | src/components/Movies.jsx:81-84 | a page button sets the current page and nothing else |
| Catalogue.SelectThenClear | src/components/Movies.jsx:73-91 | selecting then clearing returns genre, placeholder, page and menu to their mounted values |
| Carousel.NextSlide | src/components/Home.jsx:25-27 | the next index is in [0, n): i+1 before the last slide, 0 after it |
| Carousel.PrevSlide | src/components/Home.jsx:30-32 | the previous index is in [0, n): i-1 after the first slide, n-1 from 0 |
| Carousel.NextPrevInverse | src/components/Home.jsx:25-32 | previous after next, and next after previous, return the original index |
| Carousel.AdvanceIsModular | src/components/Home.jsx:25-27 | k `nextSlide` steps from i land on (i+k) mod n |
| Carousel.TicksAdvance | src/components/Home.jsx:25-40 | k firings of the auto-advance interval, fed through the event handler, move a shown slide i to (i+k) mod n and change nothing else |
| Carousel.FullRoundReturns | src/components/Home.jsx:34-40 | n auto-advances show the starting slide again |
| Carousel.Step | src/components/Home.jsx:25-32 | an arrow step gives `NaN` exactly when the index is already `NaN` or no movie is loaded, and otherwise the next or the previous slide, wrapping around |
| Carousel.Handle | src/components/Home.jsx:25-78 | an arrow clicked before the movies arrive makes the index `NaN`; `NaN` survives arrows and ticks; a numeric index moves one step with wrap-around; an indicator selects its own position; ticks do nothing while no interval runs; a numeric index stays valid |
| Carousel.LoadMovies | src/components/Home.jsx:9-40 | loading keeps the index as it was (0 on a fresh page, `NaN` after an early arrow click), and auto-advance is scheduled exactly when some movies were loaded |
| Carousel.Run | src/components/Home.jsx:25-78 | every sequence of carousel events keeps a numeric index valid |
| Carousel.NaNPersists | src/components/Home.jsx:25-40 | once the index is `NaN`, no sequence of arrows and ticks brings a slide back; only an indicator click does |
| Carousel.SlideStaysShown | src/components/Home.jsx:25-78 | once movies are loaded and a slide is shown, every sequence of events keeps a slide shown |
| Carousel.EarlyArrowHidesCarousel | src/components/Home.jsx:25-32 | an arrow click before the movies arrive leaves no slide shown after they are loaded |
| Carousel.LoadShowsFirstSlide | src/components/Home.jsx:10-17 | without an early arrow click, loading some movies shows the first slide |

## Left out

- All HTTP requests, JSON parsing, URLs and the remote API. Responses are
  abstract inputs, and requests are returned as values.
- Asynchrony: overlapping requests, responses that arrive after the view is
  gone, and stale `favorites` captured by async handlers. Each handler is
  modelled as if it ran to completion alone.
- Rendering and styling, the navigation bar's menus and document click
  listener, scrolling, the static error page and the router wiring. The
  model keeps only the state those views read.
- The auto-advance timer. One firing of the interval is the `Tick` event.
- The rounded vote average on the detail page, which is floating point.
- The detail view's `handleLoginSuccess`. The login dialog never calls the
  `onLogin` prop it is given, so that function is unreachable.
- The reviews view's `handleLoginSuccess` (src/components/Favorites.jsx:230),
  passed as `onLogin` at line 408. It is unreachable for the same reason.
- The `console.error` logging on the failure paths (for example
  LoginModal.jsx:37 and 41, Favorites.jsx:142, MovieDetails.jsx:161). It
  writes to the developer console and changes no state.
- The detail view's movie and recommendation loading errors, apart from
  the five-item cut.
- Catalogue.PageSlice: requires a page of at least 1. Every page the view
  can reach is 1..5, so JavaScript's negative-index `slice` is not modelled.
- Catalogue.FetchMovies: takes exactly five responses. The state it
  leaves is the same whether a failing request stops the loop early or
  not, so later requests being skipped is not modelled.
- Ids are abstract strings (reviews) and integers (catalogue movies).
  JavaScript comparisons between a string and a number id are not
  modelled.
- The genre list request and the accordion toggles, which only show or
  hide menus.
- The review dialog's Close button and its text input. Each sets a single
  field of the detail state.
