/**
  Review records as the remote API stores them, and the request bodies the
  client sends to create or overwrite one.
 */
module Reviews {

  /** The server's id of a review record. */
  type ReviewId = string

  /** A movie id as the client holds it: the `:id` route segment, compared as given. */
  type MovieId = string

  /** A stored review: text, a star rating and a favourite flag for one movie. */
  datatype Review = Review(id: ReviewId, movieId: MovieId, review: string, rating: int, favorite: bool)

  /** Body of a full update: every editable field is resent, never a partial patch. */
  datatype ReviewBody = ReviewBody(review: string, rating: int, favorite: bool)

  /** Body of a creation request. */
  datatype NewReview = NewReview(userId: string, movieId: MovieId, review: string, rating: int, favorite: bool)

  /** The number of stars the controls offer; a rating of 0 means "no rating". */
  const MaxStars: int := 5
}
