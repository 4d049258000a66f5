/** The two persisted entities (the `books` and `reviews` tables) and the
    request bodies that create them. The table row and its response shape
    have the same fields, so one datatype serves as both. */
module Schemas {

  /** A review's floating-point rating. It is only stored and echoed back,
      never computed with, so the model leaves it uninterpreted. */
  type Rating(==, !new)

  /** A row of `books`; also the `BookResponse` shape `{id, title, author}`. */
  datatype Book = Book(id: int, title: string, author: string)

  /** A row of `reviews`; also the `ReviewResponse` shape
      `{id, book_id, rating, comment}`. `bookId` is the foreign key to `books`. */
  datatype Review = Review(id: int, bookId: int, rating: Rating, comment: string)

  /** Body of `POST /books`. */
  datatype BookCreate = BookCreate(title: string, author: string)

  /** Body of `POST /books/{book_id}/reviews`. */
  datatype ReviewCreate = ReviewCreate(rating: Rating, comment: string)

}
