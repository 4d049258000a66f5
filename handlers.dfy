/** The four request handlers of the service, seen as one state machine over
    the two tables and the shared cache. A `Snapshot` is the whole state;
    each handler is specified by a step function from the old snapshot to
    its response and the new snapshot, and `BookService` carries out the
    same steps in place. HTTP errors are `Err` responses. */
module Handlers {

  import opened Wrappers
  import opened Schemas
  import opened Seqs
  import Cache
  import BooksJson

  /** The one cache key the service uses. */
  const BooksKey := "books_all"
  /** The time-to-live passed when the listing is cached; the cache ignores it. */
  const CacheTtl := 60
  const NotFoundDetail := "Book not found"
  const ServerErrorDetail := "Internal server error"

  datatype Response<T> = Ok(value: T) | Err(status: int, detail: string)

  /** The tables with their primary-key counters, and the cache's table. */
  datatype Snapshot = Snapshot(
    books: seq<Book>,
    reviews: seq<Review>,
    nextBookId: int,
    nextReviewId: int,
    cache: Cache.Table)

  /** The state of a freshly started service over empty tables. */
  const Initial := Snapshot([], [], 1, 1, map[])

  // ------------------------------------------------------------ table queries

  /** Position `i` holds a book with the id and no earlier position does. */
  ghost predicate FirstWithId(books: seq<Book>, id: int, i: int) {
    0 <= i < |books| && books[i].id == id && forall j :: 0 <= j < i ==> books[j].id != id
  }

  /** `query(Book).filter(Book.id == id).first()`: the first book with that id. */
  function FindBook(books: seq<Book>, id: int): (r: Option<Book>)
    ensures r.None? <==> forall b :: b in books ==> b.id != id
    ensures r.Some? ==> r.value.id == id && exists i :: FirstWithId(books, id, i) && books[i] == r.value
  {
    if books == [] then None
    else if books[0].id == id then Some(books[0])
    else
      var r := FindBook(books[1..], id);
      assert r.Some? ==> exists i :: FirstWithId(books, id, i) && books[i] == r.value by {
        if r.Some? {
          var i :| FirstWithId(books[1..], id, i) && books[1..][i] == r.value;
          forall j | 0 <= j < i + 1 ensures books[j].id != id {
            if j > 0 { assert books[j] == books[1..][j - 1]; }
          }
          assert FirstWithId(books, id, i + 1) && books[i + 1] == r.value;
        }
      }
      r
  }

  /** `book.reviews`: the reviews whose foreign key names the book, in table order. */
  function ReviewsOf(reviews: seq<Review>, bookId: int): (r: seq<Review>)
    ensures |r| <= |reviews|
    ensures forall v :: v in r <==> v in reviews && v.bookId == bookId
    ensures forall v :: multiset(r)[v] == if v.bookId == bookId then multiset(reviews)[v] else 0
  {
    if reviews == [] then []
    else
      var r := (if reviews[0].bookId == bookId then [reviews[0]] else []) + ReviewsOf(reviews[1..], bookId);
      assert reviews == [reviews[0]] + reviews[1..];
      r
  }

  /** A review appended to the table is listed last for its own book and
      not at all for the others. */
  lemma {:induction false} ReviewsOfAppend(reviews: seq<Review>, v: Review, bookId: int)
    ensures ReviewsOf(reviews + [v], bookId)
         == ReviewsOf(reviews, bookId) + (if v.bookId == bookId then [v] else [])
  {
    if reviews == [] {
      assert reviews + [v] == [v];
    } else {
      var t := reviews + [v];
      var head := if reviews[0].bookId == bookId then [reviews[0]] else [];
      var last := if v.bookId == bookId then [v] else [];
      assert t[0] == reviews[0] && t[1..] == reviews[1..] + [v];
      assert ReviewsOf(t, bookId) == head + ReviewsOf(reviews[1..] + [v], bookId);
      ReviewsOfAppend(reviews[1..], v, bookId);
      assert ReviewsOf(reviews, bookId) == head + ReviewsOf(reviews[1..], bookId);
      AppendRight(head, ReviewsOf(reviews[1..], bookId), last);
    }
  }

  // --------------------------------------------------------------- invariants

  /** Ids are assigned 1, 2, 3, ... in insertion order (rows are never
      deleted, so the next rowid is the row count plus one), and every
      review names an existing book. */
  ghost predicate WellFormed(s: Snapshot) {
    && s.nextBookId == |s.books| + 1
    && s.nextReviewId == |s.reviews| + 1
    && (forall i :: 0 <= i < |s.books| ==> s.books[i].id == i + 1)
    && (forall i :: 0 <= i < |s.reviews| ==> s.reviews[i].id == i + 1)
    && (forall v :: v in s.reviews ==> FindBook(s.books, v.bookId).Some?)
  }

  /** Python truthiness of what the cache returns: `None` and `""` are false. */
  predicate Truthy(v: Option<string>) {
    v.Some? && |v.value| > 0
  }

  /** The listing a cached value serves, if it serves one: it must be truthy
      and `json.loads` must accept it (a failure is caught and read as a miss). */
  function CachedListing(v: Option<string>): Option<seq<Book>> {
    if Truthy(v) then BooksJson.Decode(v.value) else None
  }

  /** What the cache holds under `"books_all"`, as `get` reports it. */
  function Entry(s: Snapshot): Option<string> {
    Cache.GetOutcome(s.cache, BooksKey, false)
  }

  /** Whenever the cached entry serves a listing, that listing is exactly
      the current book table. */
  predicate Coherent(s: Snapshot) {
    var c := CachedListing(Entry(s));
    c.Some? ==> c.value == s.books
  }

  // ----------------------------------------------------------- the handlers

  /** `GET /books`. A cached listing is returned as it is; otherwise (absent,
      `None`, empty, unreadable, or the cache failed) the table is read, its
      encoding cached with a time-to-live, and the table returned. A storage
      failure is a 500 that changes nothing. */
  function GetBooksStep(s: Snapshot, getFault: bool, setFault: bool, dbFault: bool)
    : (Response<seq<Book>>, Snapshot)
  {
    var cached := CachedListing(Cache.GetOutcome(s.cache, BooksKey, getFault));
    if cached.Some? then (Ok(cached.value), s)
    else if dbFault then (Err(500, ServerErrorDetail), s)
    else
      var stored := Cache.SetOutcome(s.cache, BooksKey, Some(BooksJson.Encode(s.books)), Some(CacheTtl), setFault);
      (Ok(s.books), s.(cache := stored.0))
  }

  /** `POST /books`. Inserts the book under the next id, then invalidates the
      listing by storing `None` under the key (the key stays). A failing
      cache set is logged only. */
  function CreateBookStep(s: Snapshot, input: BookCreate, setFault: bool): (Book, Snapshot) {
    var b := Book(s.nextBookId, input.title, input.author);
    var stored := Cache.SetOutcome(s.cache, BooksKey, None, None, setFault);
    (b, s.(books := s.books + [b], nextBookId := s.nextBookId + 1, cache := stored.0))
  }

  /** `GET /books/{book_id}/reviews`. */
  function GetBookReviewsStep(s: Snapshot, bookId: int): Response<seq<Review>> {
    if FindBook(s.books, bookId).None? then Err(404, NotFoundDetail)
    else Ok(ReviewsOf(s.reviews, bookId))
  }

  /** `POST /books/{book_id}/reviews`. */
  function CreateReviewStep(s: Snapshot, bookId: int, input: ReviewCreate): (Response<Review>, Snapshot) {
    if FindBook(s.books, bookId).None? then (Err(404, NotFoundDetail), s)
    else
      var v := Review(s.nextReviewId, bookId, input.rating, input.comment);
      (Ok(v), s.(reviews := s.reviews + [v], nextReviewId := s.nextReviewId + 1))
  }

  // ---------------------------------------------------- properties of GET /books

  /** A hit returns the decoded entry and changes nothing. */
  lemma GetBooksHit(s: Snapshot, setFault: bool, dbFault: bool)
    requires CachedListing(Entry(s)).Some?
    ensures GetBooksStep(s, false, setFault, dbFault) == (Ok(CachedListing(Entry(s)).value), s)
  {
  }

  /** A miss returns every stored book and, unless the cache set fails,
      stores exactly that listing under the key; no other key and no table
      changes. */
  lemma GetBooksMiss(s: Snapshot, getFault: bool, setFault: bool)
    requires CachedListing(Cache.GetOutcome(s.cache, BooksKey, getFault)).None?
    ensures var (r, s') := GetBooksStep(s, getFault, setFault, false);
      && r == Ok(s.books)
      && s'.books == s.books && s'.reviews == s.reviews
      && s'.nextBookId == s.nextBookId && s'.nextReviewId == s.nextReviewId
      && (forall k :: k != BooksKey ==> Cache.GetOutcome(s'.cache, k, false) == Cache.GetOutcome(s.cache, k, false))
      && (setFault ==> s' == s)
      && (!setFault ==> Entry(s') == Some(BooksJson.Encode(s.books)) && CachedListing(Entry(s')) == Some(s.books))
  {
    BooksJson.RoundTrip(s.books);
  }

  /** `GET /books` never changes the tables or the counters, and keeps both
      invariants. */
  lemma GetBooksPreserves(s: Snapshot, getFault: bool, setFault: bool, dbFault: bool)
    ensures var s' := GetBooksStep(s, getFault, setFault, dbFault).1;
      && s'.books == s.books && s'.reviews == s.reviews
      && s'.nextBookId == s.nextBookId && s'.nextReviewId == s.nextReviewId
      && (Coherent(s) ==> Coherent(s')) && (WellFormed(s) ==> WellFormed(s'))
  {
    BooksJson.RoundTrip(s.books);
  }

  /** Over a coherent cache, `GET /books` answers the current table whether
      it hits or misses, and whatever the cache does. */
  lemma GetBooksReturnsTable(s: Snapshot, getFault: bool, setFault: bool)
    requires Coherent(s)
    ensures GetBooksStep(s, getFault, setFault, false).0 == Ok(s.books)
  {
  }

  /** Two listings with no write between them agree, and when the first
      managed to store the listing and the second reads the cache, the
      second is a hit that changes nothing. */
  lemma ConsecutiveGetBooks(s: Snapshot, get1: bool, set1: bool, get2: bool, set2: bool)
    requires Coherent(s)
    ensures var (r1, s1) := GetBooksStep(s, get1, set1, false);
      var (r2, s2) := GetBooksStep(s1, get2, set2, false);
      && r1 == r2 == Ok(s.books)
      && (!set1 && !get2 ==> CachedListing(Entry(s1)) == Some(s.books) && s2 == s1)
  {
    var s1 := GetBooksStep(s, get1, set1, false).1;
    GetBooksPreserves(s, get1, set1, false);
    GetBooksReturnsTable(s1, get2, set2);
    if !set1 && !get2 {
      if CachedListing(Cache.GetOutcome(s.cache, BooksKey, get1)).None? {
        GetBooksMiss(s, get1, set1);
      }
    }
  }

  /** Whatever the cache held, coherent or not: when the first listing does
      not fail to store and the second reads the cache, the second is a hit
      that answers what the first answered and changes nothing. */
  lemma ConsecutiveGetBooksAgree(s: Snapshot, get1: bool, set2: bool, db2: bool)
    ensures var (r1, s1) := GetBooksStep(s, get1, false, false);
      var (r2, s2) := GetBooksStep(s1, false, set2, db2);
      r1.Ok? && r2 == r1 && s2 == s1
  {
    if CachedListing(Cache.GetOutcome(s.cache, BooksKey, get1)).None? {
      GetBooksMiss(s, get1, false);
    }
  }

  // --------------------------------------------------- properties of POST /books

  /** `POST /books` adds exactly one book, with the given fields and an id no
      existing book has, leaves reviews alone, and overwrites the cache key
      with `None` (keeping the key) unless that set fails. */
  lemma CreateBookAdds(s: Snapshot, input: BookCreate, setFault: bool)
    requires WellFormed(s)
    ensures var (b, s') := CreateBookStep(s, input, setFault);
      && b.title == input.title && b.author == input.author
      && (forall old_b :: old_b in s.books ==> old_b.id != b.id)
      && s'.books == s.books + [b] && s'.reviews == s.reviews
      && WellFormed(s')
      && (forall k :: k != BooksKey ==> Cache.GetOutcome(s'.cache, k, false) == Cache.GetOutcome(s.cache, k, false))
      && (setFault ==> s'.cache == s.cache)
      && (!setFault ==> BooksKey in s'.cache && s'.cache[BooksKey] == None && Coherent(s'))
  {
  }

  /** After a successful invalidation the next listing is a miss and
      contains the new book after the old ones. */
  lemma CreateThenGetBooks(s: Snapshot, input: BookCreate, getFault: bool, setFault: bool)
    ensures var (b, s1) := CreateBookStep(s, input, false);
      && CachedListing(Entry(s1)).None?
      && GetBooksStep(s1, getFault, setFault, false).0 == Ok(s.books + [b])
  {
  }

  /** When the invalidating set fails, a cached listing survives and the
      next listing serves it: the new book is missing from the answer. */
  lemma FailedInvalidationServesStale(s: Snapshot, input: BookCreate)
    requires Coherent(s)
    requires CachedListing(Entry(s)).Some?
    ensures var (b, s1) := CreateBookStep(s, input, true);
      var r := GetBooksStep(s1, false, false, false).0;
      r == Ok(s.books) && r != Ok(s1.books) && !Coherent(s1)
  {
  }

  // ----------------------------------------------------------- properties of reviews

  /** Listing reviews fails with 404 "Book not found" exactly when no book has
      the id; otherwise it yields exactly the reviews naming the book, each as
      often as the table holds it. */
  lemma GetBookReviewsAnswers(s: Snapshot, bookId: int)
    ensures var r := GetBookReviewsStep(s, bookId);
      && (r.Err? <==> forall b :: b in s.books ==> b.id != bookId)
      && (r.Err? ==> r == Err(404, NotFoundDetail))
      && (r.Ok? ==> forall v :: v in r.value <==> v in s.reviews && v.bookId == bookId)
      && (r.Ok? ==> forall v ::
            multiset(r.value)[v] == if v.bookId == bookId then multiset(s.reviews)[v] else 0)
  {
  }

  /** Creating a review on a missing book is a 404 that changes nothing;
      otherwise exactly one review is added with the book's id and the given
      rating and comment, and books and cache stay. Over well-formed tables
      the new id is unused; both invariants are kept. */
  lemma CreateReviewAdds(s: Snapshot, bookId: int, input: ReviewCreate)
    ensures var (r, s') := CreateReviewStep(s, bookId, input);
      && (r.Err? <==> forall b :: b in s.books ==> b.id != bookId)
      && (r.Err? ==> r == Err(404, NotFoundDetail) && s' == s)
      && (r.Ok? ==>
            && r.value.bookId == bookId && r.value.rating == input.rating && r.value.comment == input.comment
            && s'.reviews == s.reviews + [r.value]
            && s'.books == s.books && s'.cache == s.cache
            && (WellFormed(s) ==> forall v :: v in s.reviews ==> v.id != r.value.id))
      && (WellFormed(s) ==> WellFormed(s'))
      && (Coherent(s) ==> Coherent(s'))
  {
  }

  /** A review just created is listed last among its book's reviews. */
  lemma CreateThenListReviews(s: Snapshot, bookId: int, input: ReviewCreate)
    requires FindBook(s.books, bookId).Some?
    ensures var (r, s') := CreateReviewStep(s, bookId, input);
      r.Ok? && GetBookReviewsStep(s', bookId) == Ok(ReviewsOf(s.reviews, bookId) + [r.value])
  {
    var (r, s') := CreateReviewStep(s, bookId, input);
    ReviewsOfAppend(s.reviews, r.value, bookId);
  }

  // ------------------------------------------------------------- the service

  /** The running service: the two tables with their id counters, and the
      module-level cache instance every request shares. */
  class BookService {

    var books: seq<Book>
    var reviews: seq<Review>
    var nextBookId: int
    var nextReviewId: int
    const redis: Cache.MockRedis

    function State(): Snapshot
      reads this, redis
    {
      Snapshot(books, reviews, nextBookId, nextReviewId, redis.cache)
    }

    ghost predicate Valid()
      reads this, redis
    {
      WellFormed(State())
    }

    /** Service start-up: empty tables and an empty cache. */
    constructor ()
      ensures Valid() && Coherent(State())
      ensures State() == Initial
      ensures fresh(redis)
    {
      books, reviews := [], [];
      nextBookId, nextReviewId := 1, 1;
      redis := new Cache.MockRedis();
    }

    method GetBooks(getFault: bool, setFault: bool, dbFault: bool) returns (r: Response<seq<Book>>)
      requires Valid()
      modifies redis
      ensures Valid()
      ensures (r, State()) == GetBooksStep(old(State()), getFault, setFault, dbFault)
    {
      var cached := redis.Get(BooksKey, getFault);
      if Truthy(cached) {
        var listing := BooksJson.Decode(cached.value);
        if listing.Some? {
          return Ok(listing.value);
        }
        // json.loads raised: the handler logs it and falls back to the table
      }
      if dbFault {
        return Err(500, ServerErrorDetail);
      }
      var listing := books;
      var stored := redis.Set(BooksKey, Some(BooksJson.Encode(listing)), Some(CacheTtl), setFault);
      r := Ok(listing);
    }

    method CreateBook(input: BookCreate, setFault: bool) returns (b: Book)
      requires Valid()
      modifies this, redis
      ensures Valid()
      ensures (b, State()) == CreateBookStep(old(State()), input, setFault)
    {
      CreateBookAdds(State(), input, setFault);
      b := Book(nextBookId, input.title, input.author);
      books := books + [b];
      nextBookId := nextBookId + 1;
      var invalidated := redis.Set(BooksKey, None, None, setFault);
    }

    method GetBookReviews(bookId: int) returns (r: Response<seq<Review>>)
      ensures r == GetBookReviewsStep(State(), bookId)
    {
      var book := FindBook(books, bookId);
      if book.None? {
        return Err(404, NotFoundDetail);
      }
      r := Ok(ReviewsOf(reviews, bookId));
    }

    method CreateReview(bookId: int, input: ReviewCreate) returns (r: Response<Review>)
      requires Valid()
      modifies this
      ensures Valid()
      ensures (r, State()) == CreateReviewStep(old(State()), bookId, input)
    {
      var book := FindBook(books, bookId);
      if book.None? {
        return Err(404, NotFoundDetail);
      }
      var v := Review(nextReviewId, bookId, input.rating, input.comment);
      reviews := reviews + [v];
      nextReviewId := nextReviewId + 1;
      r := Ok(v);
    }
  }

  // ------------------------------------------------------------ scenarios

  /** On a fresh service the first listing answers no books. */
  method EmptyListingScenario() returns (listing: Response<seq<Book>>)
    ensures listing == Ok([])
  {
    var service := new BookService();
    GetBooksReturnsTable(service.State(), false, false);
    listing := service.GetBooks(false, false, false);
  }

  /** On a fresh service a book is created; the first listing reads it from
      the table and leaves a value under the key, and the second listing
      gives the same single book without changing anything. */
  method CreateAndGetBooksScenario(input: BookCreate)
    returns (created: Book, first: Response<seq<Book>>, cached: Option<string>,
             second: Response<seq<Book>>)
    ensures created.title == input.title && created.author == input.author
    ensures first == second == Ok([created])
    ensures cached.Some?
  {
    var service := new BookService();
    ghost var s0 := service.State();
    created := service.CreateBook(input, false);
    ghost var s1 := service.State();
    CreateBookAdds(s0, input, false);
    assert s1.books == [created];
    ConsecutiveGetBooks(s1, false, false, false, false);
    ConsecutiveGetBooksAgree(s1, false, false, false);
    first := service.GetBooks(false, false, false);
    cached := service.redis.Get(BooksKey, false);
    second := service.GetBooks(false, false, false);
  }

  /** On a fresh service a book is created and a review is posted for it;
      the review carries the book's id and the given rating and comment, and
      the book's review listing is exactly that review. */
  method CreateAndGetReviewsScenario(bookInput: BookCreate, reviewInput: ReviewCreate)
    returns (created: Book, review: Response<Review>, listing: Response<seq<Review>>)
    ensures review.Ok?
    ensures review.value.bookId == created.id
    ensures review.value.rating == reviewInput.rating && review.value.comment == reviewInput.comment
    ensures listing == Ok([review.value])
  {
    var service := new BookService();
    ghost var s0 := service.State();
    created := service.CreateBook(bookInput, false);
    ghost var s1 := service.State();
    CreateBookAdds(s0, bookInput, false);
    assert s1.books == [created] && s1.reviews == [];
    assert FindBook(s1.books, created.id) == Some(created);
    assert ReviewsOf(s1.reviews, created.id) == [];
    CreateThenListReviews(s1, created.id, reviewInput);
    review := service.CreateReview(created.id, reviewInput);
    ghost var s2 := service.State();
    assert s2 == CreateReviewStep(s1, created.id, reviewInput).1;
    assert GetBookReviewsStep(s2, created.id) == Ok([] + [review.value]);
    assert [] + [review.value] == [review.value];
    listing := service.GetBookReviews(created.id);
  }

  /** On a fresh service, listing or posting reviews for book 999 answers
      404 "Book not found". */
  method InvalidBookScenario(reviewInput: ReviewCreate)
    returns (listing: Response<seq<Review>>, review: Response<Review>)
    ensures listing == Err(404, "Book not found")
    ensures review == Err(404, "Book not found")
  {
    var service := new BookService();
    listing := service.GetBookReviews(999);
    review := service.CreateReview(999, reviewInput);
  }

}
