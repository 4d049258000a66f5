# Book Review Service — a Dafny model

This is a model of the small CRUD web service for books and their reviews. It covers two parts:

- `MockRedis` (`cache.py`): the in-process key→value cache.
- The four request handlers in `main.py`, taken together as one state machine. The state is the `books` table, the `reviews` table and the shared cache entry `"books_all"`.

The handlers are:

- `GET /books`: a read-through listing. A truthy cached value that `json.loads` accepts is a hit. Anything else (absent, `None`, `""`, unreadable, or the cache failed) falls through to the table, and the encoded listing is cached with a time-to-live of 60.
- `POST /books`: inserts a book. It then invalidates the listing by storing `None` under the key, which keeps the key instead of removing it.
- `GET /books/{id}/reviews` and `POST /books/{id}/reviews`: check that the book exists and answer 404 "Book not found" if it does not. Otherwise they list the book's reviews or add one.

Files, one module each:

- `wrappers.dfy` (`Wrappers`): `Option`, used for Python's `None`.
- `seqs.dfy` (`Seqs`): re-association of concatenation, shared by the codec and the handlers.
- `schemas.dfy` (`Schemas`): the `Book` and `Review` rows and the two request bodies. A table row and its response shape have the same fields, so one datatype serves for both. The float rating is the uninterpreted type `Rating`.
- `cache.dfy` (`Cache`): the table as a `map<string, Option<string>>`. `GetOutcome` and `SetOutcome` are its value-level semantics, and the class `MockRedis` updates its `cache` field in place. A `fault` parameter stands for an exception inside the dictionary operation. The operation catches it, so `get` answers `None` and `set` answers `false` with the table unchanged.
- `books_json.dfy` (`BooksJson`): the cached text, written as `json.dumps` writes a listing, `[{"id": 1, "title": "Dune", "author": "Herbert"}]`. That includes its default separators and its ASCII-only string escapes: short escapes, `\u00XX`/`\uXXXX` in lower-case hexadecimal, and surrogate pairs above U+FFFF. A parser reads the text back. It follows `json.loads` in its strict default: no leading zeros, no raw control characters. The parser is proved to invert the encoder (`RoundTrip`), so no property is assumed. The empty listing encodes to `"[]"`, which is truthy.
- `handlers.dfy` (`Handlers`): `Snapshot` is the whole state. One step function per handler maps the old snapshot to the response and the new snapshot. Lemmas state what the handlers promise. The class `BookService` carries out the same steps on its fields and on its shared `MockRedis`, and each method is proved equal to its step function. Four client methods each run, on a fresh service, the requests of one integration test and prove its answers.

Two invariants are kept:

- `WellFormed`: ids are 1, 2, 3, … in insertion order, the id counters equal the row count plus one, and every review names an existing book.
- `Coherent`: whenever the `"books_all"` entry serves a listing, that listing is exactly the current book table.

Failures come in as parameters:

- `getFault` and `setFault`: the cache raised.
- `dbFault`: the table query in `GET /books` failed, which answers 500 "Internal server error".

## Model

| member | source | states |
|---|---|---|
| `Cache.MockRedis.constructor` | cache.py:8-9 | a new cache holds an empty table |
| `Cache.MockRedis.Get` | cache.py:11-16 | the answer is the stored value, or `None` when the key is absent or the lookup raised; a `Some` answer is what the table holds; no `modifies` clause, so the table is unchanged |
| `Cache.MockRedis.Set` | cache.py:18-24 | the table and flag afterwards are those of `SetOutcome`: `key` overwritten with `value` and `true`, or on the exception path the old table and `false` |
| `Cache.FreshGetIsNone` | cache.py:9-13 | on a fresh (empty) cache every `get` answers `None` |
| `Cache.GetAfterSet` | cache.py:20 | after a successful `set(k, v)` the flag is `true` and `get(k)` answers `v`, `None` included |
| `Cache.SetTouchesOnlyItsKey` | cache.py:20 | every key other than `k` keeps its presence and its value |
| `Cache.SetNoneKeepsKey` | cache.py:20 | `set(k, None)` leaves `k` in the table with value `None` (the key set only grows) and a later `get(k)` answers `None` |
| `Cache.SetIgnoresTimeToLive` | cache.py:18-20 | the table and flag do not depend on `ex` |
| `Cache.SetIsIdempotent` | cache.py:20 | a second identical `set` leaves the table of the first |
| `Cache.SetReportsFailureOnlyOnFault` | cache.py:19-24 | `set` answers `false` exactly on the exception path, and then the table is unchanged |
| `Cache.GetFaultIsNone` | cache.py:12-16 | `get` answers `None` on the exception path |
| `BooksJson.Encode` | main.py:39 | the cached text is never empty (it is bracketed), and it is `"[]"` exactly for the empty listing |
| `BooksJson.RoundTrip` | main.py:32 | decoding the text written for a listing gives back that listing |
| `BooksJson.IntRoundTrip` | main.py:39 | an id reads back from its decimal text, negative or not, when the text after it does not continue the digits |
| `BooksJson.CharRoundTrip` | main.py:39 | every character reads back from the escape `json.dumps` writes for it (short escape, itself, `\uXXXX`, or a surrogate pair), whatever follows |
| `BooksJson.StringRoundTrip` | main.py:39 | every title or author reads back from its quoted, escaped text, whatever follows |
| `BooksJson.BookRoundTrip` | main.py:39 | a book reads back from its `{"id": …, "title": …, "author": …}` text, whatever follows |
| `BooksJson.LeadingZeroRefused` | main.py:32 | a number of several digits that starts with `0` is not read, as in JSON |
| `BooksJson.RawControlRefused` | main.py:32 | a raw control character inside a string is not read, as `json.loads` refuses it in strict mode |
| `Handlers.FindBook` | main.py:61 | `None` exactly when no book has the id; otherwise the first book with that id |
| `Handlers.ReviewsOf` | main.py:64 | exactly the reviews whose `bookId` is the book's id, each as many times as the table holds it (multiset counts), and no more reviews than the table has |
| `Handlers.ReviewsOfAppend` | main.py:72-73 | a review appended to the table is listed last for its own book and not listed for any other |
| `Handlers.GetBooksHit` | main.py:29-32 | on a hit the cached listing is answered and the state is unchanged |
| `Handlers.GetBooksMiss` | main.py:36-41 | on a miss every stored book is answered and the tables stay the same; unless the set fails, the key then holds the encoding of exactly that listing, which serves it back; no other key changes; if the set fails, nothing changes |
| `Handlers.GetBooksPreserves` | main.py:25-44 | on any state and whatever the faults, `GET /books` changes neither table nor counter, and keeps `Coherent` and `WellFormed` when they held |
| `Handlers.GetBooksReturnsTable` | main.py:27-41 | over a coherent cache the answer is the current book table, hit or miss, whatever the cache faults |
| `Handlers.ConsecutiveGetBooks` | main.py:29-41 | over a coherent cache, two listings with no write between them both answer the table; if the first stored the listing and the second reads the cache, the second is a hit that changes nothing |
| `Handlers.ConsecutiveGetBooksAgree` | main.py:29-41 | on any state, coherent or not: when the first listing succeeds in storing and the second reads the cache, the second answers what the first answered and changes nothing |
| `Handlers.CreateBookAdds` | main.py:46-57 | exactly one book is appended with the given title and author and an id no existing book has; reviews stay; `WellFormed` is kept; no other cache key changes; unless the set fails, the key holds `None` (still present) and `Coherent` holds; if the set fails, the cache is unchanged |
| `Handlers.CreateThenGetBooks` | main.py:53 | after an invalidation the entry serves nothing, so the next listing is a miss that answers the old books followed by the new one |
| `Handlers.FailedInvalidationServesStale` | main.py:52-56 | if the invalidating set fails while a listing is cached, the next listing answers the stale table without the new book, and the cache is no longer coherent |
| `Handlers.GetBookReviewsAnswers` | main.py:59-64 | the answer is 404 "Book not found" exactly when no book has the id; otherwise it holds exactly the reviews naming the book, each as many times as the table holds it |
| `Handlers.CreateReviewAdds` | main.py:66-75 | on any state: on an absent book the answer is 404 "Book not found" and nothing changes; otherwise exactly one review is appended with the book's id and the given rating and comment, and books and cache stay; over well-formed tables its id is unused; `WellFormed` and `Coherent` are each kept when they held |
| `Handlers.CreateThenListReviews` | main.py:66-75 | a review just created is listed last among its book's reviews |
| `Handlers.BookService.constructor` | main.py:14 | the service starts with empty tables, counters at 1 and an empty cache, so both invariants hold |
| `Handlers.BookService.GetBooks` | main.py:25-44 | the answer and new state are those of `GetBooksStep`, and `WellFormed` is kept |
| `Handlers.BookService.CreateBook` | main.py:46-57 | the created book and new state are those of `CreateBookStep`, and `WellFormed` is kept |
| `Handlers.BookService.GetBookReviews` | main.py:59-64 | the answer is that of `GetBookReviewsStep` on the current state; nothing is modified |
| `Handlers.BookService.CreateReview` | main.py:66-75 | the answer and new state are those of `CreateReviewStep`, and `WellFormed` is kept |
| `Handlers.EmptyListingScenario` | tests/test_integration.py:46-50 | on a fresh service `GET /books` answers the empty list |
| `Handlers.CreateAndGetBooksScenario` | tests/test_integration.py:53-76 | after one creation with the given title and author, the first listing answers exactly that book, the cache then holds a value under `"books_all"`, and the second listing answers the same; the test checks only the length and the title |
| `Handlers.CreateAndGetReviewsScenario` | tests/test_integration.py:78-98 | after one book is created, a review posted for it carries the book's id and the given rating and comment, and the book's review listing is exactly that review; the test checks only the length and the rating |
| `Handlers.InvalidBookScenario` | tests/test_integration.py:100-111 | on a fresh service both listing and posting reviews for book 999 answer 404 "Book not found" (the two tests, run one after the other on one service) |

## Left out

- HTTP and FastAPI are not modelled: routing, decorators, response-model validation and `uvicorn.run`. Errors are `Err(status, detail)` answers, and the success codes 200 and 201 are not represented.
- SQLAlchemy is not modelled: `get_db`, sessions, `commit`, `refresh` and `create_all`. The tables are sequences in memory. A storage failure is modelled only where the handler catches it (`dbFault` in `GET /books`, the 500 path). Failures in the other handlers propagate uncaught in the service and are not modelled.
- Row order: SQL promises no order for `query(Book).all()` or `book.reviews`. The model fixes insertion order.
- Row ids: a fresh database is assumed, with no deletions. The next rowid (largest plus one) is then the row count plus one. SQLite's 64-bit id limit is not modelled; ids are unbounded.
- `BooksJson.Decode`: accepts only the key order and separators the encoder writes. `json.loads` also accepts other spacing, key order and JSON values, and a lone surrogate escape. Such text would here read as a miss rather than be served. Only this service writes `"books_all"`, and it writes only the encoder's text.
- `Rating`: an uninterpreted type. The float is only stored and echoed back, so floating point is not modelled.
- `Cache.MockRedis`: values are limited to text or `None`, the only values the service stores. The Python class accepts any value.
- Logging calls are not modelled; they change no state.
- Concurrency between requests sharing the cache is not modelled. The model is sequential.
- Test fixtures, database setup and monkeypatching under `tests/` are not modelled. Each integration test under `tests/test_integration.py` is replayed by one scenario method on a fresh service. The database reset between tests is modelled by that fresh start.
