# Book tracker: a Dafny model of the book-record handlers

The application keeps a reading list in one MySQL table, `books`, and the
covers of the books as files in `public/uploads/`. Its Express route handlers
in `app.js` are the only logic: the index page counts books by status,
`POST /api/books` inserts a book and moves its staged cover to
`book_<id><ext>`, `PATCH /api/books/:id` updates any of four columns and
promotes a book to `read` once its current page reaches the stored page
count, and `DELETE /api/books/:id` removes the row together with its cover.

This project models those handlers as pure transitions of a store:

- `Schema` (`schema.dfy`): the `books` row, `Status`, and the column defaults
  of the DDL (status `unread`, pages 0, no cover).
- `BookStore` (`store.dfy`): `Store(books: map<int, Book>, nextId, files)`,
  where `nextId` is the table's AUTO_INCREMENT counter and `files` the names in
  the uploads directory; the invariants `Valid` (ids lie in `[1, nextId)`) and
  `Consistent` (every recorded cover is owned by its book and is on disk).
- `Decimal` (`decimal.dfy`): the decimal numeral of an id as it appears in a
  file name, and its inverse.
- `Uploads` (`uploads.dfy`): temporary and final cover names and which book a
  name belongs to.
- `Summary` (`summary.dfy`): the index-page counters.
- `CreateRoute`, `PatchRoute`, `DeleteRoute` (`create.dfy`, `patch.dfy`,
  `delete.dfy`): one module per mutating handler.
- `Requests` (`requests.dfy`): handling a sequence of requests one after
  another.

Two input checks are looser than a reader might expect, and the model keeps
them as the code has them:

- An empty title is stored. The INSERT fails only when the title field is
  missing, because NULL violates `NOT NULL`.
- `total_pages || 0` replaces only falsy values, so a negative count is
  stored as sent.

Request inputs are typed, following the code's presence tests. A PATCH
`status` is `Option<Status>`, where `None` stands for every falsy value,
because the handler applies it only when truthy. `current_page`, `memo` and
`total_pages` are `Field<T>` values, `Absent` exactly when the key is
undefined. So a JSON `null` memo is `Given(None)` and clears the column.

## Model

| member | source | states |
|---|---|---|
| Decimal.ParseNatToString | app.js:63 | reading back the numeral an id is rendered as in a file name gives the id |
| Decimal.NatToStringInjective | app.js:63 | two different ids never render to the same numeral |
| Uploads.FinalNameOwned | app.js:62-63 | `book_<id><ext>` with an extension `path.extname` can return belongs to book `id` |
| Uploads.OwnerUnique | app.js:63 | a file name belongs to at most one book, so the final names of two books never collide |
| Uploads.TempNameNotOwned | app.js:19 | a `temp_` staging name is never a book's final cover name |
| Summary.CountsPartition | app.js:37-39 | the unread, reading and read counts of any list of rows add up to its length |
| Summary.Compute | app.js:35-40 | the stats object: total is the number of rows, and the three status counters sum to the total |
| Summary.Rows | app.js:33 | a listing yields one row per listed id, in the listed order: row i is the book stored under the i-th id |
| Summary.StatsOfStore | app.js:33-40 | for any listing of the table, total is the number of books and each counter is the number of books with that status |
| CreateRoute.Insert | app.js:55-58 | the INSERT succeeds exactly when a title is sent and fails exactly when it is missing, and a failure changes nothing; on success the new id is the counter's value, unused before, and the counter advances by one; every existing row and every file stays; the new row holds the sent title, author and memo, `total_pages` or 0, and the column defaults (unread, page 0, no cover) |
| CreateRoute.AttachImage | app.js:61-70 | after the rename and UPDATE the row differs from before only in naming `book_<id><ext>` as its cover; that file exists and the staged name is gone; other rows and the counter stay; no file other than the staged and final names changes |
| CreateRoute.Create | app.js:53-77 | a titled form always adds a book and a missing title always fails, leaving only the staged file behind; on success the new id is the next counter value and unused; the row has the given text fields, `total_pages` or 0, status unread and page 0; no other row changes; the cover (if any) is `book_<id><ext>` on disk and the temporary file is gone, and without a cover the files are unchanged |
| CreateRoute.CreateKeepsInvariant | app.js:61-69 | creating a book keeps every recorded cover owned by its book and on disk |
| CreateRoute.CreateCounts | app.js:56 | a created book raises the total and the unread counter by one and leaves the other counters alone |
| PatchRoute.Assignments | app.js:104-122 | the SET list is empty exactly when no status is to be applied and none of the other three keys was sent; it has at most four fragments |
| PatchRoute.AssignmentsFieldwise | app.js:104-126 | running the SET list sets exactly the supplied columns to the supplied values and keeps every other column |
| PatchRoute.Patch | app.js:89-134 | always reports success; other rows, the id counter and the files stay; a missing id changes nothing; on the row, title, author and cover stay, status is `read` when the sent page reaches a positive stored page count and is otherwise the sent status or the old one, and the other three columns take the sent value when sent |
| PatchRoute.PromotionIgnoresSuppliedTotal | app.js:94-101 | the resulting status does not depend on a `total_pages` sent in the same request |
| PatchRoute.EmptyPatchIsNoop | app.js:124-129 | a request naming none of the four columns leaves the store unchanged and still reports success |
| PatchRoute.PatchIdempotentWithoutTotal | app.js:94-127 | repeating a request that does not send `total_pages` changes nothing more |
| PatchRoute.PromotionNeedsStoredTotal | app.js:94-122 | with a stored count of 0, sending page 300 and count 300 together leaves the book unread even though the page now reaches the count; the same request sent again marks it read |
| PatchRoute.PatchKeepsInvariant | app.js:104-127 | a patch keeps the id invariant and every cover owned and on disk |
| PatchRoute.PatchCounts | app.js:107-110 | a patch keeps the total and moves no book but the patched one between status counters |
| DeleteRoute.Delete | app.js:136-154 | always reports success; exactly that row is removed; the only file that can disappear is that row's cover, and a non-empty cover name does disappear; a missing id changes nothing |
| DeleteRoute.DeleteKeepsInvariant | app.js:140-148 | deleting a book keeps every remaining cover on disk, because the removed file belonged to that book only |
| DeleteRoute.DeleteCounts | app.js:148 | deleting a book lowers the total and its own status counter by one and removes it from every counter |
| Requests.Handle | app.js:56 | whichever of the three routes handles the request, the id invariant holds afterwards; only a successful INSERT takes the counter's value and advances it by one, and every other outcome leaves the counter alone |
| Requests.Run | database/init.js:28 | a sequence of requests yields one reply per request, keeps the id invariant and never lowers the counter |
| Requests.RunAddsFreshIncreasingIds | database/init.js:28 | the ids handed out by successful creates along any run are new to the starting table and strictly increasing, whatever is patched or deleted in between |
| Requests.RunKeepsInvariant | app.js:61-148 | any run of requests keeps the ids below the counter and every recorded cover owned by its book and on disk |
| Requests.DuneExample | app.js:53-154 | a book added with 100 pages gets id 1, unread on page 0; sending page 100 marks it read; deleting it removes id 1 |

## Left out

- The Express, multer and EJS setup, static file serving, HTTP status codes and the JSON or HTML rendering: they are framework plumbing. Each handler's reply is a `Reply` value instead.
- `GET /add` and `GET /api/books`: they only render a form or return the rows, and change nothing.
- The MySQL pool (`database/db.js`) and the connection and DDL execution of `database/init.js`: they are I/O. The DDL is used only for the record type and its defaults.
- The `created_at` and `updated_at` timestamps and the `ORDER BY created_at DESC` of the index page: they are set by the database clock. `Summary.StatsOfStore` holds for every listing order.
- The `Date.now()` part of the temporary name is an opaque `stamp` string, and `path.extname` is an `ext` parameter. `Uploads.IsExtName` states the shape its results have.
- `parseInt` and other string coercion: pages are modelled as integers. Non-numeric strings, NaN and NULL page values are not modelled.
- Status values outside the ENUM sent to PATCH, column widths (`VARCHAR(255)`, `VARCHAR(100)`) and the `INT` range: these are rejected or truncated depending on the server's `sql_mode`, which is not part of the source.
- Exceptions from `fs.renameSync`, `fs.unlinkSync` or a query, and the partial success they leave behind, such as a renamed file whose UPDATE failed: they are exception plumbing.
- CreateRoute.Create: a failed INSERT leaves `nextId` unchanged, while InnoDB may consume an AUTO_INCREMENT value. Freshness and ordering of ids hold either way.
- The read-then-update race in PATCH: this is concurrency. Each request is one atomic transition.
- The route parameter `:id` is modelled as an integer, not as a string that MySQL casts.
