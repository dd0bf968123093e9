# Books and todo services, modelled in Dafny

This project models the request-handling core of two small FastAPI services.

**Books.** An in-memory list of books (`BOOKS`) sits behind CRUD endpoints with no
authentication. `Books.Catalog` is a class whose `books: seq<Book>` field is
that list. Its methods are the handlers, written as the source writes them
(index loops with loop invariants, and in-place replace, remove and append),
except `UpdateBook`, which is the corrected version of `update_book` (see
"## Findings").
Each method is proved against a specification stated in the same module:
- `IsFirstIndex` and `HasId` specify the linear scans;
- `Select` specifies the filters;
- `NextId` specifies id assignment.

The catalog invariant `Valid()` says that ids are positive and strictly
increasing. The ten seed books (ids 1 to 10) satisfy it, and every mutating
handler keeps it. Under that invariant, the source's "last id + 1" is "maximum
id + 1", so a new id is always fresh.

**Todos.** Three versions of the same handlers work on the `todos` table:
- the owner-scoped router (`routers/todos.py`);
- the admin router (`routers/admin.py`);
- the ownerless first draft (`main.py`).

The ORM session is `TodoModels.Session`. Its `rows: map<int, Todo>` field is
the committed table, keyed by primary key. `Add` and `DeleteById` are its two
writes, each a write followed by a commit. The caller is an
`Option<Identity>`: `None` is a request with no usable identity. Errors are
`Http.Result` or `Http.Outcome` values carrying `Unauthorized` (401) or
`NotFound` (404). Read-only handlers are functions over the rows. Handlers that
write are methods that modify the session.

The property at the centre is ownership isolation. Every owner-scoped handler
satisfies `OthersUntouched`: rows the caller does not own stay present and
unchanged, and every new or changed row belongs to the caller. The read
handlers return 404 for another user's todo and leave it out of the list. The
`Scoping` module relates the three variants: the scoped views are the admin
view restricted to the caller's rows.

Request validation is what pydantic's `Field(...)` declarations demand.
FastAPI rejects an invalid body before the handler runs, so handlers take
`ValidBookRequest` or `ValidTodoRequest` as a precondition. The path and query
bounds (`Path(gt=0)`, `Query(gt=0, lt=6)`) become preconditions in the same
way. An id assigned by the database is a parameter that is required to be
positive and absent from the table.

## Model

| member | source | states |
|---|---|---|
| `Books.BookRequestConstraints` | basics/books.py:24-29 | a book request is valid iff title and author have at least 3 characters, the description 1 to 100, and the rating is 1 to 5 |
| `Books.SeedBooks` | basics/books.py:43-54 | the initial list holds ten books with ids 1 to 10 in order |
| `Books.Catalog.constructor` | basics/books.py:43-54 | the catalog starts with the seed list, which satisfies the increasing-ids invariant |
| `Books.Catalog.ReadAllBooks` | basics/books.py:56-62 | both list endpoints return the whole list, unchanged |
| `Books.Catalog.FindBookId` | basics/books.py:64-69 | returns the first book whose id matches; 404 exactly when no book has that id |
| `Books.FirstIndexIsOnlyIndex` | basics/books.py:64-69 | with increasing ids, the first book with an id is the only one with it |
| `Books.Catalog.FindBookByPublishedDate` | basics/books.py:71-77 | returns `Select` by published date: the matching books in list order; the list is not changed |
| `Books.Catalog.FindBookByRating` | basics/books.py:90-96 | returns `Select` by rating: the matching books in list order; the list is not changed |
| `Books.SelectMembership` | basics/books.py:93-95 | a book is in the filter result iff it is in the list and matches |
| `Books.SelectAppend` | basics/books.py:74-76 | filtering a concatenation is the concatenation of the filtered parts, so list order is kept |
| `Books.SelectCount` | basics/books.py:74-76 | each matching book occurs as often as in the list; non-matching books do not occur |
| `Books.NextId` | basics/books.py:111-113 | the new id is 1 for an empty list and otherwise follows the last id; with increasing ids it exceeds every id, so it is fresh, and it is one more than an existing id |
| `Books.Catalog.FindIdBook` | basics/books.py:111-113 | the request becomes a book carrying the next id; on a valid catalog that id is positive and unused |
| `Books.AppendNextIdKeepsIdsIncreasing` | basics/books.py:98-101 | appending a book with the next id keeps ids increasing |
| `Books.Catalog.CreateBook` | basics/books.py:98-101 | appends exactly one book at the end with the request's fields and the next id; earlier elements are unchanged; the invariant holds |
| `Books.UpdateBookAsWritten` | basics/books.py:79-88 | as written: an empty list answers 204 unchanged; if book 0 has the request's id only index 0 is replaced; otherwise 404 with the list unchanged |
| `Books.UpdateBookAsWrittenMissesLaterBooks` | basics/books.py:82-88 | as written, updating any book but the first answers 404 although it exists |
| `Books.ReplaceKeepsIdsIncreasing` | basics/books.py:83-84 | replacing a book with one of the same id keeps ids increasing |
| `Books.Catalog.UpdateBook` | basics/books.py:79-88 | corrected: replaces the first book with the request's id and no other position; 404 with nothing changed iff no book has that id |
| `Books.RemoveKeepsIdsIncreasing` | basics/books.py:106-107 | removing one book keeps ids increasing |
| `Books.Catalog.DeleteBookById` | basics/books.py:103-108 | removes only the first book with the id and keeps the rest in order, so the length drops by one; with no match the list is unchanged |
| `TodoModels.TodoRequestConstraints` | basics/ToDo/routers/todos.py:29-33 | a todo request is valid iff the title has at least 3 characters, the description 3 to 100, and the priority is 1 to 5 (the same declaration as basics/ToDo/main.py:22-26) |
| `TodoModels.Session.Add` | basics/ToDo/routers/todos.py:103-104 | add-and-commit stores the row under its primary key and changes nothing else |
| `TodoModels.Session.DeleteById` | basics/ToDo/routers/todos.py:171-172 | delete-and-commit removes the row with that key and nothing else |
| `TodosRouter.ReadAll` | basics/ToDo/routers/todos.py:35-52 | 401 iff there is no identity; otherwise exactly the caller's todos, unaltered |
| `TodosRouter.ReadTodo` | basics/ToDo/routers/todos.py:54-77 | 401 with no identity; the todo iff it exists and the caller owns it; 404 otherwise, including for another owner's todo |
| `TodosRouter.CreateTodo` | basics/ToDo/routers/todos.py:80-106 | 401 with the table unchanged when there is no identity; otherwise stores one new row with the request's four fields and the caller as owner, which the caller reads back; other rows are untouched |
| `TodosRouter.UpdateTodo` | basics/ToDo/routers/todos.py:109-144 | 404 with nothing changed unless the caller owns the id; otherwise overwrites exactly title, description, priority and complete, keeping id and owner; no other row changes |
| `TodosRouter.DeleteTodo` | basics/ToDo/routers/todos.py:146-172 | 404 with nothing changed unless the caller owns the id; otherwise removes that todo only, and it is no longer readable |
| `AdminRouter.ReadAll` | basics/ToDo/routers/admin.py:31-42 | 401 unless the identity is present with role "admin"; for an admin, every todo regardless of owner |
| `AdminRouter.DeleteTodo` | basics/ToDo/routers/admin.py:44-68 | 401 for non-admins before any lookup; 404 when no todo has the id; otherwise removes that todo whatever its owner; the table is unchanged on every error |
| `DraftApp.ReadAll` | basics/ToDo/main.py:29-31 | every todo in the table, and nothing else |
| `DraftApp.ReadTodo` | basics/ToDo/main.py:33-38 | the todo with that id; 404 exactly when none exists; no owner filter |
| `DraftApp.CreateTodo` | basics/ToDo/main.py:41-47 | stores the request's four fields under the assigned id with no owner |
| `DraftApp.UpdateTodo` | basics/ToDo/main.py:50-62 | 404 with nothing changed iff the id is absent; otherwise overwrites exactly the four request fields |
| `DraftApp.DeleteTodo` | basics/ToDo/main.py:64-70 | 404 with nothing changed iff the id is absent; otherwise removes that record only |
| `Scoping.OtherOwnersTodoIsInvisible` | basics/ToDo/routers/todos.py:74-76 | another owner's todo gets 404 from `read_todo` and is absent from `read_all` |
| `Scoping.ScopedViewsAreDisjoint` | basics/ToDo/routers/todos.py:52 | two different users' `read_all` results share no todo |
| `Scoping.AdminViewIsDraftView` | basics/ToDo/routers/admin.py:42 | the admin's `read_all` returns the same table as the unscoped draft's |
| `Scoping.ScopedViewIsOwnedPartOfAdminView` | basics/ToDo/routers/todos.py:52 | the scoped `read_all` is the admin view restricted to the caller's todos |
| `Scoping.ScopedReadIsOwnedDraftRead` | basics/ToDo/routers/todos.py:74 | the scoped `read_todo` is the unscoped one plus an ownership check |
| `Scoping.CrossOwnerScenario` | basics/ToDo/routers/todos.py:100-172 | after user a creates a todo, user b's read, update and delete all get 404 and leave it as created; a reads it back as its owner |

## Findings

| source | as written | input that shows it | evidently intended | confidence | as-written member | corrected member |
|---|---|---|---|---|---|---|
| basics/books.py:87-88 | the not-found test is inside the loop, after the id test, so the first book that does not match raises 404 and an empty list answers 204 | `BOOKS` with ids 1 and 2, request id 2: 404 and no change, though book 2 exists | replace the book with the request's id; 404 only when no book has it | high, not executed | `Books.UpdateBookAsWrittenMissesLaterBooks` | `Books.Catalog.UpdateBook` |

A new book's id (basics/books.py:112) is the last element's id + 1, not the
maximum id + 1, and the model follows the code. `Books.NextId` shows the two agree on every list with
increasing ids, and every handler keeps that invariant.

## Left out

- The authentication module (`routers/auth.py`) is not part of this model. It covers token signing and decoding, password hashing and its check, the configuration read at import, and the 20-minute expiry, which reads the wall clock. These are calls into foreign libraries. The identity a handler receives is a parameter instead.
- `routers/user.py` (user lookup, password change) is not part of this model: it is a single lookup and a hash check and update, both foreign.
- The `users` table and the schema migration that adds `phone_number` are database declarations and I/O. `todos.owner_id` is kept only as an optional integer.
- The `get_db` session generators are left out, including the `db.close` that is never called. So are `db.refresh` calls. A commit means only that the table now holds the new rows. In particular, after the commit in `delete_todo` (basics/ToDo/routers/todos.py:173, basics/ToDo/main.py:71) the source refreshes the row it has just deleted. What the client then receives is not modelled; the model answers `Done` once the row is gone.
- Routing and HTTP plumbing are left out: the route `/books/{published_date}` is shadowed by `/books/{book_id}`, the route string in basics/ToDo/main.py:41 is malformed, and request validation answers 422 before any handler runs. Only 401 and 404 are modelled, as results.
- Concurrency on the shared `BOOKS` list is left out. The handlers are `async`, but they run one after another in this model.
- `Books.Catalog.CreateBook`: the source appends the un-awaited coroutine returned by `find_id_book`. The model appends the book that call would produce.
- `Books.Catalog.UpdateBook`: the source stores the request object itself at the replaced index. The model stores a `Book` with the same field values; that object's id equals the id it replaces.
- `TodosRouter.ReadAll`: the table is a map keyed by id, so the order of the rows the ORM returns is not modelled. The queries have no ordering clause.
- `AdminRouter.ReadAll`: row order is not modelled, as for `TodosRouter.ReadAll`.
- `DraftApp.ReadAll`: row order is not modelled, as for `TodosRouter.ReadAll`.
- Database-side column settings are not modelled: uniqueness, indexes, and the defaults for priority and complete. Requests always supply those fields. The id the database assigns on insert is a parameter, required to be positive and unused.
