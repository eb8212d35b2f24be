# Book catalogue: search normalisation and catalogue updates

A model of the core of a small Flask book-catalogue application (`app.py`).
Users look a book up by ISBN in an external book-search service, the first
match is normalised into a flat record (`Book_Api`) held in a single
process-wide slot (`book`), and a confirmed add inserts that record into the
`Book` table for the current user; rows can be deleted by id.

- `BookSearch` (book_search.dfy) models `Process_Json`. The decoded search
  response is a datatype (`SearchResponse`, `Item`, `VolumeInfo`). `Normalize`
  is the function the record is specified by, and `ProcessJson` is the method
  that builds it with the source's accumulation loop, proved equal to
  `Normalize`. Several authors give a string in which every name is followed by
  one space, so the string ends with a space. A single author is copied as it
  is. A missing `averageRating` becomes the text `No Rating Available`.
- `Catalogue` (catalogue.dfy) models the state that the routes `search`,
  `add_book` and `delete_book` change. Class `App` holds the `Book` table as a
  sequence of rows and the process-wide `book` slot as the field `staged`.
  Its invariant is that ids are distinct and that titles are distinct across
  the whole table. The duplicate check in `add_book` looks at every row,
  whoever owns it, and the staged slot is shared by all users. Both are
  reproduced as the code has them.

Two behaviours of the code are kept as written:
- The pending search result is process-wide, not scoped to a session: `book`
  is a module global (app.py:35, 228, 244).
- Deleting a missing id is not reported as "not found". The 404 raised by
  `get_or_404` is caught by the bare `except` (app.py:294-303), so the outcome is the generic
  "Unable to Delete Book" message (`UnableToDelete`).

## Model

| member | source | states |
|---|---|---|
| `BookSearch.RatingOf` | app.py:136-140 | the rating is the volume's `averageRating` when present, otherwise the sentinel `No Rating Available` |
| `BookSearch.Normalize` | app.py:124-162 | for a response with a first item that has an author, the record's title and page count are that item's title and `pageCount` |
| `BookSearch.ProcessJson` | app.py:124-162 | the record built by the author-accumulation loop is exactly `Normalize(data)`; it requires a first item with at least one author, as the code does |
| `BookSearch.NormalizeReadsFirstItemOnly` | app.py:131-137 | two responses with the same first item give the same record: later items are ignored |
| `BookSearch.NormalizeRating` | app.py:136-140 | the record's rating is the first item's `averageRating` when present, else `No Rating Available` |
| `BookSearch.SingleAuthorVerbatim` | app.py:154-156 | with exactly one author the author string is that name, with no space added |
| `BookSearch.SpaceTerminatedSnoc` | app.py:149-153 | one more loop iteration appends the next name and one space to the accumulated string |
| `BookSearch.SpaceTerminated` | app.py:149-153 | the string the loop accumulates (each name followed by a space) is as long as the names together plus one character per name |
| `BookSearch.FlattenAuthors` | app.py:143-156 | one author gives that name unchanged; two or more give the space-join of the names plus one trailing space |
| `BookSearch.SpaceTerminatedEndsWithSpace` | app.py:152-153 | for one or more names the accumulated string ends with a space |
| `BookSearch.SpaceTerminatedAt` | app.py:149-153 | name `i` occurs at offset (lengths of names before it + i) and is followed by one space, so the names appear in list order |
| `BookSearch.SpaceTerminatedIsJoinPlusSpace` | app.py:143-153 | the accumulated string is the space-join of the names plus one trailing space |
| `BookSearch.MultipleAuthorsTrailingSpace` | app.py:143-153 | with two or more authors the record's author string has length (sum of name lengths + number of authors), ends with a space, and equals the space-join plus a trailing space |
| `Catalogue.MaxId` | app.py:49 | the largest id in the table (0 when empty): no row has a larger id, and some row has it unless it is 0 |
| `Catalogue.NextId` | app.py:49 | the id given to a new row is positive and differs from every id in use |
| `Catalogue.TitleTaken` | app.py:268 | the scan for a row with the exact title finds one if and only if some row, of any owner, has that title |
| `Catalogue.NewEntry` | app.py:265 | the new row is owned by the current user and copies title, authors, pages and rating from the staged record |
| `Catalogue.FindById` | app.py:296 | a lookup by id returns a row of the table with that id, and returns nothing only when no row has that id |
| `Catalogue.RemoveId` | app.py:298-299 | the rows kept are exactly the rows of the table whose id differs from the deleted one |
| `Catalogue.RemoveMissing` | app.py:294-303 | deleting an id that no row has leaves the table unchanged |
| `Catalogue.RemoveExisting` | app.py:296-299 | with distinct ids, deleting the id of row k removes exactly row k and keeps all other rows in order |
| `Catalogue.RemovePreservesValid` | app.py:290-306 | deleting keeps ids distinct and titles distinct |
| `Catalogue.AddPreservesValid` | app.py:267-281 | appending a row with a fresh id and an untaken title keeps ids and titles pairwise distinct |
| `Catalogue.App.constructor` | app.py:35 | nothing is staged at start (`book = None`); the model's table starts empty and valid |
| `Catalogue.App.Search` | app.py:224-248 | `totalItems == 0` gives "No Book Found!" and leaves the slot unchanged; a response with matches but no item or no author raises and leaves the slot unchanged; otherwise the slot becomes `Normalize(response)`; the table never changes |
| `Catalogue.App.AddBook` | app.py:251-287 | nothing staged raises and changes nothing; a title already in any row, of any owner, gives "Book Already Exists" and changes nothing; otherwise exactly one row is appended, with a fresh id, owned by the user, copied from the staged record; the table stays valid |
| `Catalogue.App.DeleteBook` | app.py:290-306 | a missing id gives "Unable to Delete Book" and changes nothing; an existing id removes exactly that row, keeps the others in order, and gives "Book Deleted"; no ownership check |

## Left out

- `Google_Search` (app.py:98-121): the network request and `json.loads` are I/O. `Search` takes the decoded response as its parameter. So the failure path of the lookup is not modelled: as written it returns a redirect response that `search` then indexes by `"totalItems"`.
- Keys missing from the response: the model's `VolumeInfo` always has a title, an author list and a page count. Only `averageRating` is optional, and only an empty item list or an empty author list is modelled as the raised exception (`SearchFailed`).
- `averageRating` is a JSON number. It is kept as the text stored in the `rating` column, so no floating point is modelled.
- Flask routing, templates, `flash`/`redirect` and the WTForms classes. Only the branch taken after a valid form submission is modelled. The flash messages are the outcome datatypes `SearchOutcome`, `AddOutcome` and `DeleteOutcome`. The GET branches only render a page and change nothing.
- Login, logout, password checks, `load_user` and the `login_required` gate: they are delegated to `flask_login` and `bcrypt`. The current user's id is a parameter of `AddBook`.
- The `account` listing (`Book.query.all()`) and the static `books` list of the home page: they only read or display data.
- SQLAlchemy session and commit mechanics, including the failure branch of the insert (app.py:282-285) and a commit failure during delete. The table is an in-memory sequence that always accepts the update.
- Catalogue.NextId: the id is one more than the largest id in use, which is how the database numbers an integer primary key. The database's fallback once the largest 64-bit id is reached is not modelled.
- Concurrency: the shared `book` slot is one field, and requests do not interleave.
- Catalogue.App.constructor: the model starts from an empty `Book` table. The table really lives in the file `flask_book.db` (app.py:20) and survives restarts, and the `title` column has no unique constraint (app.py:51). A database that already holds repeated titles, from outside this code or from concurrent adds, is outside `Valid()`, and no operation is modelled on it.
