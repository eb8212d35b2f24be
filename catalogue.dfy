/** The catalogue routes of app.py: `search` stages a normalised record in the
    process-wide `book` slot, `add_book` inserts the staged record into the
    `Book` table for the current user, and `delete_book` removes a row by id.
    The table is an in-memory sequence of rows in insertion order. */
module Catalogue {
  import opened BookSearch

  /** One row of the `Book` table. */
  datatype Entry = Entry(id: int, userId: int, title: string, authors: string, pages: int, rating: string)

  /** The flash outcome of `search`; `SearchFailed` is the uncaught exception
      raised when a response reporting matches has no item or no author. */
  datatype SearchOutcome = NoBookFound | Staged | SearchFailed

  /** The flash outcome of `add_book`; `NothingStaged` is the uncaught exception
      raised when no search has staged a record yet. */
  datatype AddOutcome = BookAdded | AlreadyExists | NothingStaged

  /** The flash outcome of `delete_book`. */
  datatype DeleteOutcome = BookDeleted | UnableToDelete

  // ---------------------------------------------------------------------------
  // The table as a value

  predicate IdsDistinct(t: seq<Entry>) {
    forall i, j :: 0 <= i < j < |t| ==> t[i].id != t[j].id
  }

  predicate TitlesDistinct(t: seq<Entry>) {
    forall i, j :: 0 <= i < j < |t| ==> t[i].title != t[j].title
  }

  /** Ids are a primary key, and every title occurs at most once in the whole
      table, whoever owns the row. */
  predicate TableValid(t: seq<Entry>) {
    IdsDistinct(t) && TitlesDistinct(t)
  }

  /** Whether a scan of the table for this exact title finds a row
      (`filter_by(title=...).first()`); the owner of the row plays no part. */
  predicate TitleTaken(t: seq<Entry>, title: string): (taken: bool)
    ensures taken <==> exists i :: 0 <= i < |t| && t[i].title == title
  {
    if t == [] then false
    else t[0].title == title || TitleTaken(t[1..], title)
  }

  /** The largest id in use, or 0 for an empty table. */
  function MaxId(t: seq<Entry>): (m: nat)
    ensures forall i :: 0 <= i < |t| ==> t[i].id <= m
    ensures m == 0 || exists i :: 0 <= i < |t| && t[i].id == m
  {
    if t == [] then 0
    else
      var m := MaxId(t[1..]);
      if t[0].id > m then t[0].id else m
  }

  /** The id the database gives a new row: one more than the largest id in use. */
  function NextId(t: seq<Entry>): (id: int)
    ensures id > 0
    ensures forall i :: 0 <= i < |t| ==> t[i].id != id
  {
    MaxId(t) + 1
  }

  /** The row built by `add_book` from the staged record for `user`. */
  function NewEntry(id: int, user: int, b: BookApi): (e: Entry)
    ensures e.id == id && e.userId == user
    ensures e.title == b.title && e.authors == b.authors && e.pages == b.pages && e.rating == b.rating
  {
    Entry(id, user, b.title, b.authors, b.pages, b.rating)
  }

  /** The row with this id, if any (`get_or_404`). */
  function FindById(t: seq<Entry>, id: int): (r: Option<Entry>)
    ensures r.Some? ==> r.value in t && r.value.id == id
    ensures r.None? ==> forall i :: 0 <= i < |t| ==> t[i].id != id
  {
    if t == [] then None
    else if t[0].id == id then Some(t[0])
    else FindById(t[1..], id)
  }

  /** The table without the rows that have this id. */
  function RemoveId(t: seq<Entry>, id: int): (r: seq<Entry>)
    ensures |r| <= |t|
    ensures forall e :: e in r <==> e in t && e.id != id
  {
    if t == [] then []
    else (if t[0].id == id then [] else [t[0]]) + RemoveId(t[1..], id)
  }

  // ---------------------------------------------------------------------------
  // Lemmas about the table operations

  /** Removing an id that no row has leaves the table as it was. */
  lemma {:induction false} RemoveMissing(t: seq<Entry>, id: int)
    requires forall i :: 0 <= i < |t| ==> t[i].id != id
    ensures RemoveId(t, id) == t
  {
    if t != [] {
      RemoveMissing(t[1..], id);
      assert t == [t[0]] + t[1..];
    }
  }

  /** With distinct ids, removing the id of row `k` removes exactly that row and
      keeps every other row, in order. */
  lemma {:induction false} RemoveExisting(t: seq<Entry>, k: nat)
    requires IdsDistinct(t) && k < |t|
    ensures RemoveId(t, t[k].id) == t[..k] + t[k + 1..]
  {
    var id := t[k].id;
    if k == 0 {
      RemoveMissing(t[1..], id);
    } else {
      RemoveExisting(t[1..], k - 1);
      assert t[1..][k - 1] == t[k];
      assert t[..k] == [t[0]] + t[1..][..k - 1];
      assert t[k + 1..] == t[1..][k..];
    }
  }

  /** Removing rows keeps the table valid. */
  lemma {:induction false} RemovePreservesValid(t: seq<Entry>, id: int)
    requires TableValid(t)
    ensures TableValid(RemoveId(t, id))
  {
    if t != [] {
      RemovePreservesValid(t[1..], id);
      var rest := RemoveId(t[1..], id);
      if t[0].id != id {
        forall j | 0 <= j < |rest|
          ensures t[0].id != rest[j].id && t[0].title != rest[j].title
        {
          assert rest[j] in t[1..];
          var k :| 0 <= k < |t[1..]| && t[1..][k] == rest[j];
          assert t[k + 1] == rest[j];
        }
        var r := [t[0]] + rest;
        forall i, j | 0 <= i < j < |r|
          ensures r[i].id != r[j].id && r[i].title != r[j].title
        {
          if i > 0 {
            assert r[i] == rest[i - 1] && r[j] == rest[j - 1];
          } else {
            assert r[j] == rest[j - 1];
          }
        }
      }
    }
  }

  /** Appending a row with a fresh id and a title not yet taken keeps the table
      valid: titles that were pairwise distinct stay pairwise distinct. */
  lemma AddPreservesValid(t: seq<Entry>, e: Entry)
    requires TableValid(t)
    requires e.id == NextId(t) && !TitleTaken(t, e.title)
    ensures TableValid(t + [e])
  {
  }

  /** The id that `FindById` finds is the id of exactly one row. */
  lemma FoundAt(t: seq<Entry>, id: int) returns (k: nat)
    requires FindById(t, id).Some?
    ensures k < |t| && t[k] == FindById(t, id).value && t[k].id == id
  {
    var e := FindById(t, id).value;
    assert e in t;
    k :| 0 <= k < |t| && t[k] == e;
  }

  // ---------------------------------------------------------------------------
  // The application state: the `Book` table and the process-wide `book` slot

  class App {
    /** The rows of the `Book` table, in insertion order. */
    var table: seq<Entry>
    /** The module-global `book`: the last record staged by any user's search. */
    var staged: Option<BookApi>

    ghost predicate Valid()
      reads this
    {
      TableValid(table)
    }

    /** An empty table and nothing staged (`book = None`). */
    constructor ()
      ensures Valid() && table == [] && staged == None
    {
      table := [];
      staged := None;
    }

    /** `search` after the form is submitted with a decoded lookup response.
        Nothing is staged when the response reports no match; otherwise the
        first match is normalised into the slot, whoever searches. */
    method Search(response: SearchResponse) returns (outcome: SearchOutcome)
      requires Valid()
      modifies this`staged
      ensures Valid()
      ensures response.totalItems == 0 ==> outcome == NoBookFound && staged == old(staged)
      ensures response.totalItems != 0 && !Normalizable(response) ==>
        outcome == SearchFailed && staged == old(staged)
      ensures response.totalItems != 0 && Normalizable(response) ==>
        outcome == Staged && staged == Some(Normalize(response))
    {
      if response.totalItems == 0 {
        outcome := NoBookFound;
      } else if !Normalizable(response) {
        outcome := SearchFailed;
      } else {
        var b := ProcessJson(response);
        staged := Some(b);
        outcome := Staged;
      }
    }

    /** `add_book` after the form is submitted by `user`. The staged record is
        refused when any row, of any owner, already has its title; otherwise
        exactly one row owned by `user` is appended. The slot is not cleared. */
    method AddBook(user: int) returns (outcome: AddOutcome)
      requires Valid()
      modifies this`table
      ensures Valid()
      ensures staged.None? ==> outcome == NothingStaged && table == old(table)
      ensures staged.Some? && TitleTaken(old(table), staged.value.title) ==>
        outcome == AlreadyExists && table == old(table)
      ensures staged.Some? && !TitleTaken(old(table), staged.value.title) ==>
        outcome == BookAdded && table == old(table) + [NewEntry(NextId(old(table)), user, staged.value)]
    {
      if staged.None? {
        outcome := NothingStaged;
        return;
      }
      var newBook := NewEntry(NextId(table), user, staged.value);
      if TitleTaken(table, newBook.title) {
        outcome := AlreadyExists;
        return;
      }
      AddPreservesValid(table, newBook);
      table := table + [newBook];
      outcome := BookAdded;
    }

    /** `delete_book(id)`, whoever asks. A missing id is caught and reported;
        otherwise exactly the row with that id is removed, the others are kept
        in order. */
    method DeleteBook(id: int) returns (outcome: DeleteOutcome)
      requires Valid()
      modifies this`table
      ensures Valid()
      ensures (forall i :: 0 <= i < |old(table)| ==> old(table)[i].id != id) ==>
        outcome == UnableToDelete && table == old(table)
      ensures outcome == BookDeleted ==>
        exists k :: 0 <= k < |old(table)| && old(table)[k].id == id && table == old(table)[..k] + old(table)[k + 1..]
      ensures outcome == BookDeleted <==> FindById(old(table), id).Some?
    {
      var found := FindById(table, id);
      if found.None? {
        outcome := UnableToDelete;
        return;
      }
      var k := FoundAt(table, id);
      RemoveExisting(table, k);
      RemovePreservesValid(table, id);
      table := RemoveId(table, id);
      outcome := BookDeleted;
    }
  }

  /** A client run: the staged slot and the duplicate check are shared by all
      users, and a second add of the same staged record is refused. */
  method SharedStateScenario()
  {
    var app := new App();
    var info := VolumeInfo("Flask Web Development", ["Miguel Grinberg"], 237, None);
    var s := app.Search(SearchResponse(1, [Item(info)]));
    assert s == Staged;
    assert app.staged == Some(BookApi("Flask Web Development", "Miguel Grinberg", 237, NoRatingText));
    var a := app.AddBook(1);
    assert a == BookAdded && |app.table| == 1 && app.table[0].id == 1 && app.table[0].userId == 1;
    var none := app.Search(SearchResponse(0, []));
    assert none == NoBookFound;
    a := app.AddBook(2);
    assert app.table[0].title == "Flask Web Development";
    assert a == AlreadyExists && |app.table| == 1;
    var d := app.DeleteBook(7);
    assert d == UnableToDelete && |app.table| == 1;
    d := app.DeleteBook(1);
    assert d == BookDeleted && app.table == [];
  }
}
