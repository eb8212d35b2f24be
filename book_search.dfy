/** Normalisation of a decoded book-search response into the flat record the
    catalogue stores (`Process_Json` and `Book_Api` in app.py). */
module BookSearch {

  datatype Option<T> = None | Some(value: T)

  /** The fields of an item's `volumeInfo` object that the normaliser reads.
      `averageRating` is optional in the response; its number is kept as the
      text it is stored as in the catalogue. */
  datatype VolumeInfo = VolumeInfo(
    title: string,
    authors: seq<string>,
    pageCount: int,
    averageRating: Option<string>)

  datatype Item = Item(volumeInfo: VolumeInfo)

  /** A decoded search response: the reported match count and the matches. */
  datatype SearchResponse = SearchResponse(totalItems: int, items: seq<Item>)

  /** The flat record built from the first match (`Book_Api`). */
  datatype BookApi = BookApi(title: string, authors: string, pages: int, rating: string)

  /** The rating stored when the first match has no `averageRating`. */
  const NoRatingText: string := "No Rating Available"

  /** What the normaliser relies on without checking: there is a first item and
      it has at least one author (otherwise the lookup raises). */
  predicate Normalizable(data: SearchResponse) {
    |data.items| > 0 && |data.items[0].volumeInfo.authors| > 0
  }

  /** Every name followed by one space, in list order: what the accumulation
      loop builds for two or more authors. */
  function SpaceTerminated(names: seq<string>): (r: string)
    ensures |r| == TotalLength(names) + |names|
  {
    if names == [] then "" else names[0] + " " + SpaceTerminated(names[1..])
  }

  /** The author string: one author verbatim, several authors space-terminated. */
  function FlattenAuthors(authors: seq<string>): (r: string)
    requires |authors| > 0
    ensures |authors| == 1 ==> r == authors[0]
    ensures |authors| > 1 ==> r == Join(authors, " ") + " "
  {
    if |authors| > 1 then
      SpaceTerminatedIsJoinPlusSpace(authors);
      SpaceTerminated(authors)
    else
      authors[0]
  }

  /** The rating of a volume, or the sentinel text when it has none. */
  function RatingOf(info: VolumeInfo): (r: string)
    ensures info.averageRating.Some? ==> r == info.averageRating.value
    ensures info.averageRating.None? ==> r == NoRatingText
  {
    match info.averageRating
    case Some(score) => score
    case None => NoRatingText
  }

  /** The record that `Process_Json` returns for `data`. */
  function Normalize(data: SearchResponse): (b: BookApi)
    requires Normalizable(data)
    ensures b.title == data.items[0].volumeInfo.title
    ensures b.pages == data.items[0].volumeInfo.pageCount
  {
    var info := data.items[0].volumeInfo;
    BookApi(info.title, FlattenAuthors(info.authors), info.pageCount, RatingOf(info))
  }

  /** `Process_Json`: reads the first item and accumulates the author string
      name by name, appending a space after each one when there are several. */
  method ProcessJson(data: SearchResponse) returns (book: BookApi)
    requires Normalizable(data)
    ensures book == Normalize(data)
  {
    var info := data.items[0].volumeInfo;
    var title := info.title;
    var authors := info.authors;
    var pages := info.pageCount;
    var rating := RatingOf(info);
    var authorsList: string := "";
    if |authors| > 1 {
      for i := 0 to |authors|
        invariant authorsList == SpaceTerminated(authors[..i])
      {
        SpaceTerminatedSnoc(authors[..i], authors[i]);
        assert authors[..i + 1] == authors[..i] + [authors[i]];
        authorsList := authorsList + authors[i];
        authorsList := authorsList + " ";
      }
      assert authors[..|authors|] == authors;
    } else {
      authorsList := authors[0];
    }
    book := BookApi(title, authorsList, pages, rating);
  }

  // ---------------------------------------------------------------------------
  // Properties of the normalised record

  /** Only the first item matters: later items never change the record. */
  lemma NormalizeReadsFirstItemOnly(d1: SearchResponse, d2: SearchResponse)
    requires Normalizable(d1) && Normalizable(d2)
    requires d1.items[0] == d2.items[0]
    ensures Normalize(d1) == Normalize(d2)
  {
  }

  /** The rating is the first item's `averageRating` when present, else the sentinel. */
  lemma NormalizeRating(data: SearchResponse)
    requires Normalizable(data)
    ensures var info := data.items[0].volumeInfo;
      Normalize(data).rating == (if info.averageRating.Some? then info.averageRating.value else NoRatingText)
  {
  }

  /** A single author is copied as it is, with no space added. */
  lemma SingleAuthorVerbatim(data: SearchResponse)
    requires Normalizable(data) && |data.items[0].volumeInfo.authors| == 1
    ensures Normalize(data).authors == data.items[0].volumeInfo.authors[0]
  {
  }

  // ---------------------------------------------------------------------------
  // Properties of the space-terminated author string

  /** Sum of the lengths of the names. */
  function TotalLength(names: seq<string>): nat {
    if names == [] then 0 else |names[0]| + TotalLength(names[1..])
  }

  /** Where the `i`-th name starts in the space-terminated string. */
  function Offset(names: seq<string>, i: nat): nat
    requires i <= |names|
  {
    TotalLength(names[..i]) + i
  }

  /** The conventional separator join (`' '.join(names)`), for comparison. */
  function Join(names: seq<string>, sep: string): string {
    if names == [] then ""
    else if |names| == 1 then names[0]
    else names[0] + sep + Join(names[1..], sep)
  }

  /** Appending one more author appends that name and one space: the step the
      accumulation loop takes. */
  lemma {:induction false} SpaceTerminatedSnoc(names: seq<string>, name: string)
    ensures SpaceTerminated(names + [name]) == SpaceTerminated(names) + name + " "
  {
    if names == [] {
      assert names + [name] == [name];
    } else {
      assert (names + [name])[1..] == names[1..] + [name];
      SpaceTerminatedSnoc(names[1..], name);
    }
  }

  /** The string of one or more names ends with a space. */
  lemma {:induction false} SpaceTerminatedEndsWithSpace(names: seq<string>)
    requires |names| > 0
    ensures |SpaceTerminated(names)| > 0
    ensures SpaceTerminated(names)[|SpaceTerminated(names)| - 1] == ' '
  {
    if |names| > 1 {
      SpaceTerminatedEndsWithSpace(names[1..]);
    } else {
      assert names[1..] == [];
    }
  }

  lemma TotalLengthPrefix(names: seq<string>, i: nat)
    requires 0 < i <= |names|
    ensures TotalLength(names[..i]) == |names[0]| + TotalLength(names[1..][..i - 1])
  {
    assert names[..i][1..] == names[1..][..i - 1];
  }

  /** Name `i` sits at `Offset(names, i)` and is followed by exactly one space:
      the names appear in list order, each followed by one space. */
  lemma {:induction false} SpaceTerminatedAt(names: seq<string>, i: nat)
    requires i < |names|
    ensures Offset(names, i) + |names[i]| < |SpaceTerminated(names)|
    ensures SpaceTerminated(names)[Offset(names, i)..Offset(names, i) + |names[i]|] == names[i]
    ensures SpaceTerminated(names)[Offset(names, i) + |names[i]|] == ' '
  {
    var head := names[0] + " ";
    var rest := SpaceTerminated(names[1..]);
    assert SpaceTerminated(names) == head + rest;
    if i == 0 {
      assert names[..0] == [];
    } else {
      SpaceTerminatedAt(names[1..], i - 1);
      TotalLengthPrefix(names, i);
      var o := Offset(names[1..], i - 1);
      assert Offset(names, i) == |head| + o;
      assert (head + rest)[|head| + o..|head| + o + |names[i]|] == rest[o..o + |names[i]|];
    }
  }

  /** For one or more names, the string is the space-join of the names with one
      extra trailing space. */
  lemma {:induction false} SpaceTerminatedIsJoinPlusSpace(names: seq<string>)
    requires |names| > 0
    ensures SpaceTerminated(names) == Join(names, " ") + " "
  {
    if |names| == 1 {
      assert names[1..] == [];
    } else {
      SpaceTerminatedIsJoinPlusSpace(names[1..]);
    }
  }

  /** Two or more authors: the author string has one space per author on top of
      the names, ends with a space, and is the space-join plus a trailing space. */
  lemma MultipleAuthorsTrailingSpace(data: SearchResponse)
    requires Normalizable(data) && |data.items[0].volumeInfo.authors| > 1
    ensures var authors := data.items[0].volumeInfo.authors;
      var s := Normalize(data).authors;
      && |s| == TotalLength(authors) + |authors|
      && s[|s| - 1] == ' '
      && s == Join(authors, " ") + " "
  {
  }
}
