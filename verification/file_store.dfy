/**
 * The file table (BookFile rows) and FileServiceImpl's two operations on book images:
 * saveBookImage, which deletes the first (BOOK, bookId) row and inserts a new one, and
 * getBookImage, which reads the URL of the first such row.
 */
module FileStore {
  import opened Wrappers

  /** FileType: BOOK is the only kind the modelled code writes or reads. */
  datatype FileType = BookImage | OtherType(name: string)

  /** One BookFile row: the owner is identified by its type and joinedId. */
  datatype FileRow = FileRow(fileId: int, fileUrl: string, fileType: FileType, joinedId: int)

  predicate IsBookRow(f: FileRow, bookId: int) {
    f.fileType == BookImage && f.joinedId == bookId
  }

  /** findFirstByFileTypeAndJoinedId(BOOK, bookId): the position of the first such row
      in table order, or none. */
  function FindFirstBookRow(rows: seq<FileRow>, bookId: int): (r: Option<nat>)
    ensures r.Some? ==> r.value < |rows| && IsBookRow(rows[r.value], bookId)
    ensures r.Some? ==> forall j | 0 <= j < r.value :: !IsBookRow(rows[j], bookId)
    ensures r.None? ==> forall j | 0 <= j < |rows| :: !IsBookRow(rows[j], bookId)
  {
    if rows == [] then None
    else if IsBookRow(rows[0], bookId) then Some(0)
    else match FindFirstBookRow(rows[1..], bookId)
      case None => None
      case Some(k) => Some(k + 1)
  }

  /** The (BOOK, bookId) rows, in table order. */
  function BookRows(rows: seq<FileRow>, bookId: int): (r: seq<FileRow>)
    ensures forall k | 0 <= k < |r| :: IsBookRow(r[k], bookId)
  {
    if rows == [] then []
    else (if IsBookRow(rows[0], bookId) then [rows[0]] else []) + BookRows(rows[1..], bookId)
  }

  /** Every other row, in table order. */
  function OtherRows(rows: seq<FileRow>, bookId: int): (r: seq<FileRow>)
    ensures forall k | 0 <= k < |r| :: !IsBookRow(r[k], bookId)
  {
    if rows == [] then []
    else (if IsBookRow(rows[0], bookId) then [] else [rows[0]]) + OtherRows(rows[1..], bookId)
  }

  /** getBookImage: the URL of the first (BOOK, bookId) row, or null. */
  function FirstBookImage(rows: seq<FileRow>, bookId: int): Option<string> {
    match FindFirstBookRow(rows, bookId)
    case None => None
    case Some(i) => Some(rows[i].fileUrl)
  }

  /** The table after saveBookImage(bookId, url): the first (BOOK, bookId) row, if any,
      is deleted, and a new row with a freshly generated id is appended. */
  function SavedBookImage(rows: seq<FileRow>, bookId: int, url: string, newId: int): seq<FileRow> {
    var kept := match FindFirstBookRow(rows, bookId)
      case None => rows
      case Some(i) => rows[..i] + rows[i + 1..];
    kept + [FileRow(newId, url, BookImage, bookId)]
  }

  class FileTable {
    var rows: seq<FileRow>
    var nextId: int   // the next value of the identity column

    constructor(initial: seq<FileRow>, firstId: int)
      ensures rows == initial && nextId == firstId
    {
      rows := initial;
      nextId := firstId;
    }

    /** saveBookImage: look up the first row, delete it when present, then insert. */
    method SaveBookImage(bookId: int, url: string)
      modifies this
      ensures rows == SavedBookImage(old(rows), bookId, url, old(nextId))
      ensures nextId == old(nextId) + 1
    {
      var existing := FindFirstBookRow(rows, bookId);
      if existing.Some? {
        rows := rows[..existing.value] + rows[existing.value + 1..];
      }
      rows := rows + [FileRow(nextId, url, BookImage, bookId)];
      nextId := nextId + 1;
    }

    /** getBookImage: a read that changes nothing. */
    method GetBookImage(bookId: int) returns (url: Option<string>)
      ensures url.Some? <==> BookRows(rows, bookId) != []
      ensures url.Some? ==> url.value == BookRows(rows, bookId)[0].fileUrl
    {
      var existing := FindFirstBookRow(rows, bookId);
      url := if existing.Some? then Some(rows[existing.value].fileUrl) else None;
      FirstBookImageIsHead(rows, bookId);
    }
  }

  // ---------------------------------------------------------------------------
  // Properties

  lemma {:induction false} BookRowsConcat(a: seq<FileRow>, c: seq<FileRow>, bookId: int)
    ensures BookRows(a + c, bookId) == BookRows(a, bookId) + BookRows(c, bookId)
    decreases |a|
  {
    if a == [] {
      assert a + c == c;
    } else {
      assert (a + c)[1..] == a[1..] + c;
      BookRowsConcat(a[1..], c, bookId);
    }
  }

  lemma {:induction false} OtherRowsConcat(a: seq<FileRow>, c: seq<FileRow>, bookId: int)
    ensures OtherRows(a + c, bookId) == OtherRows(a, bookId) + OtherRows(c, bookId)
    decreases |a|
  {
    if a == [] {
      assert a + c == c;
    } else {
      assert (a + c)[1..] == a[1..] + c;
      OtherRowsConcat(a[1..], c, bookId);
    }
  }

  lemma {:induction false} BookRowsNone(rows: seq<FileRow>, bookId: int)
    requires forall j | 0 <= j < |rows| :: !IsBookRow(rows[j], bookId)
    ensures BookRows(rows, bookId) == []
    ensures OtherRows(rows, bookId) == rows
  {
    if rows != [] {
      assert !IsBookRow(rows[0], bookId);
      BookRowsNone(rows[1..], bookId);
    }
  }

  /** The rows around the first (BOOK, bookId) row: none of them before it. */
  lemma SplitAtFirst(rows: seq<FileRow>, bookId: int, i: nat)
    requires FindFirstBookRow(rows, bookId) == Some(i)
    ensures BookRows(rows, bookId) == [rows[i]] + BookRows(rows[i + 1..], bookId)
    ensures OtherRows(rows, bookId) == rows[..i] + OtherRows(rows[i + 1..], bookId)
  {
    assert rows == rows[..i] + ([rows[i]] + rows[i + 1..]);
    BookRowsNone(rows[..i], bookId);
    BookRowsConcat(rows[..i], [rows[i]] + rows[i + 1..], bookId);
    OtherRowsConcat(rows[..i], [rows[i]] + rows[i + 1..], bookId);
    assert ([rows[i]] + rows[i + 1..])[1..] == rows[i + 1..];
  }

  /** getBookImage reads the head of the (BOOK, bookId) rows. */
  lemma FirstBookImageIsHead(rows: seq<FileRow>, bookId: int)
    ensures FirstBookImage(rows, bookId) ==
      (if BookRows(rows, bookId) == [] then None else Some(BookRows(rows, bookId)[0].fileUrl))
  {
    match FindFirstBookRow(rows, bookId)
    case None => BookRowsNone(rows, bookId);
    case Some(i) => SplitAtFirst(rows, bookId, i);
  }

  /** saveBookImage drops the first (BOOK, bookId) row, appends the new one, and keeps
      every other row, in order. */
  lemma SaveBookImageRows(rows: seq<FileRow>, bookId: int, url: string, newId: int)
    ensures BookRows(SavedBookImage(rows, bookId, url, newId), bookId) ==
      (if BookRows(rows, bookId) == [] then [] else BookRows(rows, bookId)[1..])
      + [FileRow(newId, url, BookImage, bookId)]
    ensures OtherRows(SavedBookImage(rows, bookId, url, newId), bookId) == OtherRows(rows, bookId)
  {
    var added := FileRow(newId, url, BookImage, bookId);
    assert BookRows([added], bookId) == [added] && OtherRows([added], bookId) == [] by {
      assert [added][1..] == [];
    }
    match FindFirstBookRow(rows, bookId)
    case None =>
      BookRowsNone(rows, bookId);
      BookRowsConcat(rows, [added], bookId);
      OtherRowsConcat(rows, [added], bookId);
    case Some(i) =>
      var kept := rows[..i] + rows[i + 1..];
      DropFirstBookRow(rows, bookId, i);
      assert SavedBookImage(rows, bookId, url, newId) == kept + [added];
      BookRowsConcat(kept, [added], bookId);
      OtherRowsConcat(kept, [added], bookId);
  }

  /** Deleting the first (BOOK, bookId) row drops the head of the (BOOK, bookId) rows
      and keeps every other row. */
  lemma DropFirstBookRow(rows: seq<FileRow>, bookId: int, i: nat)
    requires FindFirstBookRow(rows, bookId) == Some(i)
    ensures BookRows(rows, bookId) != []
    ensures BookRows(rows[..i] + rows[i + 1..], bookId) == BookRows(rows, bookId)[1..]
    ensures OtherRows(rows[..i] + rows[i + 1..], bookId) == OtherRows(rows, bookId)
  {
    SplitAtFirst(rows, bookId, i);
    BookRowsNone(rows[..i], bookId);
    BookRowsConcat(rows[..i], rows[i + 1..], bookId);
    OtherRowsConcat(rows[..i], rows[i + 1..], bookId);
    assert ([rows[i]] + BookRows(rows[i + 1..], bookId))[1..] == BookRows(rows[i + 1..], bookId);
  }

  /** After saveBookImage(b, u) a (BOOK, b) row with URL u exists. */
  lemma SaveBookImageStores(rows: seq<FileRow>, bookId: int, url: string, newId: int)
    ensures exists f | f in SavedBookImage(rows, bookId, url, newId) :: IsBookRow(f, bookId) && f.fileUrl == url
  {
    var r := SavedBookImage(rows, bookId, url, newId);
    assert r[|r| - 1] == FileRow(newId, url, BookImage, bookId);
  }

  /** With at most one (BOOK, b) row before, exactly one is left after saveBookImage,
      and getBookImage returns the new URL. */
  lemma SaveBookImageSingle(rows: seq<FileRow>, bookId: int, url: string, newId: int)
    requires |BookRows(rows, bookId)| <= 1
    ensures |BookRows(SavedBookImage(rows, bookId, url, newId), bookId)| == 1
    ensures FirstBookImage(SavedBookImage(rows, bookId, url, newId), bookId) == Some(url)
  {
    SaveBookImageRows(rows, bookId, url, newId);
    FirstBookImageIsHead(SavedBookImage(rows, bookId, url, newId), bookId);
  }

  /** With two or more (BOOK, b) rows, saveBookImage removes only the first: the row
      count stays the same and getBookImage still returns the second, stale URL. */
  lemma SaveBookImageLeavesStaleRow(rows: seq<FileRow>, bookId: int, url: string, newId: int)
    requires |BookRows(rows, bookId)| >= 2
    ensures |BookRows(SavedBookImage(rows, bookId, url, newId), bookId)| == |BookRows(rows, bookId)|
    ensures FirstBookImage(SavedBookImage(rows, bookId, url, newId), bookId)
      == Some(BookRows(rows, bookId)[1].fileUrl)
  {
    SaveBookImageRows(rows, bookId, url, newId);
    FirstBookImageIsHead(SavedBookImage(rows, bookId, url, newId), bookId);
  }
}
