/**
 * BookImageMigrationService: moves every book's cover image to the object store and
 * records the new URL in the file table. The per-book step is processSingleBook; the
 * driver runs it for every book that still holds an image and tallies successes and
 * failures. The driver's thread pool is modelled as a loop over the candidates in
 * table order.
 *
 * The candidates are detached copies of the book rows: the step clears the image of
 * its copy (returned here as `after`), and the model does not claim that this change
 * reaches the book table.
 */
module ImageMigration {
  import opened Wrappers
  import opened JavaText
  import opened Entities
  import opened BookRepository
  import opened FileStore

  /** The message of the RuntimeException processSingleBook throws when the upload fails. */
  const TransferFailedMessage := "이미지 다운로드/업로드 실패"

  /** The outcome of one step as the driver sees it: it returned, or it threw. */
  datatype StepOutcome = Done | Failed(message: string)

  /** The file table after the upsert of processSingleBook: the first (BOOK, bookId) row
      gets the new URL; without one, a new row is inserted. */
  function UpsertBookImage(rows: seq<FileRow>, bookId: int, url: string, newId: int): seq<FileRow> {
    match FindFirstBookRow(rows, bookId)
    case Some(i) => rows[i := rows[i].(fileUrl := url)]
    case None => rows + [FileRow(newId, url, BookImage, bookId)]
  }

  /** A book with no image, or a blank one, is skipped and returns normally. */
  predicate NothingToMove(book: Book) {
    book.image.None? || IsBlank(book.image.value)
  }

  /** The step returns normally: nothing to move, or the upload produced a URL. */
  predicate StepSucceeds(book: Book, uploaded: Option<string>) {
    NothingToMove(book) || uploaded.Some?
  }

  /** processSingleBook(book): its outcome, the book object afterwards, and the file
      table and its identity counter afterwards. `uploaded` is what uploadFromUrl
      returns for the book's image. */
  function ProcessOutcome(book: Book, files: seq<FileRow>, nextId: int, uploaded: Option<string>)
    : (r: (StepOutcome, Book, seq<FileRow>, int))
    requires book.id.Some?
    ensures r.0 == Done <==> StepSucceeds(book, uploaded)
    ensures r.0.Failed? ==> r == (Failed(TransferFailedMessage), book, files, nextId)
    ensures NothingToMove(book) ==> r == (Done, book, files, nextId)
    ensures !NothingToMove(book) && uploaded.Some? ==>
      r.1 == book.(image := None) && r.2 == UpsertBookImage(files, book.id.value, uploaded.value, nextId)
  {
    if NothingToMove(book) then (Done, book, files, nextId)
    else match uploaded
      case None => (Failed(TransferFailedMessage), book, files, nextId)
      case Some(url) =>
        var inserted := FindFirstBookRow(files, book.id.value).None?;
        (Done, book.(image := None), UpsertBookImage(files, book.id.value, url, nextId),
         if inserted then nextId + 1 else nextId)
  }

  /** Every stored book carries its generated id. */
  predicate AllStored(rows: seq<Book>) {
    forall i | 0 <= i < |rows| :: rows[i].id.Some?
  }

  /** The books findByBookImageIsNotNull returns, in table order. */
  function Candidates(rows: seq<Book>): (r: seq<Book>)
    ensures |r| == |FindByImageIsNotNull(rows)|
    ensures forall k | 0 <= k < |r| :: r[k].image.Some?
    ensures forall k | 0 <= k < |r| ::
      FindByImageIsNotNull(rows)[k] < |rows| && r[k] == rows[FindByImageIsNotNull(rows)[k]]
    ensures AllStored(rows) ==> AllStored(r)
  {
    var ps := FindByImageIsNotNull(rows);
    assert forall k | 0 <= k < |ps| :: ps[k] in ps;
    seq(|ps|, k requires 0 <= k < |ps| => rows[ps[k]])
  }

  /** The number of books among `books` whose step succeeds; `upload(k)` is the upload
      outcome for the k-th one. */
  function CountSucceeding(books: seq<Book>, upload: nat -> Option<string>): (n: nat)
    ensures n <= |books|
  {
    if books == [] then 0
    else
      var k := |books| - 1;
      CountSucceeding(books[..k], upload) + (if StepSucceeds(books[k], upload(k)) then 1 else 0)
  }

  /** The driver run over `books` in order: (successes, failures, file table, counter). */
  function Migrated(books: seq<Book>, upload: nat -> Option<string>, files: seq<FileRow>, nextId: int)
    : (r: (nat, nat, seq<FileRow>, int))
    requires AllStored(books)
    ensures r.0 + r.1 == |books|
    ensures r.0 == CountSucceeding(books, upload)
  {
    if books == [] then (0, 0, files, nextId)
    else
      var k := |books| - 1;
      var before := Migrated(books[..k], upload, files, nextId);
      var step := ProcessOutcome(books[k], before.2, before.3, upload(k));
      if step.0 == Done then (before.0 + 1, before.1, step.2, step.3)
      else (before.0, before.1 + 1, step.2, step.3)
  }

  /** processSingleBook on one detached book object. */
  method ProcessSingleBook(book: Book, files: FileTable, uploaded: Option<string>)
    returns (outcome: StepOutcome, after: Book)
    requires book.id.Some?
    modifies files
    ensures (outcome, after, files.rows, files.nextId)
      == ProcessOutcome(book, old(files.rows), old(files.nextId), uploaded)
  {
    if book.image.None? || IsBlank(book.image.value) {
      return Done, book;
    }
    if uploaded.Some? {
      var existing := FindFirstBookRow(files.rows, book.id.value);
      if existing.Some? {
        var i := existing.value;
        files.rows := files.rows[i := files.rows[i].(fileUrl := uploaded.value)];
      } else {
        files.rows := files.rows + [FileRow(files.nextId, uploaded.value, BookImage, book.id.value)];
        files.nextId := files.nextId + 1;
      }
      outcome, after := Done, book.(image := None);
    } else {
      outcome, after := Failed(TransferFailedMessage), book;
    }
  }

  /** migrateAllImages, one candidate after the other. `upload(k)` is what
      uploadFromUrl returns for the k-th candidate. */
  method MigrateAllImages(books: BookTable, files: FileTable, upload: nat -> Option<string>)
    returns (success: nat, failure: nat)
    requires AllStored(books.rows)
    modifies files
    ensures success + failure == |FindByImageIsNotNull(books.rows)|
    ensures success == CountSucceeding(Candidates(books.rows), upload)
    ensures (files.rows, files.nextId)
      == (var m := Migrated(Candidates(books.rows), upload, old(files.rows), old(files.nextId)); (m.2, m.3))
  {
    var candidates := Candidates(books.rows);
    ghost var files0, nextId0 := files.rows, files.nextId;
    success, failure := 0, 0;
    var k := 0;
    while k < |candidates|
      invariant 0 <= k <= |candidates|
      invariant AllStored(candidates)
      invariant (success, failure, files.rows, files.nextId) == Migrated(candidates[..k], upload, files0, nextId0)
    {
      success, failure := MigrateOne(candidates, k, files, upload, success, failure, files0, nextId0);
      k := k + 1;
    }
    assert candidates[..k] == candidates;
  }

  /** The driver's work for the k-th candidate: run its step and tally the outcome. */
  method MigrateOne(candidates: seq<Book>, k: nat, files: FileTable, upload: nat -> Option<string>,
                    success: nat, failure: nat, ghost files0: seq<FileRow>, ghost nextId0: int)
    returns (success': nat, failure': nat)
    requires AllStored(candidates) && k < |candidates|
    requires AllStored(candidates[..k])
    requires (success, failure, files.rows, files.nextId) == Migrated(candidates[..k], upload, files0, nextId0)
    modifies files
    ensures AllStored(candidates[..k + 1])
    ensures (success', failure', files.rows, files.nextId) == Migrated(candidates[..k + 1], upload, files0, nextId0)
  {
    MigratedStep(candidates, upload, files0, nextId0, k);
    var outcome, _ := ProcessSingleBook(candidates[k], files, upload(k));
    if outcome == Done {
      success', failure' := success + 1, failure;
    } else {
      success', failure' := success, failure + 1;
    }
  }

  /** One more candidate: the driver's state after k + 1 steps is one step after k. */
  lemma MigratedStep(books: seq<Book>, upload: nat -> Option<string>, files: seq<FileRow>, nextId: int, k: nat)
    requires AllStored(books) && k < |books|
    ensures AllStored(books[..k]) && AllStored(books[..k + 1])
    ensures var before := Migrated(books[..k], upload, files, nextId);
      var step := ProcessOutcome(books[k], before.2, before.3, upload(k));
      Migrated(books[..k + 1], upload, files, nextId)
        == if step.0 == Done then (before.0 + 1, before.1, step.2, step.3)
           else (before.0, before.1 + 1, step.2, step.3)
  {
    assert books[..k + 1][..k] == books[..k];
    assert books[..k + 1][k] == books[k];
  }

  // ---------------------------------------------------------------------------
  // Properties

  /** The upsert gives the first (BOOK, bookId) row the new URL, or inserts one when
      none exists; every other row is kept, in order. */
  lemma UpsertBookImageRows(rows: seq<FileRow>, bookId: int, url: string, newId: int)
    ensures BookRows(UpsertBookImage(rows, bookId, url, newId), bookId) ==
      (if BookRows(rows, bookId) == [] then [FileRow(newId, url, BookImage, bookId)]
       else [BookRows(rows, bookId)[0].(fileUrl := url)] + BookRows(rows, bookId)[1..])
    ensures OtherRows(UpsertBookImage(rows, bookId, url, newId), bookId) == OtherRows(rows, bookId)
  {
    var added := FileRow(newId, url, BookImage, bookId);
    match FindFirstBookRow(rows, bookId)
    case None =>
      BookRowsNone(rows, bookId);
      BookRowsConcat(rows, [added], bookId);
      OtherRowsConcat(rows, [added], bookId);
      assert [added][1..] == [];
    case Some(i) =>
      SplitAtFirst(rows, bookId, i);
      var r := rows[i := rows[i].(fileUrl := url)];
      assert FindFirstBookRow(r, bookId) == Some(i) by {
        FirstRowPreserved(rows, r, bookId, i);
      }
      SplitAtFirst(r, bookId, i);
      assert r[..i] == rows[..i] && r[i + 1..] == rows[i + 1..];
  }

  /** A sequence that agrees with `rows` before position i and still has a (BOOK, bookId)
      row at i has its first such row at i. */
  lemma FirstRowPreserved(rows: seq<FileRow>, r: seq<FileRow>, bookId: int, i: nat)
    requires FindFirstBookRow(rows, bookId) == Some(i)
    requires |r| == |rows| && r[..i] == rows[..i] && IsBookRow(r[i], bookId)
    ensures FindFirstBookRow(r, bookId) == Some(i)
  {
    forall j | 0 <= j < i ensures !IsBookRow(r[j], bookId) {
      assert r[j] == r[..i][j] == rows[..i][j] == rows[j];
    }
  }

  /** After a successful upload, getBookImage returns the new URL, and the number of
      (BOOK, bookId) rows is unchanged unless there was none, when it becomes one. */
  lemma UpsertStoresSingleUrl(rows: seq<FileRow>, bookId: int, url: string, newId: int)
    ensures FirstBookImage(UpsertBookImage(rows, bookId, url, newId), bookId) == Some(url)
    ensures |BookRows(UpsertBookImage(rows, bookId, url, newId), bookId)|
      == if BookRows(rows, bookId) == [] then 1 else |BookRows(rows, bookId)|
  {
    UpsertBookImageRows(rows, bookId, url, newId);
    FirstBookImageIsHead(UpsertBookImage(rows, bookId, url, newId), bookId);
  }

  /** Running a successful step twice on the same book changes nothing the second time:
      the cleared image makes the second run a no-op. */
  lemma ProcessTwiceIsNoOp(book: Book, files: seq<FileRow>, nextId: int, uploaded: Option<string>,
                           again: Option<string>)
    requires book.id.Some?
    requires ProcessOutcome(book, files, nextId, uploaded).0 == Done
    ensures var first := ProcessOutcome(book, files, nextId, uploaded);
      ProcessOutcome(first.1, first.2, first.3, again) == (Done, first.1, first.2, first.3)
  {
  }

  /** A failure for one candidate leaves the rest untouched: each candidate's outcome
      depends on that candidate and its upload only, whatever the table holds. */
  lemma {:induction false} FailureIsLocal(books: seq<Book>, upload: nat -> Option<string>,
                                          files: seq<FileRow>, nextId: int, k: nat)
    requires AllStored(books) && k < |books|
    requires !StepSucceeds(books[k], upload(k))
    ensures Migrated(books[..k + 1], upload, files, nextId).1 == Migrated(books[..k], upload, files, nextId).1 + 1
    ensures Migrated(books[..k + 1], upload, files, nextId).2 == Migrated(books[..k], upload, files, nextId).2
  {
    assert books[..k + 1][..k] == books[..k];
    assert books[..k + 1][k] == books[k];
  }
}
