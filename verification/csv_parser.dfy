/**
 * CsvParser: the start-up loader that fills an empty book table from the book CSV.
 * Reading the file and binding its columns to books is outside the model: its result
 * (the books, or the exception it threw) is a parameter, and so are the identities the
 * database hands out on insert, firstId, firstId + 1, and so on.
 */
module CsvParser {
  import opened Wrappers
  import opened Entities
  import opened BookRepository

  /** The message of the RuntimeException run throws when reading or saving fails. */
  const LoadFailedMessage := "CSV 데이터 로딩 실패!"
  const NoDescription := "상세 설명 없음"
  const NoPublisher := "출판사 정보 없음"
  const DefaultImage := "/images/default_book.png"
  const InitialStock := 100

  /** How run ends: it found books already there and did nothing, it saved `count`
      books, or it threw with `message`. */
  datatype RunOutcome = AlreadyLoaded | Loaded(count: nat) | Failed(message: string)

  /** A text column that is null or empty. */
  predicate Missing(s: Option<string>) {
    s.None? || s.value == ""
  }

  /** The NOT NULL columns of a book the loader saves hold a value. */
  predicate Complete(b: Book) {
    !Missing(b.description) && !Missing(b.publisher) && !Missing(b.image)
    && b.contents.Some? && b.salePrice >= 0
  }

  /** One book after the loop body of run: the columns the CSV does not have get their
      fixed values, the sale price is the regular price (0 when that is negative), and a
      missing description, publisher or image gets its placeholder. */
  function WithDefaults(b: Book): (r: Book)
    ensures Complete(r)
    ensures r.contents == Some("") && !r.packaging && r.state == OnSale
    ensures r.stock == InitialStock && r.reviewRate == 0.0
    ensures r.salePrice == (if b.regularPrice > 0 then b.regularPrice else 0)
    ensures r.description == (if Missing(b.description) then Some(NoDescription) else b.description)
    ensures r.publisher == (if Missing(b.publisher) then Some(NoPublisher) else b.publisher)
    ensures r.image == (if Missing(b.image) then Some(DefaultImage) else b.image)
    ensures r.(description := b.description, publisher := b.publisher, image := b.image,
               contents := b.contents, packaging := b.packaging, state := b.state,
               stock := b.stock, reviewRate := b.reviewRate, salePrice := b.salePrice) == b
  {
    b.(contents := Some(""), packaging := false, state := OnSale, stock := InitialStock,
       reviewRate := 0.0, salePrice := if b.regularPrice >= 0 then b.regularPrice else 0,
       description := if Missing(b.description) then Some(NoDescription) else b.description,
       publisher := if Missing(b.publisher) then Some(NoPublisher) else b.publisher,
       image := if Missing(b.image) then Some(DefaultImage) else b.image)
  }

  /** Every book of the list after the loop. */
  function AllWithDefaults(books: seq<Book>): (r: seq<Book>)
    ensures |r| == |books|
    ensures forall k | 0 <= k < |r| :: r[k] == WithDefaults(books[k])
  {
    seq(|books|, k requires 0 <= k < |books| => WithDefaults(books[k]))
  }

  /** The ISBN column is unique: no two books share one. */
  predicate DistinctIsbns(books: seq<Book>) {
    forall i, j | 0 <= i < j < |books| :: books[i].isbn != books[j].isbn
  }

  /** saveAll on an empty table: the books in list order, each with its new identity. */
  function Inserted(books: seq<Book>, firstId: int): (r: seq<Book>)
    ensures |r| == |books|
    ensures forall k | 0 <= k < |r| :: r[k] == books[k].(id := Some(firstId + k))
  {
    seq(|books|, k requires 0 <= k < |books| => books[k].(id := Some(firstId + k)))
  }

  /** run against a table holding `rows`: the outcome and the table afterwards. A
      duplicate ISBN makes saveAll throw, and its transaction keeps nothing. */
  function RunResult(rows: seq<Book>, parsed: Result<seq<Book>, string>, firstId: int)
    : (r: (RunOutcome, seq<Book>))
    ensures r.0 == AlreadyLoaded <==> rows != []
    ensures !r.0.Loaded? ==> r.1 == rows
    ensures r.0.Failed? ==> r.0.message == LoadFailedMessage
    ensures r.0.Loaded? <==> rows == [] && parsed.Ok? && DistinctIsbns(parsed.value)
    ensures r.0.Loaded? ==> r.0.count == |parsed.value| && r.1 == Inserted(AllWithDefaults(parsed.value), firstId)
  {
    if rows != [] then (AlreadyLoaded, rows)
    else match parsed
      case Err(_) => (Failed(LoadFailedMessage), rows)
      case Ok(books) =>
        var filled := AllWithDefaults(books);
        if DistinctIsbns(filled) then (Loaded(|books|), Inserted(filled, firstId))
        else (Failed(LoadFailedMessage), rows)
  }

  /** The loop of run: sets the defaults of every parsed book in place. */
  method FillDefaults(books: array<Book>)
    modifies books
    ensures books[..] == AllWithDefaults(old(books[..]))
  {
    for k := 0 to books.Length
      invariant books[..k] == AllWithDefaults(old(books[..k]))
      invariant books[k..] == old(books[k..])
    {
      assert books[k] == old(books[k..])[0];
      books[k] := WithDefaults(books[k]);
      assert books[..k + 1] == books[..k] + [books[k]];
    }
  }

  /** run. */
  method Run(table: BookTable, parsed: Result<seq<Book>, string>, firstId: int)
    returns (outcome: RunOutcome)
    modifies table
    ensures (outcome, table.rows) == RunResult(old(table.rows), parsed, firstId)
  {
    if |table.rows| > 0 {
      return AlreadyLoaded;
    }
    if parsed.Err? {
      return Failed(LoadFailedMessage);
    }
    var books := new Book[|parsed.value|](k requires 0 <= k < |parsed.value| => parsed.value[k]);
    assert books[..] == parsed.value;
    FillDefaults(books);
    if !DistinctIsbns(books[..]) {
      return Failed(LoadFailedMessage);
    }
    table.rows := Inserted(books[..], firstId);
    outcome := Loaded(books.Length);
  }

  // ---------------------------------------------------------------------------
  // Properties

  /** Setting the defaults twice is setting them once. */
  lemma WithDefaultsIdempotent(b: Book)
    ensures WithDefaults(WithDefaults(b)) == WithDefaults(b)
  {
  }

  /** A book whose columns are all present keeps them; only the columns the CSV lacks
      and the sale price are set. */
  lemma PresentColumnsKept(b: Book)
    requires !Missing(b.description) && !Missing(b.publisher) && !Missing(b.image)
    ensures WithDefaults(b).description == b.description
    ensures WithDefaults(b).publisher == b.publisher
    ensures WithDefaults(b).image == b.image
  {
  }

  /** After a load, every saved book is complete, has a distinct identity, and is one of
      the parsed books (same ISBN, title and regular price) in list order. */
  lemma LoadedRowsComplete(parsed: seq<Book>, firstId: int)
    requires DistinctIsbns(AllWithDefaults(parsed))
    ensures var rows := RunResult([], Ok(parsed), firstId).1;
      && |rows| == |parsed|
      && UniqueIds(rows)
      && (forall k | 0 <= k < |rows| ::
            && Complete(rows[k])
            && rows[k].isbn == parsed[k].isbn && rows[k].name == parsed[k].name
            && rows[k].regularPrice == parsed[k].regularPrice)
  {
  }

  /** run is a no-op once it has loaded something: a second run, whatever it would
      parse, leaves the table as the first run left it. */
  lemma RunOnce(rows: seq<Book>, parsed: Result<seq<Book>, string>, again: Result<seq<Book>, string>,
                firstId: int, nextId: int)
    requires RunResult(rows, parsed, firstId).1 != []
    ensures var first := RunResult(rows, parsed, firstId).1;
      RunResult(first, again, nextId) == (AlreadyLoaded, first)
  {
  }

  /** The defaults do not change an ISBN, so the load fails on a duplicate ISBN in the
      file exactly. */
  lemma DuplicateIsbnFails(parsed: seq<Book>, firstId: int)
    ensures RunResult([], Ok(parsed), firstId).0.Failed? <==> !DistinctIsbns(parsed)
  {
    var filled := AllWithDefaults(parsed);
    assert forall k | 0 <= k < |parsed| :: filled[k].isbn == parsed[k].isbn;
  }
}
