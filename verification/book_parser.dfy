/**
 * BookParser: turns the rows of the book CSV into new books. The CSV tokenising is
 * outside the model: the input is the list of rows after the header, each already
 * split into fields. The ids of the categories already stored, the set the parser
 * loads before reading, and today's date (for the date converter) are parameters.
 */
module BookParser {
  import opened Wrappers
  import opened JavaText
  import opened JavaNumbers
  import opened Entities
  import opened Converters

  /** Rows with fewer fields are skipped. */
  const FieldCount := 18
  /** The image of a row whose image field is empty. */
  const DefaultImage := "/images/default_book.png"
  const InitialStock := 100

  /** The NumberFormatException Double.parseDouble throws for the price or the
      classification field; nothing catches it, so it ends the whole parse. */
  datatype ParseError = NumberFormat(input: string)

  /** The regular price: 0 for an empty field, else the parsed number cast to int. */
  function PriceOf(field: string): (r: Result<int, ParseError>)
    ensures field == [] ==> r == Ok(0)
    ensures r.Ok? <==> field == [] || ParseTruncatedDecimal(field).Some?
    ensures r.Err? ==> r.error == NumberFormat(field)
    ensures r.Ok? ==> MinInt <= r.value <= MaxInt
    ensures field != [] && ParseTruncatedDecimal(field).Some? ==>
      r.value == Saturate(ParseTruncatedDecimal(field).value, MinInt, MaxInt)
  {
    if field == [] then Ok(0)
    else match ParseTruncatedDecimal(field)
      case Some(v) => Ok(Saturate(v, MinInt, MaxInt))
      case None => Err(NumberFormat(field))
  }

  /** The author names: none for a blank field, else one per comma-separated piece,
      trimmed. */
  function AuthorsOf(field: string): (r: seq<string>)
    ensures IsBlank(field) ==> r == []
    ensures !IsBlank(field) ==>
      (|r| == |Split(field, ',')| && forall k | 0 <= k < |r| :: r[k] == Trim(Split(field, ',')[k]))
  {
    if IsBlank(field) then []
    else
      var pieces := Split(field, ',');
      seq(|pieces|, k requires 0 <= k < |pieces| => Trim(pieces[k]))
  }

  /** The category links: none for a blank field; otherwise the number read from it
      (cast to long) is linked when it is a stored category's id and skipped when not. */
  function CategoryOf(field: string, categoryIds: set<int>): (r: Result<seq<int>, ParseError>)
    ensures r.Ok? ==> |r.value| <= 1 && forall k | 0 <= k < |r.value| :: r.value[k] in categoryIds
    ensures IsBlank(field) ==> r == Ok([])
    ensures r.Err? <==> !IsBlank(field) && ParseTruncatedDecimal(field).None?
    ensures r.Err? ==> r.error == NumberFormat(field)
    ensures !IsBlank(field) && ParseTruncatedDecimal(field).Some? ==>
      var id := Saturate(ParseTruncatedDecimal(field).value, MinLong, MaxLong);
      r == Ok(if id in categoryIds then [id] else [])
  {
    if IsBlank(field) then Ok([])
    else match ParseTruncatedDecimal(field)
      case None => Err(NumberFormat(field))
      case Some(v) =>
        var id := Saturate(v, MinLong, MaxLong);
        Ok(if id in categoryIds then [id] else [])
  }

  /** The book one row of 18 fields or more yields, all fields trimmed: the price is
      read first, the classification last. */
  function MapRow(line: seq<string>, today: Date, categoryIds: set<int>): (r: Result<Book, ParseError>)
    requires |line| >= FieldCount
    ensures r.Ok? ==>
      && r.value.id == None
      && r.value.isbn == Trim(line[1]) && r.value.name == Trim(line[3])
      && r.value.description == Some(Trim(line[10]))
      && r.value.publicationDate == ConvertDate(Some(Trim(line[14])), today)
      && r.value.index == Some("") && !r.value.packaging && r.value.state == OnSale
      && r.value.stock == InitialStock && r.value.salePrice == 0 && r.value.reviewRate == 0.0
      && (Trim(line[9]) == [] ==> r.value.image == Some(DefaultImage))
      && (Trim(line[9]) != [] ==> r.value.image == Some(Trim(line[9])))
      && (Trim(line[8]) == [] ==> r.value.regularPrice == 0)
      && (r.value.publisher.Some? <==> !IsBlank(Trim(line[5])))
      && (!IsBlank(Trim(line[5])) ==> r.value.publisher == Some(Trim(line[5])))
      && r.value.authors == AuthorsOf(Trim(line[4]))
    ensures r.Err? <==> PriceOf(Trim(line[8])).Err? || CategoryOf(Trim(line[11]), categoryIds).Err?
    ensures r.Ok? ==>
      && r.value.regularPrice == PriceOf(Trim(line[8])).value
      && r.value.categories == CategoryOf(Trim(line[11]), categoryIds).value
    ensures r.Err? ==>
      (r.error == if PriceOf(Trim(line[8])).Err? then PriceOf(Trim(line[8])).error
                  else CategoryOf(Trim(line[11]), categoryIds).error)
  {
    var price := PriceOf(Trim(line[8]));
    if price.Err? then Err(price.error)
    else
      var publisher := if IsBlank(Trim(line[5])) then None else Some(Trim(line[5]));
      var image := if Trim(line[9]) == [] then DefaultImage else Trim(line[9]);
      var categories := CategoryOf(Trim(line[11]), categoryIds);
      if categories.Err? then Err(categories.error)
      else Ok(Book(None, Trim(line[1]), Trim(line[3]), Some(Trim(line[10])), publisher,
                   ConvertDate(Some(Trim(line[14])), today), Some(""), false, OnSale,
                   InitialStock, price.value, 0, 0.0, Some(image), AuthorsOf(Trim(line[4])),
                   categories.value, None, 0))
  }

  /** The books parse returns, in row order, or the error that ended it. */
  function ParseBooks(lines: seq<seq<string>>, today: Date, categoryIds: set<int>)
    : (r: Result<seq<Book>, ParseError>)
    ensures r.Ok? ==> |r.value| <= |lines|
    ensures r.Err? ==> exists i | 0 <= i < |lines| ::
      |lines[i]| >= FieldCount && MapRow(lines[i], today, categoryIds) == Err(r.error)
  {
    if lines == [] then Ok([])
    else
      var k := |lines| - 1;
      match ParseBooks(lines[..k], today, categoryIds)
      case Err(e) =>
        assert forall i | 0 <= i < k :: lines[..k][i] == lines[i];
        Err(e)
      case Ok(books) =>
        if |lines[k]| < FieldCount then Ok(books)
        else match MapRow(lines[k], today, categoryIds)
          case Err(e) => Err(e)
          case Ok(b) => Ok(books + [b])
  }

  /** The rows the filter keeps. */
  function LongLines(lines: seq<seq<string>>): (r: seq<seq<string>>)
    ensures forall k | 0 <= k < |r| :: |r[k]| >= FieldCount
    ensures forall k | 0 <= k < |lines| && |lines[k]| >= FieldCount :: lines[k] in r
  {
    if lines == [] then []
    else
      var k := |lines| - 1;
      LongLines(lines[..k]) + (if |lines[k]| >= FieldCount then [lines[k]] else [])
  }

  /** parse: one book appended per row that is long enough. */
  method Parse(lines: seq<seq<string>>, today: Date, categoryIds: set<int>)
    returns (r: Result<seq<Book>, ParseError>)
    ensures r == ParseBooks(lines, today, categoryIds)
  {
    var books: seq<Book> := [];
    for i := 0 to |lines|
      invariant ParseBooks(lines[..i], today, categoryIds) == Ok(books)
    {
      assert lines[..i + 1][..i] == lines[..i];
      if |lines[i]| >= FieldCount {
        var row := MapRow(lines[i], today, categoryIds);
        if row.Err? {
          ParseBooksErrorSticks(lines, i + 1, today, categoryIds);
          return Err(row.error);
        }
        books := books + [row.value];
      }
    }
    assert lines[..|lines|] == lines;
    return Ok(books);
  }

  // ---------------------------------------------------------------------------
  // Properties

  /** Once a prefix of the rows fails, the whole parse fails with the same error. */
  lemma {:induction false} ParseBooksErrorSticks(lines: seq<seq<string>>, n: nat, today: Date, categoryIds: set<int>)
    requires n <= |lines| && ParseBooks(lines[..n], today, categoryIds).Err?
    ensures ParseBooks(lines, today, categoryIds) == ParseBooks(lines[..n], today, categoryIds)
    decreases |lines| - n
  {
    if n < |lines| {
      assert lines[..n + 1][..n] == lines[..n];
      ParseBooksErrorSticks(lines, n + 1, today, categoryIds);
    } else {
      assert lines[..n] == lines;
    }
  }

  /** Every row maps to a book. */
  predicate AllMap(rows: seq<seq<string>>, today: Date, categoryIds: set<int>)
    requires forall k | 0 <= k < |rows| :: |rows[k]| >= FieldCount
  {
    forall k | 0 <= k < |rows| :: MapRow(rows[k], today, categoryIds).Ok?
  }

  /** The books are the rows' mappings, one for one and in order. */
  predicate MapsTo(rows: seq<seq<string>>, books: seq<Book>, today: Date, categoryIds: set<int>)
    requires forall k | 0 <= k < |rows| :: |rows[k]| >= FieldCount
  {
    |rows| == |books| && forall k | 0 <= k < |rows| :: MapRow(rows[k], today, categoryIds) == Ok(books[k])
  }

  /** The parse succeeds exactly when every row of 18 fields or more maps to a book. */
  lemma {:induction false} ParseBooksSucceeds(lines: seq<seq<string>>, today: Date, categoryIds: set<int>)
    ensures ParseBooks(lines, today, categoryIds).Ok? <==> AllMap(LongLines(lines), today, categoryIds)
  {
    if lines != [] {
      var k := |lines| - 1;
      var longPre := LongLines(lines[..k]);
      ParseBooksSucceeds(lines[..k], today, categoryIds);
      if |lines[k]| >= FieldCount {
        assert LongLines(lines) == longPre + [lines[k]];
        AllMapSnoc(longPre, lines[k], today, categoryIds);
      } else {
        assert LongLines(lines) == longPre;
      }
    }
  }

  /** A successful parse yields exactly one book per row of 18 fields or more, in row
      order, each the mapping of its row. */
  lemma {:induction false} ParseBooksRows(lines: seq<seq<string>>, today: Date, categoryIds: set<int>)
    requires ParseBooks(lines, today, categoryIds).Ok?
    ensures MapsTo(LongLines(lines), ParseBooks(lines, today, categoryIds).value, today, categoryIds)
  {
    if lines != [] {
      var k := |lines| - 1;
      var longPre := LongLines(lines[..k]);
      ParseBooksRows(lines[..k], today, categoryIds);
      var books := ParseBooks(lines[..k], today, categoryIds).value;
      if |lines[k]| >= FieldCount {
        var b := MapRow(lines[k], today, categoryIds).value;
        assert LongLines(lines) == longPre + [lines[k]];
        MapsToSnoc(longPre, books, lines[k], b, today, categoryIds);
      }
    }
  }

  lemma AllMapSnoc(rows: seq<seq<string>>, row: seq<string>, today: Date, categoryIds: set<int>)
    requires forall k | 0 <= k < |rows| :: |rows[k]| >= FieldCount
    requires |row| >= FieldCount
    ensures AllMap(rows + [row], today, categoryIds)
      <==> AllMap(rows, today, categoryIds) && MapRow(row, today, categoryIds).Ok?
  {
    var rs := rows + [row];
    assert rs[|rows|] == row;
    assert forall k | 0 <= k < |rows| :: rs[k] == rows[k];
  }

  lemma MapsToSnoc(rows: seq<seq<string>>, books: seq<Book>, row: seq<string>, b: Book,
                   today: Date, categoryIds: set<int>)
    requires forall k | 0 <= k < |rows| :: |rows[k]| >= FieldCount
    requires |row| >= FieldCount
    requires MapsTo(rows, books, today, categoryIds) && MapRow(row, today, categoryIds) == Ok(b)
    ensures MapsTo(rows + [row], books + [b], today, categoryIds)
  {
    var rs, bs := rows + [row], books + [b];
    forall k | 0 <= k < |rs| ensures MapRow(rs[k], today, categoryIds) == Ok(bs[k]) {
      if k < |rows| {
        assert rs[k] == rows[k] && bs[k] == books[k];
      }
    }
  }

  /** Rows with fewer than 18 fields add nothing. */
  lemma ShortRowsIgnored(lines: seq<seq<string>>, today: Date, categoryIds: set<int>)
    requires forall k | 0 <= k < |lines| :: |lines[k]| < FieldCount
    ensures ParseBooks(lines, today, categoryIds) == Ok([])
  {
    LongLinesNone(lines);
    ParseBooksSucceeds(lines, today, categoryIds);
    ParseBooksRows(lines, today, categoryIds);
  }

  /** The filter works row by row: filtering two runs of rows one after the other is
      filtering each and concatenating, so the kept rows stay in file order and each
      appears as often as it does in the file. */
  lemma {:induction false} LongLinesAppend(a: seq<seq<string>>, b: seq<seq<string>>)
    ensures LongLines(a + b) == LongLines(a) + LongLines(b)
    decreases |b|
  {
    if b == [] {
      assert a + b == a;
    } else {
      var k := |b| - 1;
      assert (a + b)[..|a + b| - 1] == a + b[..k];
      assert (a + b)[|a + b| - 1] == b[k];
      LongLinesAppend(a, b[..k]);
    }
  }

  /** The filter keeps only rows of the file: every kept row is one of its lines. */
  lemma {:induction false} LongLinesFromFile(lines: seq<seq<string>>)
    ensures forall k | 0 <= k < |LongLines(lines)| :: LongLines(lines)[k] in lines
  {
    if lines != [] {
      var k := |lines| - 1;
      LongLinesFromFile(lines[..k]);
      assert forall i | 0 <= i < k :: lines[..k][i] == lines[i];
      var pre := LongLines(lines[..k]);
      forall j | 0 <= j < |pre| ensures pre[j] in lines {
        var i :| 0 <= i < k && lines[..k][i] == pre[j];
      }
    }
  }

  lemma {:induction false} LongLinesNone(lines: seq<seq<string>>)
    requires forall k | 0 <= k < |lines| :: |lines[k]| < FieldCount
    ensures LongLines(lines) == []
  {
    if lines != [] {
      LongLinesNone(lines[..|lines| - 1]);
    }
  }

  /** An unparsable price ends the parse even when a later row is fine. */
  lemma BadPriceAbortsParse(lines: seq<seq<string>>, i: nat, today: Date, categoryIds: set<int>)
    requires i < |lines| && |lines[i]| >= FieldCount
    requires ParseBooks(lines[..i], today, categoryIds).Ok?
    requires PriceOf(Trim(lines[i][8])).Err?
    ensures ParseBooks(lines, today, categoryIds) == Err(PriceOf(Trim(lines[i][8])).error)
  {
    assert lines[..i + 1][..i] == lines[..i];
    ParseBooksErrorSticks(lines, i + 1, today, categoryIds);
  }

  /** A price written as digits, with or without a fraction, is read as its whole part;
      an empty field is 0. */
  lemma PriceOfDigits(n: nat, fraction: string)
    requires n <= MaxInt && AllDigits(fraction)
    ensures PriceOf(Digits(n)) == Ok(n)
    ensures PriceOf(Digits(n) + "." + fraction) == Ok(n)
  {
    TruncatedDecimalOfDigits(n);
    TruncatedDecimalOfFraction(Digits(n), fraction, Digits(n) + "." + fraction);
  }

  /** A classification code naming a stored category links the book to it. */
  lemma StoredCategoryLinked(n: nat, categoryIds: set<int>)
    requires n <= MaxLong && n in categoryIds
    ensures CategoryOf(Digits(n), categoryIds) == Ok([n])
  {
    TruncatedDecimalOfDigits(n);
    assert !IsTrimmable(Digits(n)[0]);
  }

  /** A classification code that is no stored category's id adds no link and no error. */
  lemma UnknownCategorySkipped(field: string, categoryIds: set<int>)
    requires !IsBlank(field) && ParseTruncatedDecimal(field).Some?
    requires Saturate(ParseTruncatedDecimal(field).value, MinLong, MaxLong) !in categoryIds
    ensures CategoryOf(field, categoryIds) == Ok([])
  {
  }
}
