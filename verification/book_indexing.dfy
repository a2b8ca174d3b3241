/**
 * The table-of-contents enrichment of BookIndexServiceImpl and of the older
 * BookIndexService: select the books without an index, look each one up, and write
 * the cleaned table of contents, or a fixed placeholder when the lookup confirms there
 * is none. The HTTP call and the JSON parse are replaced by what they produced.
 */
module BookIndexing {
  import opened Wrappers
  import opened JavaText
  import opened Entities
  import opened BookRepository
  import opened TocSanitizer

  /** Written when the lookup succeeds but has no usable table of contents, so that the
      book is not selected again. */
  const NoIndexPlaceholder: string := "목차 정보 없음"

  /** The message the older service wraps a parse or extraction failure in. */
  const ExtractionFailedMessage: string := "JSON 파싱 및 목차 추출 실패"

  /** A JSON field reached through `path(..)`: absent, JSON null, or a string. */
  datatype JsonField = Missing | JsonNull | Text(text: string)

  /** Jackson's asText(): "" for a missing node, "null" for a null node. */
  function AsText(f: JsonField): string {
    match f
    case Missing => ""
    case JsonNull => "null"
    case Text(t) => t
  }

  /** `root.path("item")`: anything but an array, or an array given by the
      `bookinfo.toc` field of each element. */
  datatype ItemNode = NotArray | ItemArray(tocs: seq<JsonField>)

  /** What the lookup call produced: the HTTP exchange failed, the body did not parse
      as JSON (a null body included), or the parsed item node. */
  datatype AladinReply = TransportFailure | Unparsable | Parsed(item: ItemNode)

  /** What `fetchTableOfContents` throws. */
  datatype FetchError = TransportError | JsonError | ExtractionFailed(message: string)

  /** The raw table of contents of the first item, when there is one that is neither
      blank nor ".". */
  function UsableToc(item: ItemNode): (r: Option<string>)
    ensures r.Some? ==> !IsBlank(r.value) && r.value != "." && item.ItemArray? && |item.tocs| > 0
    ensures item.ItemArray? && |item.tocs| > 0 && !IsBlank(AsText(item.tocs[0])) && AsText(item.tocs[0]) != "."
      ==> r == Some(AsText(item.tocs[0]))
  {
    if item.ItemArray? && |item.tocs| > 0 then
      var toc := AsText(item.tocs[0]);
      if !IsBlank(toc) && toc != "." then Some(toc) else None
    else None
  }

  /** fetchTableOfContents of BookIndexServiceImpl: every failure is thrown to the
      caller; a usable toc comes back cleaned, anything else as null. */
  function FetchToc(reply: AladinReply): (r: Result<Option<string>, FetchError>)
    ensures r.Ok? <==> reply.Parsed?
    ensures r.Ok? ==> (r.value.Some? <==> UsableToc(reply.item).Some?)
    ensures r.Ok? && r.value.Some? ==> Clean(r.value.value) && !Contains(r.value.value, NbspEntity)
  {
    match reply
    case TransportFailure => Err(TransportError)
    case Unparsable => Err(JsonError)
    case Parsed(item) =>
      match UsableToc(item)
      case None => Ok(None)
      case Some(raw) =>
        Ok(Some(CleanToc(raw)))
  }

  /** fetchTableOfContents of the older BookIndexService: a transport failure escapes
      as it is, a parse failure is wrapped in a RuntimeException with a fixed message,
      and the toc is cleaned without the "&nbsp;" step. */
  function FetchTocLegacy(reply: AladinReply): (r: Result<Option<string>, FetchError>)
    ensures r.Ok? <==> reply.Parsed?
    ensures reply == Unparsable ==> r == Err(ExtractionFailed(ExtractionFailedMessage))
    ensures r.Ok? ==> (r.value.Some? <==> UsableToc(reply.item).Some?)
    ensures r.Ok? && r.value.Some? ==> Clean(r.value.value)
  {
    match reply
    case TransportFailure => Err(TransportError)
    case Unparsable => Err(ExtractionFailed(ExtractionFailedMessage))
    case Parsed(item) =>
      match UsableToc(item)
      case None => Ok(None)
      case Some(raw) =>
        Ok(Some(CleanTocLegacy(raw)))
  }

  /** The two versions fetch the same thing from every reply whose toc holds no '&';
      they differ only in what they throw. */
  lemma FetchVersionsAgree(reply: AladinReply)
    requires reply.Parsed? && (UsableToc(reply.item).Some? ==> '&' !in UsableToc(reply.item).value)
    ensures FetchToc(reply) == FetchTocLegacy(reply)
  {
    if UsableToc(reply.item).Some? {
      CleanTocVersionsAgree(UsableToc(reply.item).value);
    }
  }

  /** getTableOfContentsByIsbn of BookIndexServiceImpl: never throws; null when the
      lookup fails or finds nothing usable. (The older version is FetchTocLegacy itself:
      it lets every failure through.) */
  function TableOfContentsByIsbn(reply: AladinReply): (r: Option<string>)
    ensures r.Some? <==> reply.Parsed? && UsableToc(reply.item).Some?
    ensures r.Some? ==> Clean(r.value) && r.value == CleanToc(UsableToc(reply.item).value)
  {
    match FetchToc(reply)
    case Ok(toc) => toc
    case Err(_) => None
  }

  /** The lookup outcome the chosen version sees. */
  function Outcome(reply: AladinReply, legacy: bool): Result<Option<string>, FetchError> {
    if legacy then FetchTocLegacy(reply) else FetchToc(reply)
  }

  /** Whether the outcome makes the batch write the fetched toc (and count an update). */
  predicate WritesToc(fetched: Result<Option<string>, FetchError>) {
    fetched.Ok? && fetched.value.Some? && !IsBlank(fetched.value.value)
  }

  /** What one loop iteration does to a candidate: a failed lookup leaves it alone, a
      usable toc is written, anything else writes the placeholder. */
  function Augmented(b: Book, fetched: Result<Option<string>, FetchError>): (r: Book)
    ensures fetched.Err? ==> r == b
    ensures fetched.Ok? ==> r == b.(index := r.index) && r.index.Some? && r.index.value != ""
    ensures WritesToc(fetched) ==> r.index == fetched.value
    ensures fetched.Ok? && !WritesToc(fetched) ==> r.index == Some(NoIndexPlaceholder)
  {
    match fetched
    case Err(_) => b
    case Ok(toc) =>
      if toc.Some? && !IsBlank(toc.value) then b.(index := toc) else b.(index := Some(NoIndexPlaceholder))
  }

  /** The placeholder is a clean, non-empty index: a book holding it, whatever its
      other columns, is not selected again. */
  lemma PlaceholderIsClean()
    ensures Clean(NoIndexPlaceholder) && NoIndexPlaceholder != []
    ensures forall b: Book :: !IsAugmentationCandidate(b.(index := Some(NoIndexPlaceholder)))
  {
    AbsentHead(NoIndexPlaceholder, "\n\n");
  }

  /** The lookup as the batch loop sees it: a book's ISBN to the fetched toc or the
      failure the loop catches. */
  type Fetch = string -> Result<Option<string>, FetchError>

  /** The lookup of the chosen version. */
  function Fetcher(lookup: string -> AladinReply, legacy: bool): (f: Fetch)
    ensures forall isbn :: f(isbn) == Outcome(lookup(isbn), legacy)
  {
    isbn => Outcome(lookup(isbn), legacy)
  }

  /** The table after the batch has run over the candidate positions `cands`. */
  function BatchRows(rows: seq<Book>, cands: seq<nat>, fetch: Fetch): (r: seq<Book>)
    ensures |r| == |rows|
    ensures forall i | 0 <= i < |rows| :: r[i] == rows[i].(index := r[i].index)
    ensures forall i | 0 <= i < |rows| && i !in cands :: r[i] == rows[i]
  {
    seq(|rows|, i requires 0 <= i < |rows| =>
      if i in cands then Augmented(rows[i], fetch(rows[i].isbn)) else rows[i])
  }

  /** Non-candidates and candidates whose lookup failed keep their row; every other
      candidate gets a clean non-empty index, stops being a candidate, and keeps the rest
      of its columns. */
  lemma BatchRowsSpec(rows: seq<Book>, cands: seq<nat>, lookup: string -> AladinReply, legacy: bool)
    ensures var r := BatchRows(rows, cands, Fetcher(lookup, legacy));
      && (forall i | 0 <= i < |rows| && i !in cands :: r[i] == rows[i])
      && (forall i | 0 <= i < |rows| && i in cands && Outcome(lookup(rows[i].isbn), legacy).Err? :: r[i] == rows[i])
      && (forall i | 0 <= i < |rows| && i in cands && Outcome(lookup(rows[i].isbn), legacy).Ok? ::
            !IsAugmentationCandidate(r[i]) && Clean(r[i].index.value) && r[i] == rows[i].(index := r[i].index))
  {
    PlaceholderIsClean();
  }

  lemma BatchRowsStep(rows: seq<Book>, cands: seq<nat>, p: nat, fetch: Fetch)
    requires p < |rows| && p !in cands
    ensures BatchRows(rows, cands + [p], fetch)
      == BatchRows(rows, cands, fetch)[p := Augmented(rows[p], fetch(rows[p].isbn))]
  {
  }

  /** The number of candidates whose index the batch sets to a fetched toc. */
  function UpdatedCount(rows: seq<Book>, cands: seq<nat>, fetch: Fetch): (n: nat)
    requires forall k | 0 <= k < |cands| :: cands[k] < |rows|
    ensures n <= |cands|
  {
    if cands == [] then 0
    else
      var p := cands[|cands| - 1];
      UpdatedCount(rows, cands[..|cands| - 1], fetch)
        + (if WritesToc(fetch(rows[p].isbn)) then 1 else 0)
  }

  lemma UpdatedCountStep(rows: seq<Book>, cands: seq<nat>, p: nat, fetch: Fetch)
    requires p < |rows| && forall k | 0 <= k < |cands| :: cands[k] < |rows|
    ensures UpdatedCount(rows, cands + [p], fetch)
      == UpdatedCount(rows, cands, fetch) + (if WritesToc(fetch(rows[p].isbn)) then 1 else 0)
  {
    assert (cands + [p])[..|cands|] == cands;
  }

  /** The body of the loop for one candidate: look its toc up and write what
      Augmented says; `wrote` is whether a fetched toc was written. */
  method AugmentAt(table: BookTable, p: nat, fetch: Fetch)
    returns (wrote: bool)
    requires p < |table.rows|
    modifies table
    ensures var fetched := fetch(old(table.rows)[p].isbn);
      && table.rows == old(table.rows)[p := Augmented(old(table.rows)[p], fetched)]
      && wrote == WritesToc(fetched)
  {
    var book := table.rows[p];
    var fetched := fetch(book.isbn);
    wrote := false;
    if fetched.Ok? {
      if fetched.value.Some? && !IsBlank(fetched.value.value) {
        table.rows := table.rows[p := book.(index := fetched.value)];
        wrote := true;
      } else {
        table.rows := table.rows[p := book.(index := Some(NoIndexPlaceholder))];
      }
    }
  }

  /** The candidate the loop takes next is new, and the positions done so far stay in
      range. */
  lemma NextCandidate(cands: seq<nat>, k: nat, n: nat)
    requires Increasing(cands) && forall j | 0 <= j < |cands| :: cands[j] < n
    requires k < |cands|
    ensures cands[k] !in cands[..k] && cands[..k + 1] == cands[..k] + [cands[k]]
    ensures forall j | 0 <= j < k :: cands[..k][j] < n
  {
    forall j | 0 <= j < k ensures cands[..k][j] != cands[k] {
      assert cands[..k][j] == cands[j] < cands[k];
    }
  }

  /** The loop both versions share: one lookup per candidate, in order, each failure
      caught and skipped. Returns the count the services log. */
  method RunBatch(table: BookTable, cands: seq<nat>, fetch: Fetch)
    returns (updated: nat)
    requires Increasing(cands) && forall k | 0 <= k < |cands| :: cands[k] < |table.rows|
    modifies table
    ensures table.rows == BatchRows(old(table.rows), cands, fetch)
    ensures updated == UpdatedCount(old(table.rows), cands, fetch)
  {
    ghost var rows0 := table.rows;
    var k := 0;
    updated := 0;
    assert cands[..0] == [];
    while k < |cands|
      invariant 0 <= k <= |cands|
      invariant table.rows == BatchRows(rows0, cands[..k], fetch)
      invariant updated == UpdatedCount(rows0, cands[..k], fetch)
    {
      var p := cands[k];
      ghost var done := cands[..k];
      NextCandidate(cands, k, |rows0|);
      assert table.rows[p] == rows0[p];
      var wrote := AugmentAt(table, p, fetch);
      if wrote {
        updated := updated + 1;
      }
      BatchRowsStep(rows0, done, p, fetch);
      UpdatedCountStep(rows0, done, p, fetch);
      k := k + 1;
    }
    assert cands[..k] == cands;
  }

  /** The number of candidates and the table after augmentBookIndexBatch of
      BookIndexServiceImpl. */
  function BatchOutcome(rows: seq<Book>, page: Pageable, lookup: string -> AladinReply): (r: (nat, seq<Book>))
    ensures |r.1| == |rows|
    ensures forall i | 0 <= i < |rows| :: r.1[i] == rows[i].(index := r.1[i].index)
    ensures forall i | 0 <= i < |rows| && !IsAugmentationCandidate(rows[i]) :: r.1[i] == rows[i]
    ensures r.0 == |FindAugmentationCandidates(rows, page)|
    ensures r.0 == 0 ==> r.1 == rows
  {
    var cands := FindAugmentationCandidates(rows, page);
    var after := BatchRows(rows, cands, Fetcher(lookup, false));
    assert cands == [] ==> after == rows;
    (|cands|, after)
  }

  /** The older augmentBookIndexBatch: the same loop, but the closing log line asks an
      unpaged request for its page number, which throws after the loop; the exception
      leaves the transaction and every write of the batch is rolled back. */
  function BatchOutcomeLegacy(rows: seq<Book>, page: Pageable, lookup: string -> AladinReply)
    : (r: (Result<nat, string>, seq<Book>))
    ensures r.0.Err? <==> page == Unpaged && FindAugmentationCandidates(rows, page) != []
    ensures r.0.Err? ==> r.0.error == UnpagedPageNumber && r.1 == rows
    ensures r.0.Ok? ==> r.0.value == |FindAugmentationCandidates(rows, page)|
    ensures |r.1| == |rows|
    ensures forall i | 0 <= i < |rows| :: r.1[i] == rows[i].(index := r.1[i].index)
    ensures forall i | 0 <= i < |rows| && !IsAugmentationCandidate(rows[i]) :: r.1[i] == rows[i]
  {
    var cands := FindAugmentationCandidates(rows, page);
    if cands == [] then (Ok(0), rows)
    else if page == Unpaged then (Err(UnpagedPageNumber), rows)
    else (Ok(|cands|), BatchRows(rows, cands, Fetcher(lookup, true)))
  }

  /** What `Pageable.unpaged().getPageNumber()` throws. */
  const UnpagedPageNumber: string := "UnsupportedOperationException"

  /** augmentBookIndexBatch of BookIndexServiceImpl: returns the number of candidates
      considered, whatever their lookups did. */
  method AugmentBookIndexBatch(table: BookTable, page: Pageable, lookup: string -> AladinReply)
    returns (considered: nat, updated: nat)
    modifies table
    ensures (considered, table.rows) == BatchOutcome(old(table.rows), page, lookup)
    ensures updated <= considered
  {
    var cands := FindAugmentationCandidates(table.rows, page);
    if |cands| == 0 {
      assert table.rows == BatchRows(table.rows, cands, Fetcher(lookup, false));
      return 0, 0;
    }
    assert forall k | 0 <= k < |cands| :: cands[k] in cands;
    updated := RunBatch(table, cands, Fetcher(lookup, false));
    considered := |cands|;
  }

  /** augmentBookIndexBatch of the older BookIndexService. */
  method AugmentBookIndexBatchLegacy(table: BookTable, page: Pageable, lookup: string -> AladinReply)
    returns (r: Result<nat, string>, updated: nat)
    modifies table
    ensures (r, table.rows) == BatchOutcomeLegacy(old(table.rows), page, lookup)
  {
    var cands := FindAugmentationCandidates(table.rows, page);
    if |cands| == 0 {
      return Ok(0), 0;
    }
    var before := table.rows;
    assert forall k | 0 <= k < |cands| :: cands[k] in cands;
    updated := RunBatch(table, cands, Fetcher(lookup, true));
    if page == Unpaged {
      table.rows := before;
      return Err(UnpagedPageNumber), updated;
    }
    r := Ok(|cands|);
  }

  // ---------------------------------------------------------------------------
  // Properties of the batch

  /** With no candidate the batch reports 0 and changes nothing. */
  lemma NoCandidatesNoWork(rows: seq<Book>, page: Pageable, lookup: string -> AladinReply)
    requires FindAugmentationCandidates(rows, page) == []
    ensures BatchOutcome(rows, page, lookup) == (0, rows)
    ensures BatchOutcomeLegacy(rows, page, lookup) == (Ok(0), rows)
  {
    assert BatchRows(rows, [], Fetcher(lookup, false)) == rows;
  }

  /** Progress: after an unpaged run, a book is still a candidate only if its own
      lookup failed. Together with the query this is why the batch terminates when
      repeated with lookups that eventually succeed. */
  lemma BatchProgress(rows: seq<Book>, lookup: string -> AladinReply, i: nat)
    requires i < |rows|
    ensures var (_, after) := BatchOutcome(rows, Unpaged, lookup);
      IsAugmentationCandidate(after[i]) <==> IsAugmentationCandidate(rows[i]) && FetchToc(lookup(rows[i].isbn)).Err?
  {
    var cands := FindAugmentationCandidates(rows, Unpaged);
    BatchRowsSpec(rows, cands, lookup, false);
    if IsAugmentationCandidate(rows[i]) {
      assert i in cands;
    }
  }

  /** On a page, when no usable toc a lookup returns holds a '&' (the only thing the two
      cleanings treat differently), the older batch does exactly what the newer one does:
      a failed lookup, whichever exception it throws, leaves the row alone in both. */
  lemma PagedVersionsAgree(rows: seq<Book>, n: nat, size: PageSize, lookup: string -> AladinReply)
    requires forall i | 0 <= i < |rows| :: (lookup(rows[i].isbn).Parsed?
      ==> (UsableToc(lookup(rows[i].isbn).item).Some? ==> '&' !in UsableToc(lookup(rows[i].isbn).item).value))
    ensures var (count, after) := BatchOutcome(rows, PageRequest(n, size), lookup);
      BatchOutcomeLegacy(rows, PageRequest(n, size), lookup) == (Ok(count), after)
  {
    var cands := FindAugmentationCandidates(rows, PageRequest(n, size));
    forall i | 0 <= i < |rows|
      ensures Augmented(rows[i], Outcome(lookup(rows[i].isbn), true))
           == Augmented(rows[i], Outcome(lookup(rows[i].isbn), false))
    {
      if lookup(rows[i].isbn).Parsed? {
        FetchVersionsAgree(lookup(rows[i].isbn));
      }
    }
    assert BatchRows(rows, cands, Fetcher(lookup, true)) == BatchRows(rows, cands, Fetcher(lookup, false));
    if cands == [] {
      assert BatchRows(rows, cands, Fetcher(lookup, false)) == rows;
    }
  }

  /** The older batch, asked for every candidate at once, throws after doing the work
      and the rollback discards it; the newer batch keeps the work. */
  lemma UnpagedLegacyDiscardsWork(rows: seq<Book>, lookup: string -> AladinReply, i: nat)
    requires i < |rows| && IsAugmentationCandidate(rows[i]) && lookup(rows[i].isbn).Parsed?
    ensures BatchOutcomeLegacy(rows, Unpaged, lookup) == (Err(UnpagedPageNumber), rows)
    ensures var (count, after) := BatchOutcome(rows, Unpaged, lookup);
      count >= 1 && !IsAugmentationCandidate(after[i])
  {
    var cands := FindAugmentationCandidates(rows, Unpaged);
    BatchRowsSpec(rows, cands, lookup, false);
    assert i in cands;
  }
}
