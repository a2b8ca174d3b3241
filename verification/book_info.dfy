/**
 * Looking a book up by ISBN for registration: the Aladin lookup and its mapping to a
 * create request (AladinBookSearchStrategy), the Gemini enrichment of a thin request
 * (GeminiBookEnrichmentStrategy), and BookRegistrationService, which runs the same
 * lookup, mapping and enrichment in one pipeline.
 *
 * The HTTP calls and the JSON decoding are outside the model. The lookup's decoded
 * response and the Gemini call's outcome are parameters; so is `readTree`, the JSON
 * reader applied to the text the model wrote, which yields the two fields read from it.
 */
module BookInfo {
  import opened Wrappers
  import opened JavaText
  import opened Entities
  import opened Converters

  /** The message of the RuntimeException every failed lookup ends in. */
  const LookupFailedMessage := "도서 정보를 가져오는 중 오류가 발생했습니다."
  /** A description shorter than this (in UTF-16 units) calls for enrichment. */
  const ShortDescription := 50
  /** The code fence marker removed from the model's text. */
  const Fence := "```"

  /** BookCreateRequest. The text fields copied from the lookup are null when the
      response lacks them. */
  datatype CreateRequest = CreateRequest(
    isbn: Option<string>,
    bookName: Option<string>,
    bookDescription: Option<string>,
    bookPublisher: Option<string>,
    bookPublicationDate: Date,
    bookIndex: string,
    bookPackaging: bool,
    bookState: BookState,
    bookStock: int,
    bookRegularPrice: int,
    bookSalePrice: int,
    bookImage: Option<string>
  )

  /** AladinResponse.SubInfo: only the table of contents is read. */
  datatype SubInfo = SubInfo(toc: Option<string>)

  /** AladinResponse.Item. */
  datatype AladinItem = AladinItem(
    title: Option<string>,
    pubDate: Option<string>,
    description: Option<string>,
    isbn: Option<string>,
    priceStandard: int,
    cover: Option<string>,
    publisher: Option<string>,
    subInfo: Option<SubInfo>
  )

  /** The outcome of the lookup call: it threw, it returned no body, or it returned a
      response whose item list may be null. */
  datatype LookupReply = CallFailed | NoBody | Response(items: Option<seq<AladinItem>>)

  /** Why a lookup produces no request: the lookup failed (the RuntimeException with the
      fixed message), the publication date could not be parsed (LocalDate.parse throws,
      outside the try), or the enrichment check met a null description. */
  datatype SearchError = LookupFailed(message: string) | BadPublicationDate | NullDescription

  // ---------------------------------------------------------------------------
  // The lookup and its mapping

  /** fetchAladinData: the first item of a non-empty list; every other outcome becomes
      the one RuntimeException. */
  function FetchItem(reply: LookupReply): (r: Result<AladinItem, SearchError>)
    ensures r.Ok? <==> reply.Response? && reply.items.Some? && reply.items.value != []
    ensures r.Ok? ==> r.value == reply.items.value[0]
    ensures r.Err? ==> r.error == LookupFailed(LookupFailedMessage)
  {
    match reply
    case Response(Some(items)) =>
      if items == [] then Err(LookupFailed(LookupFailedMessage)) else Ok(items[0])
    case _ => Err(LookupFailed(LookupFailedMessage))
  }

  /** LocalDate.parse(s, ISO_DATE) on a date without an offset: yyyy-MM-dd, resolved
      strictly, so a day past the end of its month is an error (no clamping). */
  function IsoDate(s: string): (r: Option<Date>)
    ensures r.Some? ==> 1 <= r.value.month <= 12 && 1 <= r.value.day <= MonthLength(r.value.year, r.value.month)
  {
    if |s| == 10 && s[4] == '-' && s[7] == '-'
       && AllDigits(s[..4]) && AllDigits(s[5..7]) && AllDigits(s[8..])
    then
      var y, m, d := DigitsValue(s[..4]), DigitsValue(s[5..7]), DigitsValue(s[8..]);
      if 1 <= m <= 12 && 1 <= d <= MonthLength(y, m) then Some(Date(y, m, d)) else None
    else None
  }

  /** The index of a new request: the table of contents when the response has one,
      otherwise empty. */
  function IndexOf(item: AladinItem): string {
    if item.subInfo.Some? && item.subInfo.value.toc.Some? then item.subInfo.value.toc.value else ""
  }

  /** mapToDto: the item's text fields copied, the date parsed, the index from the table
      of contents, both prices the list price, no stock, gift wrapping on, on sale. */
  function MapToDto(item: AladinItem): (r: Result<CreateRequest, SearchError>)
    ensures r.Ok? <==> item.pubDate.Some? && IsoDate(item.pubDate.value).Some?
    ensures r.Err? ==> r.error == BadPublicationDate
    ensures r.Ok? ==>
      && r.value.isbn == item.isbn && r.value.bookName == item.title
      && r.value.bookDescription == item.description && r.value.bookPublisher == item.publisher
      && r.value.bookImage == item.cover
      && Some(r.value.bookPublicationDate) == IsoDate(item.pubDate.value)
      && r.value.bookRegularPrice == item.priceStandard == r.value.bookSalePrice
      && r.value.bookStock == 0 && r.value.bookPackaging && r.value.bookState == OnSale
      && (item.subInfo.Some? && item.subInfo.value.toc.Some? ==> r.value.bookIndex == item.subInfo.value.toc.value)
      && (item.subInfo.None? || item.subInfo.value.toc.None? ==> r.value.bookIndex == "")
  {
    match item.pubDate
    case None => Err(BadPublicationDate)
    case Some(text) =>
      match IsoDate(text)
      case None => Err(BadPublicationDate)
      case Some(date) =>
        Ok(CreateRequest(item.isbn, item.title, item.description, item.publisher, date,
                         IndexOf(item), true, OnSale, 0, item.priceStandard,
                         item.priceStandard, item.cover))
  }

  /** searchBook: fetch, then map. */
  function SearchBook(reply: LookupReply): (r: Result<CreateRequest, SearchError>)
    ensures FetchItem(reply).Err? ==> r == Err(LookupFailed(LookupFailedMessage))
    ensures FetchItem(reply).Ok? ==> r == MapToDto(FetchItem(reply).value)
  {
    match FetchItem(reply)
    case Err(e) => Err(e)
    case Ok(item) => MapToDto(item)
  }

  // ---------------------------------------------------------------------------
  // The enrichment

  /** isApplicable and needAiEnrichment: the index is empty or the description is short.
      None stands for the NullPointerException a null description raises once the
      index is not empty. */
  function IsApplicable(request: CreateRequest): (r: Option<bool>)
    ensures r == Some(true) <==>
      (request.bookIndex == ""
       || (request.bookDescription.Some? && Utf16Length(request.bookDescription.value) < ShortDescription))
    ensures r.None? <==> request.bookIndex != "" && request.bookDescription.None?
  {
    if request.bookIndex == "" then Some(true)
    else match request.bookDescription
      case None => None
      case Some(d) => Some(Utf16Length(d) < ShortDescription)
  }

  /** A field of the JSON object the model wrote, as JsonNode.path finds it. */
  datatype JsonField = Missing | NullNode | TextNode(text: string) | ValueNode(rendered: string) | ContainerNode

  /** The two fields read from the model's JSON. */
  datatype AiData = AiData(description: JsonField, index: JsonField)

  /** JsonNode.asText(default): the default for a missing or null field, the text of a
      text node, the printed value of a number or boolean, and "" for an object or array. */
  function AsText(f: JsonField, default: Option<string>): (r: Option<string>)
    ensures f.Missing? || f.NullNode? ==> r == default
    ensures f.TextNode? ==> r == Some(f.text)
    ensures default.Some? ==> r.Some?
  {
    match f
    case Missing => default
    case NullNode => default
    case TextNode(t) => Some(t)
    case ValueNode(t) => Some(t)
    case ContainerNode => Some("")
  }

  /** The text handed to the inner JSON reader: every "```json", then every "```",
      removed, and the result trimmed. No code fence marker is left, "```json"
      included, and the text has no leading or trailing whitespace. */
  function StripFences(t: string): (r: string)
    ensures !Contains(r, Fence) && Trimmed(r)
  {
    var removed := ReplaceLiteral(ReplaceLiteral(t, Fence + "json", ""), Fence, "");
    RemoveRunRemovesAll(ReplaceLiteral(t, Fence + "json", ""), Fence, '`');
    TrimIsSlice(removed);
    TrimProperties(removed);
    var r := Trim(removed);
    assert !Contains(r, Fence) by {
      if Contains(r, Fence) {
        var a, b :| 0 <= a <= b <= |removed| && r == removed[a..b];
        ContainsSlice(removed, a, b, Fence);
      }
    }
    r
  }

  /** The request after a successful merge: the model's description and index, each
      falling back to the original's when the model's JSON lacks it. */
  function Merge(original: CreateRequest, ai: AiData): (r: CreateRequest)
    ensures r.(bookDescription := original.bookDescription, bookIndex := original.bookIndex) == original
    ensures ai.description.Missing? ==> r.bookDescription == original.bookDescription
    ensures ai.index.Missing? ==> r.bookIndex == original.bookIndex
    ensures ai.description.NullNode? ==> r.bookDescription == original.bookDescription
    ensures ai.index.NullNode? ==> r.bookIndex == original.bookIndex
    ensures ai.description.TextNode? ==> r.bookDescription == Some(ai.description.text)
    ensures ai.index.TextNode? ==> r.bookIndex == ai.index.text
  {
    original.(bookDescription := AsText(ai.description, original.bookDescription),
              bookIndex := AsText(ai.index, Some(original.bookIndex)).value)
  }

  /** The outcome of the call to Gemini: it threw, or it returned a body. `text` is the
      text of candidates[0].content.parts[0] as asText gives it, or None when the body is
      not JSON or lacks that path (the exception applyGeminiResponse catches). */
  datatype GeminiReply = PostFailed | Posted(text: Option<string>)

  /** applyGeminiResponse: the merged request, or the original whenever reading fails. */
  function ApplyGeminiResponse(original: CreateRequest, text: Option<string>,
                               readTree: string -> Option<AiData>): (r: CreateRequest)
    ensures text.None? ==> r == original
    ensures text.Some? && readTree(StripFences(text.value)).None? ==> r == original
    ensures text.Some? && readTree(StripFences(text.value)).Some? ==>
      r == Merge(original, readTree(StripFences(text.value)).value)
  {
    match text
    case None => original
    case Some(t) =>
      match readTree(StripFences(t))
      case None => original
      case Some(ai) => Merge(original, ai)
  }

  /** enrich: never fails; on any failure the request comes back as it was, and at most
      its description and index change. */
  function Enrich(original: CreateRequest, reply: GeminiReply, readTree: string -> Option<AiData>)
    : (r: CreateRequest)
    ensures reply.PostFailed? ==> r == original
    ensures r.(bookDescription := original.bookDescription, bookIndex := original.bookIndex) == original
  {
    match reply
    case PostFailed => original
    case Posted(text) => ApplyGeminiResponse(original, text, readTree)
  }

  /** getBookInfoByIsbn: look up, map, and enrich when the request is thin. */
  function GetBookInfoByIsbn(lookup: LookupReply, gemini: GeminiReply, readTree: string -> Option<AiData>)
    : (r: Result<CreateRequest, SearchError>)
    ensures SearchBook(lookup).Err? ==> r == SearchBook(lookup)
    ensures SearchBook(lookup).Ok? && IsApplicable(SearchBook(lookup).value) == Some(false) ==>
      r == SearchBook(lookup)
    ensures SearchBook(lookup).Ok? && IsApplicable(SearchBook(lookup).value) == Some(true) ==>
      r == Ok(Enrich(SearchBook(lookup).value, gemini, readTree))
    ensures SearchBook(lookup).Ok? && IsApplicable(SearchBook(lookup).value).None? ==>
      r == Err(NullDescription)
    ensures r.Ok? ==>
      (SearchBook(lookup).Ok? &&
       r.value.(bookDescription := SearchBook(lookup).value.bookDescription,
                bookIndex := SearchBook(lookup).value.bookIndex) == SearchBook(lookup).value)
  {
    match SearchBook(lookup)
    case Err(e) => Err(e)
    case Ok(raw) =>
      match IsApplicable(raw)
      case None => Err(NullDescription)
      case Some(false) => Ok(raw)
      case Some(true) => Ok(Enrich(raw, gemini, readTree))
  }

  // ---------------------------------------------------------------------------
  // Properties

  /** Only the first item of the response is used; the rest are ignored. */
  lemma SearchUsesFirstItem(item: AladinItem, rest: seq<AladinItem>)
    ensures SearchBook(Response(Some([item] + rest))) == MapToDto(item)
  {
  }

  /** A date written yyyy-MM-dd is read back exactly when it is a calendar date. */
  lemma IsoDateRoundTrip(y: nat, m: nat, d: nat)
    requires y <= 9999 && 1 <= m <= 12 && 1 <= d <= MonthLength(y, m)
    ensures IsoDate(FormatDashed(y, m, d)) == Some(Date(y, m, d))
  {
    var s := FormatDashed(y, m, d);
    assert s[4] == '-' && s[7] == '-';
    assert s[..4] == Pad(y, 4) && s[5..7] == Pad(m, 2) && s[8..] == Pad(d, 2);
    PadValue(y, 4);
    PadValue(m, 2);
    PadValue(d, 2);
  }

  /** A day past the end of its month is rejected, where the CSV date converter would
      move it back to the month's last day. */
  lemma IsoDateRejectsOverflow(y: nat, m: nat, d: nat)
    requires y <= 9999 && 1 <= m <= 12 && MonthLength(y, m) < d <= 31
    ensures IsoDate(FormatDashed(y, m, d)) == None
    ensures y >= 1 ==> ConvertDate(Some(FormatDashed(y, m, d)), Date(1, 1, 1)) == Date(y, m, MonthLength(y, m))
  {
    var s := FormatDashed(y, m, d);
    assert s[4] == '-' && s[7] == '-';
    assert s[..4] == Pad(y, 4) && s[5..7] == Pad(m, 2) && s[8..] == Pad(d, 2);
    PadValue(y, 4);
    PadValue(m, 2);
    PadValue(d, 2);
    if y >= 1 {
      ConvertDashedDate(y, m, d, Date(1, 1, 1));
    }
  }

  /** A reply wrapped in a json code block, the way the model tends to answer, is
      unwrapped to its body. */
  lemma StripFencesOfBlock(body: string, t: string)
    requires '`' !in body && body != [] && Trimmed(body)
    requires t == Fence + "json" + "\n" + body + "\n" + Fence
    ensures StripFences(t) == body
  {
    var mid := "\n" + body + "\n";
    assert '`' !in mid;
    assert t == (Fence + "json") + (mid + Fence);
    assert StartsWith(t, Fence + "json");
    assert t[|Fence + "json"|..] == mid + Fence;
    var r1 := ReplaceLiteral(t, Fence + "json", "");
    assert r1 == "" + ReplaceLiteral(mid + Fence, Fence + "json", "");
    ReplaceLiteralSkip(mid, Fence, Fence + "json", "");
    assert ReplaceLiteral(Fence, Fence + "json", "") == Fence by {
      ReplaceLiteralAbsent(Fence, Fence + "json", "");
    }
    assert r1 == mid + Fence;
    ReplaceLiteralSkip(mid, Fence, Fence, "");
    assert StartsWith(Fence, Fence) && Fence[|Fence|..] == [];
    assert ReplaceLiteral(Fence, Fence, "") == [];
    assert ReplaceLiteral(r1, Fence, "") == mid;
    TrimOfNewlines(body);
  }

  /** Trimming a non-empty trimmed text between two newlines gives the text. */
  lemma TrimOfNewlines(body: string)
    requires body != [] && Trimmed(body)
    ensures Trim("\n" + body + "\n") == body
  {
    var s := "\n" + body + "\n";
    assert s[1..][0] == body[0];
    assert LeadingTrimmable(s) == 1;
    var t := s[1..];
    assert t == body + "\n";
    assert t[..|t| - 1][|t| - 2] == body[|body| - 1];
    assert TrailingTrimmable(t) == 1;
    assert t[..|t| - 1] == body;
  }

  /** Gemini's answer wrapped in a json code block, the form the fence stripping exists
      for, replaces the description and the index. */
  lemma EnrichAppliesAnswer(original: CreateRequest, body: string, t: string,
                            readTree: string -> Option<AiData>, d: string, i: string)
    requires '`' !in body && body != [] && Trimmed(body)
    requires t == Fence + "json" + "\n" + body + "\n" + Fence
    requires readTree(body) == Some(AiData(TextNode(d), TextNode(i)))
    ensures Enrich(original, Posted(Some(t)), readTree)
      == original.(bookDescription := Some(d), bookIndex := i)
  {
    StripFencesOfBlock(body, t);
  }

  /** A text with no backquote cannot hold a fence marker. */
  lemma NoBackquoteNoMarker(s: string, p: string)
    requires '`' !in s && p != [] && p[0] == '`'
    ensures !Contains(s, p)
  {
    forall i | 0 <= i <= |s| ensures !StartsWith(s[i..], p) {
      if i < |s| {
        assert s[i] in s;
      }
    }
  }

  /** Bare JSON, the form the prompt asks for, goes to the JSON reader unchanged. */
  lemma StripFencesOfBare(body: string)
    requires '`' !in body && Trimmed(body)
    ensures StripFences(body) == body
  {
    NoBackquoteNoMarker(body, Fence + "json");
    ReplaceLiteralAbsent(body, Fence + "json", "");
    NoBackquoteNoMarker(body, Fence);
    ReplaceLiteralAbsent(body, Fence, "");
    TrimProperties(body);
  }

  /** Gemini's answer as bare JSON, the form the prompt asks for, replaces the
      description and the index. */
  lemma EnrichAppliesBareAnswer(original: CreateRequest, t: string,
                                readTree: string -> Option<AiData>, d: string, i: string)
    requires '`' !in t && Trimmed(t)
    requires readTree(t) == Some(AiData(TextNode(d), TextNode(i)))
    ensures Enrich(original, Posted(Some(t)), readTree)
      == original.(bookDescription := Some(d), bookIndex := i)
  {
    StripFencesOfBare(t);
  }

  /** An answer that has neither key leaves the request as it was. */
  lemma MissingKeysKeepOriginal(original: CreateRequest, t: string, readTree: string -> Option<AiData>)
    requires readTree(StripFences(t)) == Some(AiData(Missing, Missing))
    ensures Enrich(original, Posted(Some(t)), readTree) == original
  {
  }

  /** A request with an index and a description of 50 units or more is returned as the
      lookup mapped it, whatever Gemini would say. */
  lemma FullRequestNotEnriched(lookup: LookupReply, gemini: GeminiReply, readTree: string -> Option<AiData>)
    requires SearchBook(lookup).Ok?
    requires SearchBook(lookup).value.bookIndex != ""
    requires SearchBook(lookup).value.bookDescription.Some?
    requires Utf16Length(SearchBook(lookup).value.bookDescription.value) >= ShortDescription
    ensures GetBookInfoByIsbn(lookup, gemini, readTree) == SearchBook(lookup)
  {
  }

  /** When Gemini cannot be reached, or its answer cannot be read, registration falls
      back to the mapped request. */
  lemma EnrichmentFailureFallsBack(lookup: LookupReply, gemini: GeminiReply, readTree: string -> Option<AiData>)
    requires SearchBook(lookup).Ok? && IsApplicable(SearchBook(lookup).value).Some?
    requires gemini.PostFailed? || gemini.text.None? || readTree(StripFences(gemini.text.value)).None?
    ensures GetBookInfoByIsbn(lookup, gemini, readTree) == SearchBook(lookup)
  {
  }

  /** Without an item to use, registration fails with the lookup error and does not
      call Gemini at all: the outcome is the same whatever Gemini would answer. */
  lemma LookupFailureHasNoFallback(lookup: LookupReply, gemini: GeminiReply, other: GeminiReply,
                                   readTree: string -> Option<AiData>)
    requires FetchItem(lookup).Err?
    ensures GetBookInfoByIsbn(lookup, gemini, readTree) == Err(LookupFailed(LookupFailedMessage))
    ensures GetBookInfoByIsbn(lookup, gemini, readTree) == GetBookInfoByIsbn(lookup, other, readTree)
  {
  }
}
