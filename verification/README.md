# Book service core, modelled in Dafny

This project models the core of a Spring book service (an online bookstore's
book catalogue) and proves properties of it:

- the table-of-contents enrichment batch, in its current and its older version, and
  the HTML clean-up it applies to every fetched table of contents (`TocSanitizer`,
  `BookIndexing`);
- the book repository's queries and bulk updates (`BookRepository`);
- the relocation of book images to object storage, with its file table and its
  success and failure tally (`ImageMigration`, `FileStore`, `Minio`);
- the CSV import: categories with their parent links, book rows, the date and price
  converters, and the start-up loader that fills an empty table (`CategoryParser`,
  `BookParser`, `Converters`, `CsvParser`);
- the lookup of a book by ISBN for registration, with its AI enrichment of thin
  requests (`BookInfo`);
- the wishlist toggle and the review service with its rating recomputation
  (`Wishlists`, `Reviews`).

Tables the services change in place are classes whose `seq` fields the methods
reassign (`BookTable`, `FileTable`, `WishlistTable`, `ReviewTable`). Each method is
proved equal to a function of the old state, and the properties are lemmas about
those functions. The in-place default-filling loop of the CSV loader works on an
`array`. Pure rewrites and mappings are functions. `Entities` holds one `Book`
record with every field the services use (the files disagree about the entity).
`JavaText` and `JavaNumbers` state the Java library behaviour the code relies on:
`trim`, `isBlank`, `split`, `replace`, `parseInt`, `parseLong`, truncating casts and
division that rounds toward zero.

Network calls, the clock, UUIDs, JSON decoding and CSV tokenising are parameters:

- the Aladin lookup reply;
- the Gemini reply and the JSON reader applied to its text (`readTree`);
- the MinIO and HTTP outcomes;
- today's date and the current time;
- the generated UUID and the ids the database hands out;
- the tokenised CSV rows and the result of OpenCSV's binding.

## Model

| member | source | states |
|---|---|---|
| TocSanitizer.BreakTagLength | src/main/java/com/nhnacademy/book/service/impl/BookIndexServiceImpl.java:120 | a match of `(?i)<br\s*/?>` is at least four chars long and runs from a `<` to a `>` |
| TocSanitizer.ReplaceNbsp | src/main/java/com/nhnacademy/book/service/impl/BookIndexServiceImpl.java:126 | every U+00A0 becomes a space and nothing else changes |
| TocSanitizer.StripTagsTagFree | src/main/java/com/nhnacademy/book/service/impl/BookIndexServiceImpl.java:123 | after `<[^>]*>` is removed, no `<` is followed anywhere by a `>` |
| TocSanitizer.CollapseNewlinesNoDouble | src/main/java/com/nhnacademy/book/service/impl/BookIndexServiceImpl.java:132 | after `\n+` is collapsed, no two newlines are adjacent |
| TocSanitizer.CleanToc | src/main/java/com/nhnacademy/book/service/impl/BookIndexServiceImpl.java:116-135 | the cleaned table of contents has no tag (so no `<br>`), no U+00A0, no "&nbsp;", no two adjacent newlines, and no leading or trailing char that trim removes |
| TocSanitizer.CleanIsFixedPoint | src/main/java/com/nhnacademy/book/service/impl/BookIndexServiceImpl.java:116-135 | a text that already has that shape passes through every step unchanged |
| TocSanitizer.CleanTocIdempotent | src/main/java/com/nhnacademy/book/service/impl/BookIndexServiceImpl.java:116-135 | cleaning a cleaned table of contents changes nothing |
| TocSanitizer.CleanTocBreakAndBold | src/main/java/com/nhnacademy/book/service/impl/BookIndexServiceImpl.java:120-123 | plain text around `<br>` and a `<b>…</b>` pair: the break becomes one newline and the bold tags vanish |
| TocSanitizer.CleanTocSample | src/main/java/com/nhnacademy/book/service/impl/BookIndexServiceImpl.java:116-135 | "1. 서론<br>2. 본론<b>중요</b>" is cleaned to "1. 서론\n2. 본론중요" |
| TocSanitizer.CleanTocEntity | src/main/java/com/nhnacademy/book/service/impl/BookIndexServiceImpl.java:129 | an "&nbsp;" between plain texts becomes a single space |
| TocSanitizer.CleanTocEntitySample | src/main/java/com/nhnacademy/book/service/impl/BookIndexServiceImpl.java:129 | "Chapter 1.&nbsp;Start" is cleaned to "Chapter 1. Start" |
| TocSanitizer.CleanTocLegacy | src/main/java/com/nhnacademy/book/service/BookIndexService.java:107-124 | the older cleanToc gives the same shape, except that "&nbsp;" is not removed |
| TocSanitizer.CleanTocLegacyIdempotent | src/main/java/com/nhnacademy/book/service/BookIndexService.java:107-124 | the older cleanToc is idempotent too |
| TocSanitizer.CleanTocVersionsAgree | src/main/java/com/nhnacademy/book/service/BookIndexService.java:107-124 | on a raw text without `&` the two versions give the same result |
| TocSanitizer.CleanTocLegacyKeepsEntity | src/main/java/com/nhnacademy/book/service/BookIndexService.java:117-118 | the older version leaves "&nbsp;" between plain texts in place |
| BookIndexing.UsableToc | src/main/java/com/nhnacademy/book/service/impl/BookIndexServiceImpl.java:104-111 | the toc is used only when the item array is non-empty and the first toc is neither blank nor "." |
| BookIndexing.FetchToc | src/main/java/com/nhnacademy/book/service/impl/BookIndexServiceImpl.java:89-114 | every failure is thrown; a parsed reply gives the cleaned toc exactly when it has a usable one, else null |
| BookIndexing.FetchTocLegacy | src/main/java/com/nhnacademy/book/service/BookIndexService.java:69-101 | a transport failure escapes as is, a parse failure becomes the RuntimeException "JSON 파싱 및 목차 추출 실패", and a usable toc is cleaned |
| BookIndexing.FetchVersionsAgree | src/main/java/com/nhnacademy/book/service/BookIndexService.java:83-100 | on a parsed reply whose toc has no `&` both versions fetch the same value |
| BookIndexing.TableOfContentsByIsbn | src/main/java/com/nhnacademy/book/service/impl/BookIndexServiceImpl.java:78-86 | never throws; null exactly when the lookup fails or has no usable toc, else the cleaned toc |
| BookIndexing.Augmented | src/main/java/com/nhnacademy/book/service/impl/BookIndexServiceImpl.java:49-68 | a failed lookup leaves the book as it was; a non-blank toc is written; anything else writes "목차 정보 없음"; only the index changes |
| BookIndexing.PlaceholderIsClean | src/main/java/com/nhnacademy/book/service/impl/BookIndexServiceImpl.java:60 | the placeholder is non-empty, so a book holding it is not selected again |
| BookIndexing.BatchRows | src/main/java/com/nhnacademy/book/service/impl/BookIndexServiceImpl.java:48-69 | the batch over a list of candidates keeps the table length, changes only the index column, and leaves every row off the list as it was |
| BookIndexing.BatchRowsSpec | src/main/java/com/nhnacademy/book/service/impl/BookIndexServiceImpl.java:48-69 | non-candidates and failed lookups keep their row; every other candidate gets a clean non-empty index and nothing else changes |
| BookIndexing.UpdatedCount | src/main/java/com/nhnacademy/book/service/impl/BookIndexServiceImpl.java:47-57 | the logged count is at most the number of candidates |
| BookIndexing.RunBatch | src/main/java/com/nhnacademy/book/service/impl/BookIndexServiceImpl.java:47-69 | the loop leaves the table as BatchRows says and counts the written tocs |
| BookIndexing.Fetcher | src/main/java/com/nhnacademy/book/service/impl/BookIndexServiceImpl.java:51 | the loop sees, for every ISBN, exactly what the chosen version of fetchTableOfContents produces |
| BookIndexing.AugmentAt | src/main/java/com/nhnacademy/book/service/impl/BookIndexServiceImpl.java:48-67 | one candidate: a failed lookup leaves its row, a usable toc is written and counted, anything else writes the placeholder; no other row changes |
| BookIndexing.BatchOutcome | src/main/java/com/nhnacademy/book/service/impl/BookIndexServiceImpl.java:39-76 | the count returned is the number of candidates the query selects, whatever their lookups did; the table keeps its length, only indexes change, and only on selected books; with no candidate nothing changes |
| BookIndexing.BatchOutcomeLegacy | src/main/java/com/nhnacademy/book/service/BookIndexService.java:32-67 | the older batch throws exactly on an unpaged request with work to do, and then the table is rolled back; otherwise it returns the number of candidates selected and only the indexes of selected books change |
| BookIndexing.AugmentBookIndexBatch | src/main/java/com/nhnacademy/book/service/impl/BookIndexServiceImpl.java:39-76 | the batch returns the number of candidates the query selected, whatever their lookups did, and leaves the table as BatchOutcome says; the books updated are at most those considered |
| BookIndexing.AugmentBookIndexBatchLegacy | src/main/java/com/nhnacademy/book/service/BookIndexService.java:32-67 | the older batch leaves the table and returns the count as BatchOutcomeLegacy says, including its throw and rollback on an unpaged request with work to do |
| BookIndexing.NoCandidatesNoWork | src/main/java/com/nhnacademy/book/service/impl/BookIndexServiceImpl.java:41-45 | with no candidate both versions return 0 and change nothing |
| BookIndexing.BatchProgress | src/main/java/com/nhnacademy/book/service/impl/BookIndexServiceImpl.java:54-68 | after an unpaged run a book is still a candidate exactly when it was one and its own lookup failed |
| BookIndexing.PagedVersionsAgree | src/main/java/com/nhnacademy/book/service/BookIndexService.java:33-66 | on a paged request, when no usable toc holds a '&', the older batch reports the same count and leaves the same table as the newer one, failed lookups (transport or parse) included |
| BookIndexing.UnpagedLegacyDiscardsWork | src/main/java/com/nhnacademy/book/service/BookIndexService.java:65-66 | the older batch on an unpaged request throws after the loop and the rollback discards its work |
| BookRepository.PageOf | src/main/java/com/nhnacademy/book/repository/BookRepository.java:24 | page n of size z is the window of the result at offset n·z: its k-th element is the result's (n·z + k)-th, and it holds z elements, or the rest when fewer remain, or none past the end; an unpaged request is the whole result |
| BookRepository.FindAugmentationCandidates | src/main/java/com/nhnacademy/book/repository/BookRepository.java:22-24 | a page of the books whose index is null or "": unpaged, every one of them, in table order; paged, the page PageOf cuts from the list of all their positions; only such books are ever selected; the default image plays no role |
| BookRepository.PagesTile | src/main/java/com/nhnacademy/book/repository/BookRepository.java:24 | page n + 1 starts where page n ends: the two pages together are the contiguous window from offset n·z to (n+2)·z |
| BookRepository.PageHolds | src/main/java/com/nhnacademy/book/repository/BookRepository.java:24 | every element of the result is on a page: the i-th at offset i mod z of page i div z |
| BookRepository.PositionsWhereUnique | src/main/java/com/nhnacademy/book/repository/BookRepository.java:22-23 | the candidate positions in table order, each once, are the only increasing list of exactly those positions |
| BookRepository.CandidatePageSize | src/main/java/com/nhnacademy/book/repository/BookRepository.java:22-24 | a page holds z candidates while that many remain past its offset, the rest on the last page, and none after |
| BookRepository.CandidatePageRank | src/main/java/com/nhnacademy/book/repository/BookRepository.java:22-24 | the k-th book of page n is a candidate with exactly n·z + k candidates before it in the table |
| BookRepository.FindByImageIsNotNull | src/main/java/com/nhnacademy/book/repository/BookRepository.java:34 | exactly the books whose image is not null, in table order |
| BookRepository.FixZeroRegularPrices | src/main/java/com/nhnacademy/book/repository/BookRepository.java:13-15 | a zero regular price becomes 10000; every other row and field stays |
| BookRepository.FixZeroSalePrices | src/main/java/com/nhnacademy/book/repository/BookRepository.java:18-20 | a zero sale price becomes the regular price; every other row and field stays |
| BookRepository.IncrementViewCount | src/main/java/com/nhnacademy/book/repository/BookRepository.java:26-28 | the view count of the rows with the id goes up by one; every other row stays |
| BookRepository.BookTable.UpdateZeroRegularPricesToDefault | src/main/java/com/nhnacademy/book/repository/BookRepository.java:13-15 | updates the table and returns the number of rows with a zero regular price |
| BookRepository.BookTable.UpdateZeroSalePricesToRegularPrice | src/main/java/com/nhnacademy/book/repository/BookRepository.java:18-20 | updates the table and returns the number of rows with a zero sale price |
| BookRepository.BookTable.UpdateViewCount | src/main/java/com/nhnacademy/book/repository/BookRepository.java:26-28 | updates the table as IncrementViewCount says |
| BookRepository.CountWherePositions | src/main/java/com/nhnacademy/book/repository/BookRepository.java:13-20 | the count an update returns is the number of rows its condition selects |
| BookRepository.FixZeroRegularPricesIdempotent | src/main/java/com/nhnacademy/book/repository/BookRepository.java:13-15 | after the regular-price update none is zero, so running it again changes nothing and returns 0 |
| BookRepository.FixedPricesHaveNoZeroSale | src/main/java/com/nhnacademy/book/repository/BookRepository.java:13-20 | the two updates in order leave no zero sale price |
| BookRepository.FixZeroSaleRepeats | src/main/java/com/nhnacademy/book/repository/BookRepository.java:18-20 | a row whose regular price is also zero keeps a zero sale price and is counted again on every run |
| BookRepository.ViewCountTouchesOneRow | src/main/java/com/nhnacademy/book/repository/BookRepository.java:26-28 | with distinct ids exactly the one row with the id changes, by one view |
| BookRepository.FilledIndexNotSelected | src/main/java/com/nhnacademy/book/repository/BookRepository.java:22-24 | a book whose index is set to any non-empty text is never selected again |
| BookRepository.ClearedImageNotSelected | src/main/java/com/nhnacademy/book/repository/BookRepository.java:34 | a book whose image was cleared is not selected again for relocation |
| ImageMigration.ProcessOutcome | src/main/java/com/nhnacademy/book/service/impl/BookImageMigrationService.java:79-101 | a null or blank image does nothing; a failed upload throws with the book and the file table unchanged; a successful one upserts the (BOOK, id) row with the new URL and clears the image |
| ImageMigration.Candidates | src/main/java/com/nhnacademy/book/service/impl/BookImageMigrationService.java:37 | the k-th candidate is the book at the k-th position findByBookImageIsNotNull returns: one per position, in table order, each with an image |
| ImageMigration.CountSucceeding | src/main/java/com/nhnacademy/book/service/impl/BookImageMigrationService.java:52-60 | the successes are at most the candidates |
| ImageMigration.Migrated | src/main/java/com/nhnacademy/book/service/impl/BookImageMigrationService.java:44-71 | every candidate is processed once: successes plus failures equal the number of candidates |
| ImageMigration.ProcessSingleBook | src/main/java/com/nhnacademy/book/service/impl/BookImageMigrationService.java:79-101 | one step on the file table, as ProcessOutcome says |
| ImageMigration.MigrateAllImages | src/main/java/com/nhnacademy/book/service/impl/BookImageMigrationService.java:35-72 | run over all candidates, the tally adds up to the candidate count and the file table is the fold of the steps |
| ImageMigration.MigratedStep | src/main/java/com/nhnacademy/book/service/impl/BookImageMigrationService.java:53-60 | one more candidate adds one to the successes or to the failures |
| ImageMigration.MigrateOne | src/main/java/com/nhnacademy/book/service/impl/BookImageMigrationService.java:53-60 | the driver's work for one candidate moves its state from the fold over the first k candidates to the fold over the first k + 1 |
| ImageMigration.UpsertBookImageRows | src/main/java/com/nhnacademy/book/service/impl/BookImageMigrationService.java:88-95 | the first (BOOK, id) row is reused with the new URL, or one row is inserted when none exists; every other row stays in order |
| ImageMigration.UpsertStoresSingleUrl | src/main/java/com/nhnacademy/book/service/impl/BookImageMigrationService.java:88-95 | afterwards the first (BOOK, id) row holds the new URL, and no second row is created |
| ImageMigration.ProcessTwiceIsNoOp | src/main/java/com/nhnacademy/book/service/impl/BookImageMigrationService.java:82 | a processed book has no image, so processing it again does nothing |
| ImageMigration.FailureIsLocal | src/main/java/com/nhnacademy/book/service/impl/BookImageMigrationService.java:53-60 | a failing candidate adds one failure and leaves the file table as it was |
| FileStore.FindFirstBookRow | src/main/java/com/nhnacademy/book/service/impl/FileServiceImpl.java:24 | the position of the first (BOOK, id) row, or none when there is none |
| FileStore.SavedBookImage | src/main/java/com/nhnacademy/book/service/impl/FileServiceImpl.java:22-38 | the table after saveBookImage, as SaveBookImageRows characterises it |
| FileStore.FileTable.SaveBookImage | src/main/java/com/nhnacademy/book/service/impl/FileServiceImpl.java:22-38 | deletes the first (BOOK, id) row if any, then inserts the new row |
| FileStore.FileTable.GetBookImage | src/main/java/com/nhnacademy/book/service/impl/FileServiceImpl.java:43-47 | the URL of the first (BOOK, id) row, or null; it writes nothing |
| FileStore.FirstBookImageIsHead | src/main/java/com/nhnacademy/book/service/impl/FileServiceImpl.java:43-47 | getBookImage reads the first (BOOK, id) row |
| FileStore.SaveBookImageRows | src/main/java/com/nhnacademy/book/service/impl/FileServiceImpl.java:22-38 | only the first (BOOK, id) row is removed and the new one appended; rows of other ids and types stay in order |
| FileStore.DropFirstBookRow | src/main/java/com/nhnacademy/book/service/impl/FileServiceImpl.java:23-27 | deleting the first (BOOK, id) row removes the head of that id's rows and keeps every other row |
| FileStore.SaveBookImageStores | src/main/java/com/nhnacademy/book/service/impl/FileServiceImpl.java:31-37 | afterwards a (BOOK, id) row with the new URL exists |
| FileStore.SaveBookImageSingle | src/main/java/com/nhnacademy/book/service/impl/FileServiceImpl.java:22-47 | with at most one (BOOK, id) row before there is exactly one after, and getBookImage returns the new URL |
| FileStore.SaveBookImageLeavesStaleRow | src/main/java/com/nhnacademy/book/service/impl/FileServiceImpl.java:24-28 | with two rows before, one stale row survives and getBookImage still returns its URL |
| Minio.UploadExtension | src/main/java/com/nhnacademy/book/service/impl/MinioService.java:38-41 | the original name from its last `.` on, or ".jpg" when there is no name or no `.` |
| Minio.DownloadExtension | src/main/java/com/nhnacademy/book/service/impl/MinioService.java:91 | ".png" exactly when the content type is known and contains "png", else ".jpg" |
| Minio.BaseUrl | src/main/java/com/nhnacademy/book/service/impl/MinioService.java:53 | a `/` is appended only when the configured URL lacks one |
| Minio.ObjectUrl | src/main/java/com/nhnacademy/book/service/impl/MinioService.java:53-54 | the URL starts with the configured URL and with the base URL, the bucket and a `/`, and ends with `/` and the object name; its length is exactly that of those four parts |
| Minio.UploadImage | src/main/java/com/nhnacademy/book/service/impl/MinioService.java:31-60 | null for a missing or empty file with nothing stored; the URL when reading the file and the store call both succeed; else the RuntimeException "이미지 업로드에 실패했습니다."; a request is sent exactly when the file is read |
| Minio.UploadFromUrl | src/main/java/com/nhnacademy/book/service/impl/MinioService.java:63-117 | never throws; a URL exactly when the status is 200, the body is read and the store call succeeds; a request is sent exactly when the status is 200 and the body is read |
| Minio.ObjectUrlSlashInsensitive | src/main/java/com/nhnacademy/book/service/impl/MinioService.java:108 | a base URL with or without its trailing `/` gives the same object URL |
| Minio.UploadImageNamesStoredObject | src/main/java/com/nhnacademy/book/service/impl/MinioService.java:42-54 | the returned URL names the stored object: the UUID plus the extension |
| Minio.UploadFromUrlStoresObject | src/main/java/com/nhnacademy/book/service/impl/MinioService.java:91-109 | the object is stored under the returned URL, with the content type or "image/jpeg" when none was given |
| Minio.UploadExtensionSample | src/main/java/com/nhnacademy/book/service/impl/MinioService.java:40 | "archive.tar.gz" gives ".gz" |
| CategoryParser.ParentLink | src/main/java/com/nhnacademy/book/parser/CategoryParser.java:40-44 | a category is linked to the entry of its parent code when that entry exists, else to nothing |
| CategoryParser.Parse | src/main/java/com/nhnacademy/book/parser/CategoryParser.java:19-49 | the parse: the line pass, then the linking pass |
| CategoryParser.CollectNamesErrorSticks | src/main/java/com/nhnacademy/book/parser/CategoryParser.java:26-35 | an unparsable id ends the parse: a failed prefix fails the whole |
| CategoryParser.CollectNamesSucceeds | src/main/java/com/nhnacademy/book/parser/CategoryParser.java:27-29 | the parse succeeds exactly when every accepted line (two fields or more, non-blank id) has a parsable id |
| CategoryParser.CollectNamesFirstError | src/main/java/com/nhnacademy/book/parser/CategoryParser.java:29 | the first accepted line with a bad id is the one reported |
| CategoryParser.CollectNamesCovers | src/main/java/com/nhnacademy/book/parser/CategoryParser.java:26-35 | every accepted line's id is a key of the result |
| CategoryParser.CollectNamesLastWins | src/main/java/com/nhnacademy/book/parser/CategoryParser.java:34 | each key comes from an accepted line and holds the name of the last line with that id |
| CategoryParser.CollectNames | src/main/java/com/nhnacademy/book/parser/CategoryParser.java:26-35 | an error names an accepted line whose id does not parse |
| CategoryParser.LinkParents | src/main/java/com/nhnacademy/book/parser/CategoryParser.java:38-48 | one category per key, with its id and name, linked exactly when its parent code is a key, and then to that code |
| CategoryParser.ParseCategories | src/main/java/com/nhnacademy/book/parser/CategoryParser.java:19-49 | fails exactly when an accepted line has an unparsable id; else one category per id, linked exactly when its parent code is an id too |
| CategoryParser.ParentOfThreeDigitCode | src/main/java/com/nhnacademy/book/parser/CategoryParser.java:51-67 | on three digits: X00 has no parent, XY0 has X00, XYZ has XY0 |
| CategoryParser.GetParentCode | src/main/java/com/nhnacademy/book/parser/CategoryParser.java:51-67 | for a non-negative code the parent code is a multiple of 10 no larger than the code |
| CategoryParser.ParentByFormBounds | src/main/java/com/nhnacademy/book/parser/CategoryParser.java:54-67 | the same bound whatever decimal form the rule reads |
| CategoryParser.SelfParentCodes | src/main/java/com/nhnacademy/book/parser/CategoryParser.java:51-67 | a non-negative multiple of 10 without three digits is its own parent |
| CategoryParser.SelfParentSample | src/main/java/com/nhnacademy/book/parser/CategoryParser.java:51-67 | code 10 ("010") is its own parent, where the classification gives 0 |
| CategoryParser.KdcParentCode | src/main/java/com/nhnacademy/book/parser/CategoryParser.java:54-67 | the intended rule on three-digit codes with leading zeros: the parent is smaller and a multiple of 10 |
| CategoryParser.KdcParentChainsEnd | src/main/java/com/nhnacademy/book/parser/CategoryParser.java:54-67 | with the intended rule every parent chain ends within two steps |
| CategoryParser.ParentCodeVersionsAgree | src/main/java/com/nhnacademy/book/parser/CategoryParser.java:51-67 | the rule as written agrees with the intended one on 100..999 and differs on every multiple of 10 below 100 |
| BookParser.AuthorsOf | src/main/java/com/nhnacademy/book/parser/BookParser.java:88-100 | no author for a blank field, else one per comma-split piece, trimmed |
| BookParser.PriceOf | src/main/java/com/nhnacademy/book/parser/BookParser.java:73 | an empty field is 0; an error (the field named) exactly when a non-empty field does not parse; else the value truncated and saturated to int |
| BookParser.PriceOfDigits | src/main/java/com/nhnacademy/book/parser/BookParser.java:73 | a decimal int, with or without a fraction, is read as itself |
| BookParser.CategoryOf | src/main/java/com/nhnacademy/book/parser/BookParser.java:103-110 | no link for a blank field; an error exactly when a non-blank field does not parse; else a link to the truncated, saturated id exactly when it is a stored category |
| BookParser.StoredCategoryLinked | src/main/java/com/nhnacademy/book/parser/BookParser.java:103-109 | a code that is a stored category's id links the book to it |
| BookParser.MapRow | src/main/java/com/nhnacademy/book/parser/BookParser.java:42-110 | the fields of the book a row yields: isbn, title, description, date, fixed defaults, image fallback, the trimmed publisher exactly when it is non-blank, authors, the price PriceOf reads and the link CategoryOf gives; an error exactly when the price or the code does not parse, the price's error first |
| BookParser.LongLines | src/main/java/com/nhnacademy/book/parser/BookParser.java:40 | every kept row has 18 fields or more, and every row of the file with 18 fields or more is kept |
| BookParser.LongLinesFromFile | src/main/java/com/nhnacademy/book/parser/BookParser.java:38-40 | every kept row is a row of the file |
| BookParser.LongLinesAppend | src/main/java/com/nhnacademy/book/parser/BookParser.java:38-40 | the filter works row by row: filtering two runs of rows is filtering each and concatenating, so kept rows stay in file order and keep their multiplicity |
| BookParser.Parse | src/main/java/com/nhnacademy/book/parser/BookParser.java:39-119 | the loop appends one book per kept row |
| BookParser.ParseBooks | src/main/java/com/nhnacademy/book/parser/BookParser.java:39-116 | at most one book per row; an error is the mapping error of a kept row |
| BookParser.ParseBooksErrorSticks | src/main/java/com/nhnacademy/book/parser/BookParser.java:113-115 | a failing row ends the whole parse |
| BookParser.ParseBooksSucceeds | src/main/java/com/nhnacademy/book/parser/BookParser.java:39-116 | the parse succeeds exactly when every kept row maps to a book |
| BookParser.ParseBooksRows | src/main/java/com/nhnacademy/book/parser/BookParser.java:39-112 | a successful parse yields one book per kept row, in order, each the mapping of its row |
| BookParser.ShortRowsIgnored | src/main/java/com/nhnacademy/book/parser/BookParser.java:40 | rows of fewer than 18 fields add nothing |
| BookParser.BadPriceAbortsParse | src/main/java/com/nhnacademy/book/parser/BookParser.java:73 | an unparsable price aborts the parse whatever follows |
| BookParser.UnknownCategorySkipped | src/main/java/com/nhnacademy/book/parser/BookParser.java:104-109 | a code that is no stored category's id adds no link and no error |
| Converters.ResolveDate | src/main/java/com/nhnacademy/book/parser/CustomDateConverter.java:16-17 | a resolved date is a calendar date |
| Converters.ParseDashed | src/main/java/com/nhnacademy/book/parser/CustomDateConverter.java:16-28 | a date is read only from dddd-dd-dd; it is a calendar date with the written year and month and a day no later than the written one |
| Converters.ParseCompact | src/main/java/com/nhnacademy/book/parser/CustomDateConverter.java:17-31 | the same for eight digits |
| Converters.ConvertDate | src/main/java/com/nhnacademy/book/parser/CustomDateConverter.java:20-43 | null or empty gives today; the result is today or a calendar date; it never throws |
| Converters.ConvertDashedDate | src/main/java/com/nhnacademy/book/parser/CustomDateConverter.java:26-28 | yyyy-MM-dd gives that date, a day past the month's end moved back to its last day |
| Converters.ConvertCompactDate | src/main/java/com/nhnacademy/book/parser/CustomDateConverter.java:29-31 | the same for yyyyMMdd |
| Converters.ConvertDateRoundTrip | src/main/java/com/nhnacademy/book/parser/CustomDateConverter.java:26-31 | a date with day 1..28 is read back exactly in either format |
| Converters.ConvertDateBadMonth | src/main/java/com/nhnacademy/book/parser/CustomDateConverter.java:37-42 | a month outside 1..12 gives today |
| Converters.ConvertPrice | src/main/java/com/nhnacademy/book/parser/CustomPriceConverter.java:12-38 | an int; null or whitespace-only input gives 0; it never throws |
| Converters.ConvertPriceIgnoresWhitespace | src/main/java/com/nhnacademy/book/parser/CustomPriceConverter.java:18 | surrounding whitespace is ignored |
| Converters.ConvertPriceRoundTrip | src/main/java/com/nhnacademy/book/parser/CustomPriceConverter.java:29-31 | every int written in decimal, negatives included, reads back as itself |
| Converters.ConvertPriceOfDecimal | src/main/java/com/nhnacademy/book/parser/CustomPriceConverter.java:25-28 | "D.F" gives its whole part D |
| CsvParser.WithDefaults | src/main/java/com/nhnacademy/book/parser/CsvParser.java:57-82 | contents "", no packaging, on sale, stock 100, rating 0, sale price max(regular, 0), placeholders for missing description, publisher and image; other fields unchanged |
| CsvParser.AllWithDefaults | src/main/java/com/nhnacademy/book/parser/CsvParser.java:57-82 | every book gets its defaults |
| CsvParser.Inserted | src/main/java/com/nhnacademy/book/parser/CsvParser.java:86 | saveAll keeps every book, in order, each with its new id |
| CsvParser.RunResult | src/main/java/com/nhnacademy/book/parser/CsvParser.java:27-94 | skips a non-empty table; else saves every parsed book with its defaults, or fails with "CSV 데이터 로딩 실패!" and keeps nothing |
| CsvParser.FillDefaults | src/main/java/com/nhnacademy/book/parser/CsvParser.java:57-82 | the in-place loop sets every book's defaults |
| CsvParser.Run | src/main/java/com/nhnacademy/book/parser/CsvParser.java:27-94 | run on the book table, as RunResult says |
| CsvParser.WithDefaultsIdempotent | src/main/java/com/nhnacademy/book/parser/CsvParser.java:57-82 | setting the defaults twice is setting them once |
| CsvParser.PresentColumnsKept | src/main/java/com/nhnacademy/book/parser/CsvParser.java:73-81 | a present description, publisher and image are kept |
| CsvParser.LoadedRowsComplete | src/main/java/com/nhnacademy/book/parser/CsvParser.java:57-86 | every saved book has its required columns, a distinct id, and the parsed isbn, title and price |
| CsvParser.RunOnce | src/main/java/com/nhnacademy/book/parser/CsvParser.java:29-32 | once something is loaded, a second run changes nothing |
| CsvParser.DuplicateIsbnFails | src/main/java/com/nhnacademy/book/parser/CsvParser.java:86-93 | the load fails exactly when the file repeats an ISBN |
| BookInfo.FetchItem | src/main/java/com/nhnacademy/book/service/strategy/impl/AladinBookSearchStrategy.java:35-59 | the first item of a non-empty list; anything else is the RuntimeException "도서 정보를 가져오는 중 오류가 발생했습니다." |
| BookInfo.IsoDate | src/main/java/com/nhnacademy/book/service/strategy/impl/AladinBookSearchStrategy.java:64 | ISO_DATE accepts only calendar dates |
| BookInfo.MapToDto | src/main/java/com/nhnacademy/book/service/strategy/impl/AladinBookSearchStrategy.java:63-74 | text fields copied, date parsed, index from the toc or "", both prices the list price, stock 0, packaging on, on sale; an error when the date does not parse (BookRegistrationService.java lines 117-128 hold the same mapping) |
| BookInfo.SearchBook | src/main/java/com/nhnacademy/book/service/strategy/impl/AladinBookSearchStrategy.java:28-32 | a failed lookup is its error; else the mapping of the item |
| BookInfo.IsApplicable | src/main/java/com/nhnacademy/book/service/strategy/impl/GeminiBookEnrichmentStrategy.java:33-35 | true exactly when the index is empty or the description has fewer than 50 units; a null description with an index is the NullPointerException (needAiEnrichment of BookRegistrationService.java, lines 130-132, is the same test) |
| BookInfo.AsText | src/main/java/com/nhnacademy/book/service/strategy/impl/GeminiBookEnrichmentStrategy.java:105-106 | a missing or null key gives the default, a text node its text |
| BookInfo.Merge | src/main/java/com/nhnacademy/book/service/strategy/impl/GeminiBookEnrichmentStrategy.java:109-116 | only description and index may change; a text node in the answer replaces the field; a key the answer lacks or holds null keeps the original value |
| BookInfo.ApplyGeminiResponse | src/main/java/com/nhnacademy/book/service/strategy/impl/GeminiBookEnrichmentStrategy.java:92-121 | no text or unreadable text gives the original; else the merge of the fence-stripped answer (BookRegistrationService.java lines 157-186 hold the same merge) |
| BookInfo.Enrich | src/main/java/com/nhnacademy/book/service/strategy/impl/GeminiBookEnrichmentStrategy.java:38-67 | never fails; a failed call returns the original; only description and index may change |
| BookInfo.GetBookInfoByIsbn | src/main/java/com/nhnacademy/book/service/BookRegistrationService.java:42-55 | a lookup error is returned as is; a full request comes back unenriched; one with an empty index or a short description comes back enriched from the AI reply; one with an index but no description fails with NullDescription; an enriched one differs from the lookup only in description and index |
| BookInfo.SearchUsesFirstItem | src/main/java/com/nhnacademy/book/service/strategy/impl/AladinBookSearchStrategy.java:54 | only the first item is used |
| BookInfo.IsoDateRoundTrip | src/main/java/com/nhnacademy/book/service/strategy/impl/AladinBookSearchStrategy.java:64 | a calendar date written yyyy-MM-dd is read back exactly |
| BookInfo.IsoDateRejectsOverflow | src/main/java/com/nhnacademy/book/service/strategy/impl/AladinBookSearchStrategy.java:64 | a day past the month's end is rejected, where the CSV converter clamps it |
| BookInfo.StripFences | src/main/java/com/nhnacademy/book/service/strategy/impl/GeminiBookEnrichmentStrategy.java:101 | no fence marker is left and the text is trimmed |
| BookInfo.StripFencesOfBlock | src/main/java/com/nhnacademy/book/service/strategy/impl/GeminiBookEnrichmentStrategy.java:101 | a json code block is unwrapped to its body |
| BookInfo.EnrichAppliesAnswer | src/main/java/com/nhnacademy/book/service/strategy/impl/GeminiBookEnrichmentStrategy.java:92-121 | a fenced answer with both keys replaces description and index |
| BookInfo.StripFencesOfBare | src/main/java/com/nhnacademy/book/service/strategy/impl/GeminiBookEnrichmentStrategy.java:83-101 | bare JSON without backquotes, the form the prompt asks for, reaches the JSON reader unchanged |
| BookInfo.EnrichAppliesBareAnswer | src/main/java/com/nhnacademy/book/service/strategy/impl/GeminiBookEnrichmentStrategy.java:83-116 | a bare JSON answer with both keys as text replaces description and index |
| BookInfo.MissingKeysKeepOriginal | src/main/java/com/nhnacademy/book/service/strategy/impl/GeminiBookEnrichmentStrategy.java:105-106 | an answer with neither key leaves the request as it was |
| BookInfo.FullRequestNotEnriched | src/main/java/com/nhnacademy/book/service/BookRegistrationService.java:50-54 | an index and a description of 50 units or more: the mapping is returned unchanged |
| BookInfo.EnrichmentFailureFallsBack | src/main/java/com/nhnacademy/book/service/BookRegistrationService.java:102-113 | a failed call or unreadable answer returns the mapping |
| BookInfo.LookupFailureHasNoFallback | src/main/java/com/nhnacademy/book/service/BookRegistrationService.java:70-81 | a failed lookup is the RuntimeException whatever Gemini would answer |
| Wishlists.FindPair | src/main/java/com/nhnacademy/book/service/impl/WishlistServiceImpl.java:35-38 | the first row of the pair, or none exactly when the pair is absent |
| Wishlists.Toggled | src/main/java/com/nhnacademy/book/service/impl/WishlistServiceImpl.java:24-51 | an unknown member fails first, then an unknown book, both with the table unchanged; else the result is whether the pair was absent, and under the unique constraint whether it is present afterwards |
| Wishlists.WishlistTable.ToggleWishlist | src/main/java/com/nhnacademy/book/service/impl/WishlistServiceImpl.java:24-51 | the table after the toggle, as Toggled says |
| Wishlists.AppendRow | src/main/java/com/nhnacademy/book/service/impl/WishlistServiceImpl.java:43-49 | an insert adds exactly its pair |
| Wishlists.RemoveRow | src/main/java/com/nhnacademy/book/service/impl/WishlistServiceImpl.java:37-41 | a delete removes exactly its pair under the unique constraint |
| Wishlists.ToggleTouchesOnePair | src/main/java/com/nhnacademy/book/service/impl/WishlistServiceImpl.java:35-50 | no other pair changes |
| Wishlists.ToggleKeepsPairsUnique | src/main/java/com/nhnacademy/book/entity/Wishlist.java:12-15 | the unique (member, book) constraint holds after every toggle |
| Wishlists.ToggleTwiceRestores | src/main/java/com/nhnacademy/book/service/impl/WishlistServiceImpl.java:35-50 | toggling twice restores the pairs and flips the result, and restores the very rows when the pair was absent |
| Reviews.RatesOf | src/main/java/com/nhnacademy/book/repository/ReviewRepository.java:16-17 | every review of the book contributes its rate |
| Reviews.RatesOfCount | src/main/java/com/nhnacademy/book/repository/ReviewRepository.java:16-17 | one rate per review of the book, so the average divides by the number of its reviews |
| Reviews.RatesOfProvenance | src/main/java/com/nhnacademy/book/repository/ReviewRepository.java:16-17 | every rate is the rate of a review of that book |
| Reviews.RatesOfSource | src/main/java/com/nhnacademy/book/repository/ReviewRepository.java:16-17 | the j-th rate is the rate of a particular review of that book |
| Reviews.RatingOf | src/main/java/com/nhnacademy/book/service/impl/ReviewServiceImpl.java:98-105 | 0.0 when the book has no rates; otherwise the rounded average, which RatingWithinRates places between the lowest and the highest rate |
| Reviews.WithRating | src/main/java/com/nhnacademy/book/service/impl/ReviewServiceImpl.java:105 | only the book's rating changes |
| Reviews.Rerated | src/main/java/com/nhnacademy/book/service/impl/ReviewServiceImpl.java:96-106 | "도서가 존재하지 않습니다." exactly when the book is missing; else its rating is recomputed |
| Reviews.Created | src/main/java/com/nhnacademy/book/service/impl/ReviewServiceImpl.java:33-58 | a missing book fails first, then a missing member, both saving nothing; else the review is appended with its new id and the book's rating recomputed |
| Reviews.FindReview | src/main/java/com/nhnacademy/book/service/impl/ReviewServiceImpl.java:73-74 | the position of the review with the id, or none |
| Reviews.Updated | src/main/java/com/nhnacademy/book/service/impl/ReviewServiceImpl.java:71-91 | a missing review fails, then a non-author with "AUTHORIZATION_FAILURE…", with nothing changed; else rate, contents and update time are replaced and the rating recomputed; a failure rolls back |
| Reviews.ReviewTable.UpdateBookAverageRating | src/main/java/com/nhnacademy/book/service/impl/ReviewServiceImpl.java:96-106 | sets the rating, or fails with the book table unchanged |
| Reviews.ReviewTable.CreateReview | src/main/java/com/nhnacademy/book/service/impl/ReviewServiceImpl.java:33-58 | createReview, as Created says |
| Reviews.ReviewTable.UpdateReview | src/main/java/com/nhnacademy/book/service/impl/ReviewServiceImpl.java:71-91 | updateReview, as Updated says |
| Reviews.RatingWithinRates | src/main/java/com/nhnacademy/book/service/impl/ReviewServiceImpl.java:98-105 | the rating lies between the book's lowest and highest rate |
| Reviews.RoundToCentsSamples | src/main/java/com/nhnacademy/book/service/impl/ReviewServiceImpl.java:105 | 4.555 rounds to 4.56 and a whole average stays |
| Reviews.NonAuthorCannotEdit | src/main/java/com/nhnacademy/book/service/impl/ReviewServiceImpl.java:78-81 | a non-author's edit changes nothing |
| Reviews.EditIsLocal | src/main/java/com/nhnacademy/book/service/impl/ReviewServiceImpl.java:84-90 | an edit changes one review and only that review's book |
| Reviews.NewReviewRatesItsBook | src/main/java/com/nhnacademy/book/service/impl/ReviewServiceImpl.java:52-55 | a new review counts toward its own book's rating and no other |
| JavaNumbers.JavaDivRoundsTowardZero | src/main/java/com/nhnacademy/book/parser/CategoryParser.java:62-67 | Java division rounds toward zero |
| JavaNumbers.ParseDecimalString | src/main/java/com/nhnacademy/book/parser/CustomPriceConverter.java:31 | Integer.parseInt reads back any printed int |
| JavaText.Split | src/main/java/com/nhnacademy/book/parser/BookParser.java:89 | split(",") pieces never contain the separator; the whole string when it has none; otherwise the last piece is non-empty (trailing empty pieces dropped) |
| JavaText.TrimTrailing | src/main/java/com/nhnacademy/book/parser/BookParser.java:89 | a prefix of the string that does not end with the separator, only separators cut |
| JavaText.JoinPieces | src/main/java/com/nhnacademy/book/parser/BookParser.java:89 | the pieces between separators, joined back with the separator, are the string |
| JavaText.SplitJoin | src/main/java/com/nhnacademy/book/parser/BookParser.java:89 | joining split's pieces with the separator gives the string without its trailing run of separators |
| JavaNumbers.TruncatedDecimalOfDigits | src/main/java/com/nhnacademy/book/parser/BookParser.java:73 | a printed natural reads back as itself |

## Left out

- Network and storage I/O are left out: the Aladin and Gemini HTTP calls, the image download and the MinIO `putObject`. Each appears only as an outcome parameter.
- JSON decoding (Jackson `readTree`, `path`, `get(0)`) is left out. The lookup reply arrives already decoded. The model's answer is read by the `readTree` parameter. Only `asText(default)` is modelled (`BookInfo.AsText`).
- CSV tokenising and binding are left out: OpenCSV's `CSVReader`, `withSkipLines(1)` and `CsvToBean`. The parsers take the rows after the header, already split into fields. The loader takes the bound books, or the exception the binding threw.
- `createPrompt` is left out. It only formats text for the Gemini request.
- The thread pool of `migrateAllImages` is not modelled. Its `CompletableFuture` tasks and `AtomicInteger` counters become a loop over the candidates in order. The outcome of each task depends only on its own book and upload, so the order does not change the tally.
- Per-task transactions of `processSingleBook` are not modelled. It is reached through a self-call, which bypasses the `REQUIRES_NEW` proxy. Whether clearing the image of the detached `Book` is ever persisted is not claimed either. The model returns the changed book object and leaves the book table alone.
- The queries `findAugmentationCandidates` and `findByBookImageIsNotNull` and the file lookup `findFirstByFileTypeAndJoinedId` have no ORDER BY, so the database may return rows in any order. `BookRepository.FindAugmentationCandidates`, `BookRepository.FindByImageIsNotNull` and `FileStore.FindFirstBookRow` fix that order to table order.
- The hash order of `CategoryParser.parse`'s result is left out. The model returns the id-to-category map, not the list of its values.
- `Converters.ConvertPrice`: only plain decimals (`[+-]digits[.digits]`) are read for a value with a `.`. The other forms `Double.parseDouble` accepts (exponents, `NaN`, `Infinity`, hexadecimal, a trailing `d`/`f`) become the fallback 0. Rounding to the nearest double before truncation is not modelled.
- `BookParser.PriceOf` and `BookParser.CategoryOf` read the field with the same plain-decimal rule, and reject the other `Double.parseDouble` forms. Rounding to the nearest double before truncation is not modelled for them either: a fraction is dropped exactly, so a value whose nearest double is a whole number one further from zero reads one closer to zero than Java would.
- `JavaNumbers.ParseInteger` accepts ASCII digits only. `Integer.parseInt` and `Long.parseLong` also accept other Unicode decimal digits.
- `Converters.ConvertDate`: the year field takes exactly four digits and no sign. `LocalDate`'s `yyyy` pattern would also accept a `+` and longer years.
- `BookInfo.IsoDate`: the optional offset suffix of `ISO_DATE` is not accepted, and the year takes exactly four digits.
- `Reviews.RatingOf` computes on exact rationals. The database average and `Math.round(avg * 100.0) / 100.0` compute on doubles, so a binary rounding difference at a half cent is not modelled.
- `CsvParser.WithDefaults` sets the rating to 0.0. The loader calls `setBookReviewRate("0.0")` with a string, which matches no setter of `Book.java`'s `double` field; the model takes the evident value.
- `BookParser.MapRow`: `BookParser.java` calls a 16-argument `Book` constructor that `Book.java` does not declare. The model reads its arguments in the order of the union record: authors, categories, then contents (null).
- The rating of `Reviews.ReviewTable.CreateReview` is recomputed by `UpdateBookAverageRating` on the review table as it is after the insert. This is the JPQL average after the flush that precedes the query.
- Unique constraints the database enforces are modelled only where the code depends on them. The wishlist's (member, book) constraint (`Wishlists.AtMostOnePerPair`) and the ISBN column (`CsvParser.DistinctIsbns`) are. Other constraints of the schema are not.
- Controllers, DTO projections, `BookServiceImpl` and the other repositories are not part of this model. They have no logic beyond copying fields and delegating.

## Findings

| source | as written | input that shows it | evidently intended | confidence | as-written member | corrected member |
|---|---|---|---|---|---|---|
| src/main/java/com/nhnacademy/book/service/BookIndexService.java:65-66 | the older batch logs `pageable.getPageNumber()` after the loop, which throws for an unpaged request, so the transaction rolls back every index it wrote | an unpaged request over a table with one book whose index is empty and whose lookup succeeds | report the page number only when paged, as the newer version does at BookIndexServiceImpl.java:72, and keep the work | not executed | BookIndexing.UnpagedLegacyDiscardsWork | BookIndexing.AugmentBookIndexBatch |
| src/main/java/com/nhnacademy/book/parser/CategoryParser.java:51-67 | `getParentCode` works on `code.toString()`, so the classification codes "000" and "010" (read as 0 and 10) lose their leading zeros and become their own parents | code 10: the rule gives parent 10, so category 10 is linked to itself | treat every code as three digits: "010" belongs to "000", which is top level | not executed | CategoryParser.SelfParentSample | CategoryParser.KdcParentChainsEnd |

`CategoryParser.Parse` keeps the parent rule as written, so that it models the code; `CategoryParser.KdcParentCode` is the rule the classification intends, and `CategoryParser.ParentCodeVersionsAgree` shows where the two differ.
