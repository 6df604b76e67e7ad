# Ticket-assistant pipeline core, modelled in Dafny

The repository is a support-ticket assistant. It ingests service manuals (PDF and
HTML) and historic tickets. It cuts them into chunks. It retrieves the chunks for a
new ticket with a hybrid vector and full-text SQL query. This project models the
deterministic core of that pipeline as pure functions over immutable data, and
proves what each step promises.

- **PDF page filter** (`PdfPages`). This covers `extract_table_of_contents`, which
  ranks font sizes into TOC depths. It covers `detect_irrelevant_pages`: the page
  scan over per-page facts, then the cascade over denylisted TOC entries. It also
  covers `get_fullpage_tables`, the set update.
- **PDF linearizer** (`PdfLinearizer`, `DocItems`, `Segments`). This is the element
  loop of `process_pdf` with `stringify_list`. It is a fold over a typed item
  stream, and it emits `(text, page)` segments.
- **Chunker** (`Chunking`). `naive_chunking` is the greedy, heading-bounded chunker
  with optional overlap. It writes into an insertion-ordered dict (`OrderedDict`).
- **HTML linearizer** (`HtmlLinearizer`). `elements_to_text` buffers list items.
- **Hybrid query** (`HybridQuery`, `RankFusion`). `generate_sql_query` sanitises the
  search text and builds the statement from a structured value, which it then
  renders. `RankFusion` states what the statement asks the database to compute:
  reciprocal-rank fusion over two capped rankings.
- **Helpers**:
  - `determine_relevancy` (`Relevancy`);
  - the ticket-description normaliser (`TicketText`);
  - `handle_datetimeoffset`, a 20-byte little-endian decoder and formatter
    (`DateTimeOffset`, `Decimal`);
  - `process_context`, the projection of retrieved rows (`RetrievedContext`).

`Text` holds the Python string operations these use. `Wrappers` holds
`Option`/`Result`. A Python exception is an `Err` value. A regular expression is
replaced by its match results, given as inputs. Only three are modelled
concretely: the TOC-title denylist, `cat\d*_name` and `\n\n\n+`.

## Model

| member | source | states |
|---|---|---|
| PdfPages.SizesDescending | src/ingestor/pdf_util.py:59-61 | the sorted font-size list is strictly descending and holds exactly the sizes of the dotted TOC lines |
| PdfPages.ExtractToc | src/ingestor/pdf_util.py:33-64 | a document outline is returned entry by entry; without one, every dotted line keeps its title and page and gets a depth between 1 and the number of distinct font sizes |
| PdfPages.LargerFontShallower | src/ingestor/pdf_util.py:60-63 | without an outline, a larger font gets a strictly smaller depth and equal fonts get equal depths |
| PdfPages.TocRunTracksInToc | src/ingestor/pdf_util.py:131-141 | the consecutive-TOC counter is positive exactly while the TOC flag is set, so it never decides anything |
| PdfPages.ScanInToc | src/ingestor/pdf_util.py:131-141 | after the scan, the TOC flag says whether the last English page passed the TOC test; non-English pages leave it alone |
| PdfPages.ScanPageRemoved | src/ingestor/pdf_util.py:97-143 | one page iteration removes the page itself under any rule, and every earlier page when the page opens a TOC section; nothing else |
| PdfPages.ScanRemoved | src/ingestor/pdf_util.py:89-143 | after the scan a page is removed exactly when it is non-English, an English title page at index 0, an English notices page at index at most 10, an English TOC page, or before the start of a TOC section; nothing outside the document is removed |
| PdfPages.NonEnglishRemoved | src/ingestor/pdf_util.py:92-97 | a page whose detected language is not English, or whose detection failed, is always removed |
| PdfPages.TitlePageRemoved | src/ingestor/pdf_util.py:99-104 | an English first page with fewer than 100 words or a by/author/copyright phrase is removed |
| PdfPages.NoticesRemoved | src/ingestor/pdf_util.py:106-107 | an English page among the first eleven that mentions notices or acknowledgments is removed |
| PdfPages.TocStartRemovesPreamble | src/ingestor/pdf_util.py:131-135 | the page that opens a TOC section is removed together with every page before it |
| PdfPages.LateEnglishPageKept | src/ingestor/pdf_util.py:99-141 | the scan never removes an English page at index 20 or later |
| PdfPages.OtherLevelPagesSpec | src/ingestor/pdf_util.py:148-150 | the inner cascade loop removes exactly the pages of later entries whose level differs from the denylisted entry's level |
| PdfPages.CascadeSpec | src/ingestor/pdf_util.py:145-153 | the cascade removes exactly each denylisted entry's page, the pages of later entries on any other level (deeper or shallower, with no early stop), and, for a denylisted last entry, every page from its page to the end of the document |
| PdfPages.DetectSpec | src/ingestor/pdf_util.py:67-155 | the detector's result is the union of the scan rules and the cascade rules, page by page |
| PdfPages.NoDenylistedTitle | src/ingestor/pdf_util.py:145-147 | a TOC without a denylisted title makes the cascade remove nothing |
| PdfPages.LastEntryRemovesTail | src/ingestor/pdf_util.py:151-153 | a denylisted last entry removes every page from its page to the end of the document |
| PdfPages.IndexCaseSensitive | src/ingestor/pdf_util.py:146 | the title denylist is case-sensitive: "index" matches and "Index" does not |
| PdfPages.CapitalisedTitlesKept | src/ingestor/pdf_util.py:145-153 | capitalised "Acronyms" and "Index" entries remove no page |
| PdfPages.CascadeExample | src/ingestor/pdf_util.py:145-150 | an "index" entry removes its own page and that of a deeper later entry, but not that of a later entry on its own level |
| PdfPages.AddTablesSpec | src/ingestor/pdf_util.py:214-226 | the item loop adds exactly the 0-based pages of the exported tables the size test accepts |
| PdfPages.FullPageTablesSpec | src/ingestor/pdf_util.py:207-228 | the result is a superset of the input set: the input plus the accepted tables' pages, or the input alone when the document has no pages |
| PdfPages.IgnoredPagesNotMeasured | src/ingestor/pdf_util.py:216-217 | items on pages already in the set are never measured: size tests that agree on all other items give the same result |
| PdfLinearizer.Flush | src/ingestor/pdf_util.py:158-185 | flushing empties the list buffer and appends one segment, the buffered lines joined by newlines, on the list's page |
| PdfLinearizer.CloseListSpec | src/ingestor/pdf_util.py:313-317 | closing a list emits the pending lines, if any, as one newline-joined segment on the list page and nothing else; afterwards no line is pending and no list is open, and the nesting level is unchanged |
| PdfLinearizer.HeaderMarker | src/ingestor/pdf_util.py:330-333 | the section-header marker is `min(level, 6)` hashes, never fewer than two, and a space |
| PdfLinearizer.ListIndentErased | src/ingestor/pdf_util.py:349-356 | the nesting indentation never survives `strip`: a list item renders the same at every depth |
| PdfLinearizer.AdjustNesting | src/ingestor/pdf_util.py:288-290 | going deeper keeps the nesting level; going up by `d` levels gives `max(0, nesting - d)` |
| PdfLinearizer.PrologueSpec | src/ingestor/pdf_util.py:288-303 | every item updates the nesting level and the previous depth; a non-list item arriving while a list is open and something has already been emitted closes the list and emits its pending lines; otherwise the list state and the output are untouched |
| PdfLinearizer.Step | src/ingestor/pdf_util.py:286-377 | one iteration keeps the list invariant (a pending list has a page and is open) and only appends to the output |
| PdfLinearizer.RunPagesOutside | src/ingestor/pdf_util.py:305-310 | throughout the loop, every emitted segment and the pending list's page lie outside the excluded pages |
| PdfLinearizer.ExcludedPagesContributeNoSegment | src/ingestor/pdf_util.py:310 | no segment of the result comes from an excluded page |
| PdfLinearizer.ExcludedTextIsIrrelevant | src/ingestor/pdf_util.py:305-310 | the text of items on excluded pages never changes the result |
| PdfLinearizer.RunExtends | src/ingestor/pdf_util.py:283-377 | the segment list only grows: each prefix of the stream emits a prefix of the final segments |
| PdfLinearizer.EmitRendered | src/ingestor/pdf_util.py:312-377 | a kept title, header, text, non-list group or requested table is emitted as the last segment, on its page |
| PdfLinearizer.KeptItemsEmitted | src/ingestor/pdf_util.py:312-377 | every such exported item on a kept page appears in the result with its rendering and page |
| PdfLinearizer.NestingBounded | src/ingestor/pdf_util.py:288-290 | the nesting level never exceeds the number of list groups entered |
| PdfLinearizer.StepListItem | src/ingestor/pdf_util.py:345-357 | a kept list item never flushes; it appends its stripped line and moves the list's page to its own |
| PdfLinearizer.RenderDash | src/ingestor/pdf_util.py:352-356 | a plain list item without surrounding blanks renders as `"- " + text` |
| PdfLinearizer.StepTextAfterList | src/ingestor/pdf_util.py:295-303 | once something has been emitted, a paragraph after a pending list flushes it, joined by newlines on the list's page, and then emits itself |
| PdfLinearizer.MidStreamFlushExample | src/ingestor/pdf_util.py:295-303 | a list cut by a paragraph becomes one newline-joined segment on the page of its last item |
| PdfLinearizer.LeadingListExample | src/ingestor/pdf_util.py:379-381 | before anything is emitted a non-list item does not close a list, and the list still pending at the end is joined with the empty string |
| PdfLinearizer.ProcessPdfSkipsPages | src/ingestor/pdf_util.py:279-310 | no segment comes from a page the caller ignores, nor, unless big tables are kept, from a page with an accepted full-page table |
| Chunking.ChunkingOutput | src/utils/chunking.py:18-49 | the output is never empty; it has one chunk per distinct text written, in first-write order, carrying the page written last for that text |
| Chunking.EmptyInput | src/utils/chunking.py:14-17 | an empty input gives one empty chunk without a page |
| Chunking.ChunkCanReach2501 | src/utils/chunking.py:30-31 | the length test ignores the joining space, so a chunk can hold 2501 characters |
| Chunking.ChunkLength | src/utils/chunking.py:30-39 | a chunk longer than 2501 characters was never appended to: it is a single segment, or with overlap a space and a segment, or an earlier segment, a space and a later one; so no chunk exceeds 2501 unless a segment, or two joined by a space, does |
| Chunking.NoTextLost | src/utils/chunking.py:21-42 | every segment's text occurs in some chunk, and a heading occurs at the start of one |
| Chunking.ChunkPages | src/utils/chunking.py:24-42 | every chunk's page is a page of the input; a chunk without a page is empty |
| Chunking.ChunkPageRule | src/utils/chunking.py:21-42 | every chunk with a page is the accumulator as it stood where a heading or an overflowing text started the next one (or at the end), and its page is the smallest page among the segments from the one that started it up to there; a chunk without a page is the empty initial accumulator, present only for an empty input or a first segment too long to fit |
| Chunking.MinPageSpec | src/utils/chunking.py:33-34 | the page kept by the append rule is one of the segments' pages and no larger than any |
| Chunking.HeadingExamples | src/utils/chunking.py:23 | a lone `#` is ordinary text, while `# A` is a heading |
| OrderedDict.Put | src/utils/chunking.py:25 | writing a key keeps the key order, appends a new key at the end, and changes only that key's value |
| OrderedDict.FromPairsSpec | src/utils/chunking.py:42-44 | a dict built by successive writes has distinct keys in first-write order, each with the value written last |
| HtmlLinearizer.TitleMarker | src/ingestor/html_util.py:39 | the title marker is `depth + 1` hashes and a space |
| HtmlLinearizer.StepRender | src/ingestor/html_util.py:30-61 | one element adds its own rendering as one more newline-separated line of the eventual text |
| HtmlLinearizer.RunRenders | src/ingestor/html_util.py:30-65 | after the loop and the final flush, the pieces join to the elements' own renderings, one line each |
| HtmlLinearizer.ElementsToTextSpec | src/ingestor/html_util.py:14-68 | list buffering is invisible: the result is every element's own rendering, in input order, joined by newlines and stripped |
| HtmlLinearizer.EmptyElements | src/ingestor/html_util.py:68 | no elements give the empty string |
| HybridQuery.Sanitize | src/coordinator/utils.py:118-120 | the sanitised text holds none of the five deleted characters and is no longer than the input |
| HybridQuery.SanitizeAppend | src/coordinator/utils.py:118-120 | sanitising distributes over concatenation |
| HybridQuery.SanitizeChar | src/coordinator/utils.py:118-120 | a character is deleted exactly when it is one of `"`, `\`, `%`, `_`, `'` |
| HybridQuery.SanitizeClean | src/coordinator/utils.py:118-120 | text without those characters passes unchanged |
| HybridQuery.SanitizeIdempotent | src/coordinator/utils.py:118-120 | sanitising twice is sanitising once |
| HybridQuery.Build | src/coordinator/utils.py:118-179 | the ticket columns are used exactly for the tickets table, a device filter exactly for the manuals table, the search text is the sanitised query, and the branch cap is 40 |
| HybridQuery.NoLineBreaks | src/coordinator/utils.py:180 | the statement holds no newline and no tab |
| HybridQuery.OnlySanitizedQueryMatters | src/coordinator/utils.py:118-172 | queries that sanitise alike give the same statement |
| HybridQuery.DeviceOnlyForManuals | src/coordinator/utils.py:145-147 | the device type changes nothing unless the table is manuals |
| HybridQuery.SearchLiteralPresent | src/coordinator/utils.py:162-168 | the full-text condition quotes the sanitised search text, which holds no quote or backslash |
| HybridQuery.EndsWithLimit | src/coordinator/utils.py:178-179 | the statement ends by ordering on the fused score and capping at `limit` |
| HybridQuery.ManualsFilterBothBranches | src/coordinator/utils.py:145-147 | for manuals, both branches filter on the device type, verbatim, with `None` rendered as "None" |
| HybridQuery.ColumnsByTable | src/coordinator/utils.py:124-177 | tickets select, carry and group by `ticketID`; every other table by `page_number, url, docType`; the vector branch is capped at 40 rows |
| RankFusion.ScoreAppend | src/coordinator/utils.py:130-151 | scores add up over `UNION ALL` |
| RankFusion.ScoreAbsent | src/coordinator/utils.py:130 | a row with no hit scores zero |
| RankFusion.ScoreAtLeast | src/coordinator/utils.py:130 | with a positive fusion function, a row scores at least the fused value of each of its hits |
| RankFusion.ScoreAtMost | src/coordinator/utils.py:130-151 | in a ranking listing each row once, a row scores at most a bound that each of its hits stays within |
| RankFusion.BothBranchesWin | src/coordinator/utils.py:130-172 | for any two rankings that list each row at most once, with a positive fusion function that does not grow with rank, a row in both capped branches outscores a row found by only one of them at a rank no better than the first row's rank there |
| RankFusion.SortByScore | src/coordinator/utils.py:178 | the ordering is a permutation sorted by descending score |
| RankFusion.FuseSpec | src/coordinator/utils.py:130-179 | the result has distinct rows found by a capped branch, best first, `limit` of them or all found, and no row left out scores higher than a row returned |
| Relevancy.CatNameSpec | src/ingestor/utils.py:26 | the key test holds exactly when `cat`, digits and `_name` occur together somewhere in the key |
| Relevancy.RelevantFields | src/ingestor/utils.py:25-26 | the fields examined are `contentType` and then exactly the keys matching `cat\d*_name` |
| Relevancy.Any | src/ingestor/utils.py:30-34 | the early-return loop finds an element exactly when some element passes the test |
| Relevancy.DetermineRelevancy | src/ingestor/utils.py:10-34 | the result is true exactly when some examined field holds a string mentioning a keyword, in any letter case |
| Relevancy.RelevancySpec | src/ingestor/utils.py:21-34 | relevance in terms of the manual alone: `contentType`, or a key with a `cat<digits>_name` match, holds a string with a keyword |
| Relevancy.EmptyNotRelevant | src/ingestor/utils.py:34 | an empty metadata dict is not relevant |
| Relevancy.NonStringIgnored | src/ingestor/utils.py:31-32 | replacing a non-string value by another non-string value never changes the verdict |
| Relevancy.UpperCaseKeyword | src/ingestor/utils.py:32 | a string mentions a keyword exactly when its lower-cased form does, so `Repair` counts |
| Relevancy.ListValuedCategoryIgnored | src/ingestor/utils.py:31-32 | a `cat1_name` field is examined, yet a list value never counts, whatever strings it holds |
| TicketText.RemoveMailAddressesSpec | src/utils/utils_historic_tickets.py:18 | the result is the text read left to right with each address replaced by one space and everything between kept in order; its length and the origin of each character follow |
| TicketText.NoAtSignLeft | src/utils/utils_historic_tickets.py:18 | when every `@` lies inside an address, none is left |
| TicketText.KeepPairs | src/utils/utils_historic_tickets.py:34-39 | the comprehension keeps exactly the pairs with a headline off the denylist and a body that is not a placeholder |
| TicketText.Headlines1Spec | src/utils/utils_historic_tickets.py:33-44 | the first-format dict has distinct keys in first-match order; a headline is present exactly when a match of it survives the filter, and it carries its last surviving body |
| TicketText.Headlines1Filtered | src/utils/utils_historic_tickets.py:34-42 | no denylisted headline survives; exactly the five listed headlines are split into fields; other bodies are never placeholders |
| TicketText.Headlines2Spec | src/utils/utils_historic_tickets.py:59-68 | the second format keeps each surviving headline with its last surviving body; denylisted headlines and placeholder bodies are dropped |
| TicketText.RenderSection | src/utils/utils_historic_tickets.py:83-89 | every entry's text starts with its headline, a colon and a newline |
| TicketText.CollapseNewlinesSpec | src/utils/utils_historic_tickets.py:90 | the collapse leaves no three newlines in a row, changes only newlines, leaves a text alone exactly when it has no such run, and is idempotent |
| TicketText.TransformDictToTextSpec | src/utils/utils_historic_tickets.py:70-91 | the text never holds three newlines in a row, has the same other characters as the entries rendered in dict order, and is that rendering whenever it has no such run |
| TicketText.EmptyBodyCollapses | src/utils/utils_historic_tickets.py:89-90 | a flat entry with an empty body ends in two newlines, not three |
| TicketText.ProcessDescription | src/utils/utils_historic_tickets.py:144-160 | a description is rejected exactly when neither marker occurs, the threshold is on and the stripped text is at most 150 characters; unformatted text is returned stripped of addresses; formatted text never holds three newlines in a row |
| TicketText.Format1First | src/utils/utils_historic_tickets.py:146-148 | the first format wins when both markers occur |
| TicketText.Format2Second | src/utils/utils_historic_tickets.py:150-152 | without the first marker, the second format is parsed whatever the length |
| TicketText.NoMinLengthNeverRejects | src/utils/utils_historic_tickets.py:154 | without the threshold no description is rejected |
| TicketText.ProcessDescriptionPerRow | src/utils/utils_historic_tickets.py:108 | the per-row variant raises exactly when the row has no description |
| TicketText.PerRowIsProcessDescription | src/utils/utils_historic_tickets.py:108-125 | for a row with a description, the per-row variant is the general one with the threshold on |
| DateTimeOffset.Unpack | src/utils/utils_db.py:53 | unpacking succeeds exactly on 20 bytes and yields six signed 16-bit fields, one unsigned 32-bit field and two signed 16-bit fields |
| DateTimeOffset.UnpackPack | src/utils/utils_db.py:53 | packing and unpacking gives the fields back |
| DateTimeOffset.PackUnpack | src/utils/utils_db.py:53 | unpacking and packing gives the 20 bytes back, so no two byte strings decode alike |
| DateTimeOffset.HandleDateTimeOffset | src/utils/utils_db.py:50-55 | the conversion fails exactly when the input is not 20 bytes long |
| DateTimeOffset.RenderSpec | src/utils/utils_db.py:55 | fields that fit their widths render in the fixed 34-character layout and read back unchanged |
| DateTimeOffset.HandleDateTimeOffsetSpec | src/coordinator/utils.py:183-188 | a decoded value whose fields fit renders in the fixed layout; every field reads back unchanged except the fraction, which reads back divided by 100 |
| DateTimeOffset.OffsetHourWidth | src/utils/utils_db.py:55 | an offset hour of at most two digits takes three characters, the first its sign |
| DateTimeOffset.CommentExample | src/utils/utils_db.py:52 | the value in the source's comment, with its negative offset, renders as `2017-03-16 10:35:18.0000000 -06:00` |
| Decimal.FormatIntRoundTrip | src/utils/utils_db.py:55 | every zero-padded field reads back as its value |
| Decimal.FormatIntWidth | src/utils/utils_db.py:55 | a padded field is at least its width long, and exactly that long when sign and digits fit; it starts with a sign when one is asked for |
| Decimal.DecimalRoundTrip | src/utils/utils_db.py:55 | reading a decimal numeral back gives the number |
| RetrievedContext.Lookup | src/app_coordinator_function.py:33-34 | indexing a row succeeds exactly when the key is present, gives its value, and otherwise raises an error naming the key |
| RetrievedContext.MapResult | src/app_coordinator_function.py:35-41 | a comprehension succeeds exactly when every element does, keeping length, order and values |
| RetrievedContext.MapResultFirstError | src/app_coordinator_function.py:35-41 | a failed comprehension reports the error of the first element that raises |
| RetrievedContext.ProjectManual | src/app_coordinator_function.py:36-41 | a chunk projects exactly when it has the four keys, into an entry with those keys in order and the chunk's values |
| RetrievedContext.ProcessContextOk | src/app_coordinator_function.py:23-42 | the projection succeeds exactly when both lists exist and every row has the keys read from it |
| RetrievedContext.ProcessContextSteps | src/app_coordinator_function.py:35-36 | the tickets are projected first: their error is the one reported |
| RetrievedContext.ProcessContextError | src/app_coordinator_function.py:33-41 | a failed projection names a key missing from some ticket or some manual chunk |
| RetrievedContext.ProcessContextValues | src/app_coordinator_function.py:35-42 | a successful projection keeps both lists' length and order; tickets become their `ticketId`, and chunks become dicts with exactly the four keys and the chunk's values |
| RetrievedContext.OtherFieldsDropped | src/app_coordinator_function.py:33-42 | every other field of a row is dropped: inputs that agree on the keys read give the same result |

## Left out

- PyMuPDF, docling, langdetect and unstructured are not modelled; each is foreign code. Their outputs are inputs here:
  - per-page facts: detected language, word count, the regex flags, the number of dotted lines;
  - the PDF outline and the dotted TOC lines with their font sizes;
  - the docling item stream;
  - the HTML element stream.
- The regular expressions that inspect page text, e-mail addresses and ticket headlines are not modelled; their match results are inputs. The model checks only which spans a substitution can receive.
- `IsDigit` and `Lower` are ASCII-only. Python's `\d` and `str.lower` also cover non-ASCII digits and letters.
- `get_fullpage_tables` measures tables with a rounded floating-point ratio against the first page's size. That test is a predicate parameter, so only the set logic is modelled.
- Tables are rendered to Markdown by pandas. The model takes each table's rendered text as its `text`.
- The SQL statement is never executed. pgvector distance, `ts_rank_cd` and the body of `rrf_score` are not modelled; `rrf_score` is a function parameter.
- `RankFusion.SortByScore` fixes one order among rows with equal scores. The database may return ties in any order, so `RankFusion.FuseSpec` states only what holds for every order.
- RankFusion.FuseSpec: the overall `limit` is a natural number. What the database does with a negative `LIMIT` is not modelled; the statement itself renders any integer.
- `DateTimeOffset.RenderSpec` and `DateTimeOffset.HandleDateTimeOffsetSpec` cover only fields that fit their padded widths. Wider values make the rendered string longer, as Python's `format` does. `Decimal.FormatIntWidth` states that case, and the layout is not claimed for it.
- HtmlLinearizer.TitleMarker: a title's `category_depth` is a natural number. The source raises `KeyError` when the depth is missing and `TypeError` when it is `None`, and renders no hashes for a depth of -1 or less; these error paths and negative depths are not modelled, since the element metadata comes from the HTML partitioner, which is foreign code.
- The `stringify_list` of src/ingestor/html_util.py:10-11 is not modelled. It has no return statement, always yields `None`, and nothing calls it.
- The `in_list` flag of `elements_to_text` is not modelled, because it is written but never read.
- A non-string description, such as pandas' NaN, is not modelled. Descriptions are strings.
- LLM and embedding calls, prompt templates, database writes and connection setup are not part of this model: they are network and database I/O. So are the Selenium scraper, the HTTP app, orchestration, the manual download stub and the pandas preprocessing.
- Logging `print`s on failed language detection are not modelled; they have no effect on the result.
