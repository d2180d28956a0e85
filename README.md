# FPPC opinion search: a verified model of the backend and frontend rules

This project models the rules at the heart of the FPPC advisory-opinion search application.
On the FastAPI backend these are:

- the query tokenizer and the statute/regulation citation extractor;
- the `/api/search` filtering, pagination, ranking and conclusion truncation;
- the `/api/filters` option vocabulary;
- the `/api/opinions/{id}` outcome, detail assembly and PDF link;
- the in-memory metadata index built at startup;
- the token-bucket rate limiter;
- the three JSON error handlers.

On the React frontend they are:

- the pagination strip;
- the year-range filter;
- the statute combobox;
- the opinion header, body and sidebar;
- the result card and the results list;
- the search box;
- topic formatting.

There is one Dafny module per source file:

| module | models |
|---|---|
| `Tokenize`, `Citations` | `backend/search/utils.py` |
| `Search` | `backend/routers/search.py` |
| `Filters` | `backend/routers/filters.py` |
| `Opinions` | `backend/routers/opinions.py` |
| `Metadata` | `backend/metadata.py` |
| `RateLimit` | `backend/middleware.py` |
| `Exceptions` | `backend/exceptions.py` |
| `Pagination` | `Pagination.jsx` |
| `DateRange` | `DateRangeFilter.jsx` |
| `StatuteFilter` | `StatuteFilter.jsx` |
| `OpinionHeader` | `OpinionHeader.jsx` |
| `OpinionBody` | `OpinionBody.jsx` |
| `OpinionSidebar` | `OpinionSidebar.jsx` |
| `ResultCard` | `ResultCard.jsx` |
| `ResultsList` | `ResultsList.jsx` |
| `SearchBar` | `SearchBar.jsx` |
| `Formatting` | `utils.js` |

`Common` holds shared helpers:

- the `Option` type and JavaScript/Python truthiness of optional strings;
- ASCII character classes and case mapping;
- `Join` with its length and end lemmas;
- whitespace trimming.

Where the source changes state step by step, so does the model:

- **Loops become `while`/`for` loops with invariants, proved against specification functions:**
  - the four de-duplicating passes of `parse_query_citations`;
  - the filter and rank loops of `search`;
  - the `years` loop;
  - the `getPageNumbers` loop;
  - the topic-merging loop of the header;
  - the message loop of the validation handler;
  - the directory walk of `build_metadata_index`.
- **Objects updated in place become classes:**
  - the rate limiter's bucket table;
  - the metadata index;
  - the combobox state cells;
  - the search box's input.

Every regular expression is a hand-written recognizer at a position. A `finditer`-style scan (`Citations.FindAll`) tries it at each index and resumes at the end of each match.

## Model

| member | source | states |
|---|---|---|
| Tokenize.TokensWellFormed | backend/search/utils.py:40-46 | every token is non-empty, uses only `a`-`z`, `0`-`9` and `-`, and is not a stopword |
| Tokenize.Squash | backend/search/utils.py:37 | after replacing the runs of non-token characters, only token characters and single spaces remain |
| Tokenize.DropStopwords | backend/search/utils.py:46 | the kept tokens come from the input and are not stopwords; a list without stopwords is kept whole |
| Tokenize.SplitWords | backend/search/utils.py:45 | every word of the whitespace split is non-empty and consists of non-whitespace characters of the text |
| Tokenize.WordKept | backend/search/utils.py:40-46 | a single lower-case token that is not a stopword tokenizes to itself |
| Tokenize.NegationsKept | backend/search/utils.py:15-32 | "not" and "no" survive tokenization because the stopword set leaves them out |
| Tokenize.DigitLedNotStopword | backend/search/utils.py:15-32 | no word starting with a digit is a stopword |
| Tokenize.MergeSubsectionAt | backend/search/utils.py:35 | digits followed by a parenthesised letter or digit lose the two parentheses, and the rest of the text is merged on its own |
| Tokenize.SubsectionMerged | backend/search/utils.py:35-46 | any digits-then-`(x)` query, such as `87103(a)`, becomes the one token `87103a` |
| Tokenize.SquashJoin | backend/search/utils.py:37 | a space-joined list of tokens has nothing for the separator replacement to change |
| Tokenize.SplitJoin | backend/search/utils.py:45 | splitting a space-joined list of tokens gives the list back |
| Tokenize.TokenizeJoined | backend/search/utils.py:40-46 | a list of tokens without stopwords survives a join-then-tokenize round trip |
| Tokenize.TokenizeIdempotent | backend/search/utils.py:40-46 | tokenizing the space-joined output of `tokenize` returns the same list |
| Citations.PrefixedStatuteAt | backend/search/utils.py:54-58 | a match of the prefixed statute pattern is `Section`/`Gov Code`, whitespace, 3-5 digits and an optional `(x)`; it reports base and subsection |
| Citations.PrefixedRegulationAt | backend/search/utils.py:61-65 | a match of the prefixed regulation pattern reports the 4-5 digit number with its optional decimal part |
| Citations.BareStatuteAt | backend/search/utils.py:69-71 | the bare statute pattern at a word boundary, with a trailing `(x)` kept as the subsection (corrected form) |
| Citations.BareStatuteAtAsWritten | backend/search/utils.py:69-71 | the bare statute pattern as written: a match ends inside the text and after its start |
| Citations.BareRegulationAt | backend/search/utils.py:74 | a bare regulation match is an `18xxx` number, optionally with a decimal part, between word boundaries |
| Citations.RegulationCitation | backend/search/utils.py:102-104 | a regulation number splits at its first `.` into a base without dots and a subsection that is empty or starts with `.` |
| Citations.DedupPass | backend/search/utils.py:91-98 | one pass appends each scanned citation whose `raw` is unseen; the list and the seen set are those of de-duplicating the concatenated scans |
| Citations.ParseQueryCitations | backend/search/utils.py:77-128 | (with the corrected bare-statute pattern) the four passes return the de-duplicated prefixed-then-bare statute list and the de-duplicated prefixed-then-bare regulation list |
| Citations.DedupDistinct | backend/search/utils.py:96-97 | no two kept citations share a `raw` |
| Citations.DedupRaws | backend/search/utils.py:96-98 | every kept citation comes from the input, and every `raw` of the input is kept |
| Citations.DedupKeepsFirst | backend/search/utils.py:96-98 | the citation kept for a `raw` is its first occurrence |
| Citations.EarlierPassFirst | backend/search/utils.py:109-117 | the results of an earlier pass come first and unchanged; a later pass only adds citations whose `raw` the earlier ones lack |
| Citations.ParsedCitationsDeduplicated | backend/search/utils.py:86-128 | (with the corrected bare-statute pattern) both lists have distinct `raw`s and hold exactly the `raw`s of their two passes; prefixed matches come first and a bare match already captured is dropped |
| Citations.ParsedStatuteShapes | backend/search/utils.py:93-117 | (with the corrected bare-statute pattern) every statute citation has `raw == base + subsection`, a 3-5 digit base and a subsection `""` or `(x)`; one not from the prefixed pass has an FPPC statute number |
| Citations.ParsedRegulationShapes | backend/search/utils.py:102-126 | every regulation citation has `raw == base + subsection`, a 4-5 digit base and a subsection `""` or `.` plus digits; one not from the prefixed pass is in 18000-18999 |
| Citations.FindAllShapes | backend/search/utils.py:92-126 | every citation a scan yields has the shape of its pattern |
| Citations.BareStatuteAlternatives | backend/search/utils.py:70 | the bare statute alternation accepts exactly the numbers 81000-90999, 91014 and 1090-1097, preferring five digits |
| Citations.FiveDigitRange | backend/search/utils.py:70 | `8[1-9]\d{3}`, `90\d{3}` and `91014` together accept exactly 81000-90999 and 91014 |
| Citations.FourDigitRange | backend/search/utils.py:70 | `109[0-7]` accepts exactly 1090-1097 |
| Citations.BareRegulationRange | backend/search/utils.py:74 | `18\d{3}` accepts exactly 18000-18999 |
| Citations.RegulationSplit | backend/search/utils.py:102-104 | a digits-then-decimal number splits into exactly those two parts |
| Citations.SubsectionLostAsWritten | backend/search/utils.py:69-71 | as written, the query `87103(a)` (any FPPC number and subsection) yields only the bare `87103` |
| Citations.SubsectionKept | backend/search/utils.py:69-71 | corrected, the same query yields `87103(a)` with base and subsection |
| Citations.BareSubsectionDroppedAsWritten | backend/search/utils.py:69-71 | as written, the bare scan of a number followed by `(x)` at the end of the text drops the subsection |
| Citations.BareSubsectionKept | backend/search/utils.py:69-71 | corrected, the same scan keeps the subsection |
| Citations.PrefixedSubsectionDuplicatedAsWritten | backend/search/utils.py:54-71 | as written, `Section 87103(a)` yields `87103(a)` and a second, bare `87103`; corrected, it yields only `87103(a)` |
| Citations.AsWrittenDeduplicated | backend/search/utils.py:86-117 | as written (uncorrected bare-statute pattern), the Government Code list still has distinct `raw`s, exactly the `raw`s of its prefixed and bare passes, prefixed matches first |
| Search.TruncateSpec | backend/routers/search.py:12-20 | an absent, empty or short text comes back as is; otherwise it is cut before the last space inside the limit (at the limit when there is none past index 0) and "..." is appended |
| Search.TruncateBounds | backend/routers/search.py:12-20 | a truncated text is at most three characters over the limit and starts with the original's first characters |
| Search.RFind | backend/routers/search.py:17 | the index of the last occurrence of the character, or -1 when it does not occur |
| Search.FiltersApplied | backend/routers/search.py:34-42 | exactly the supplied filters, in the order topic, statute, year start, year end: a non-empty topic or statute, a present year |
| Search.FilteredMembers | backend/routers/search.py:62-78 | an entry is kept exactly when its id comes from the engine, has metadata and passes every supplied filter, year bounds inclusive |
| Search.FilteredAppend | backend/routers/search.py:62-78 | filtering keeps the engine's order |
| Search.FilteredLength | backend/routers/search.py:62-78 | filtering never lengthens the list |
| Search.PageOf | backend/routers/search.py:83-84 | the slice `[start:start+perPage]`, clamped at the end, with at most `perPage` items |
| Search.TopicsOf | backend/routers/search.py:89-93 | the present primary and secondary topics, in that order |
| Search.ResultOf | backend/routers/search.py:94-106 | a result row carries the id, the metadata fields, the truncated conclusion, the topics, the statutes and the rank |
| Search.ResultConclusion | backend/routers/search.py:101 | a row's conclusion is the truncated conclusion under the default limit of 300 |
| Search.Results | backend/routers/search.py:87-107 | one row per page item, in order, ranked consecutively from the first rank |
| Search.FilterIds | backend/routers/search.py:62-78 | the filtering loop returns exactly the filtered list |
| Search.RankPage | backend/routers/search.py:87-107 | the ranking loop returns exactly the ranked rows |
| Search.SearchOpinions | backend/routers/search.py:24-116 | a blank query returns total 0 and no results with the raw query echoed; otherwise the total is the filtered count and the results are the ranked page |
| Search.SearchResultsSatisfyFilters | backend/routers/search.py:62-107 | every result is an engine id with metadata passing all filters, ranks run from `(page-1)*perPage+1`, and a page holds at most `perPage` rows |
| Search.SearchPageSize | backend/routers/search.py:80-84 | a page holds `perPage` rows when full, the remainder on the last page and none past the end |
| Pagination.TotalPagesIsCeiling | frontend/src/components/Pagination.jsx:2 | the page count is the least number of pages holding all results; it is 0 exactly when there are none |
| Pagination.Nums | frontend/src/components/Pagination.jsx:7-9 | the consecutive page numbers of a range, empty when the range is |
| Pagination.PageStrip | frontend/src/components/Pagination.jsx:6-26 | with at most seven pages the strip is exactly pages 1 to `totalPages` |
| Pagination.GetPageNumbers | frontend/src/components/Pagination.jsx:6-26 | the push loop builds exactly the specified strip |
| Pagination.LongStripParts | frontend/src/components/Pagination.jsx:11-24 | a long strip is 1, an optional ellipsis, a run of one to three pages strictly inside, an optional ellipsis and the last page |
| Pagination.LongStripEnds | frontend/src/components/Pagination.jsx:11-24 | a long strip has at most seven entries, starts at 1, ends at `totalPages`, leads with an ellipsis iff `page > 3` and trails with one iff `page < totalPages - 2` |
| Pagination.LongStripOrder | frontend/src/components/Pagination.jsx:7-25 | a long strip contains the current page; its numbers increase strictly and are consecutive unless an ellipsis separates them |
| Pagination.AssembleShape | frontend/src/components/Pagination.jsx:11-24 | an ellipsis sits exactly where pages are skipped |
| Pagination.PrevRequest | frontend/src/components/Pagination.jsx:38-39 | Prev is enabled iff `page > 1` and asks for `page - 1`, which stays in range |
| Pagination.NextRequest | frontend/src/components/Pagination.jsx:66-67 | Next is enabled iff `page < totalPages` and asks for `page + 1`, which stays in range |
| Pagination.SomeNavigationEnabled | frontend/src/components/Pagination.jsx:4-67 | whenever the strip shows, Prev or Next is enabled |
| DateRange.Years | frontend/src/components/DateRangeFilter.jsx:2-5 | the years `yearMin` to `yearMax`, ascending and inclusive; empty when `yearMin > yearMax` |
| DateRange.FromChange | frontend/src/components/DateRangeFilter.jsx:7-14 | the start takes the choice; the end changes only when set and earlier, and then becomes the choice; the range is never inverted |
| DateRange.ToChange | frontend/src/components/DateRangeFilter.jsx:16-23 | the end takes the choice; the start changes only when set and later, and then becomes the choice; the range is never inverted |
| DateRange.EditsNeverInvert | frontend/src/components/DateRangeFilter.jsx:7-23 | after any sequence of at least one edit the range is not inverted |
| RateLimit.Refilled | backend/middleware.py:31-34 | the refilled tokens are the stored ones plus rate times elapsed time, capped at capacity, and never fewer than before |
| RateLimit.Decide | backend/middleware.py:35-39 | allowed iff at least one token is available; an allowed request spends one; the bucket records the time |
| RateLimit.DecideInRange | backend/middleware.py:34-38 | tokens within `[0, capacity]` stay there under a decision at a later time |
| RateLimit.BurstFromTokens | backend/middleware.py:23-39 | with `k` whole tokens and no time passing, exactly `k` requests are allowed and the next is denied |
| RateLimit.RateLimiter.constructor | backend/middleware.py:23-28 | a new limiter has the given capacity and rate and no buckets |
| RateLimit.RateLimiter.Allow | backend/middleware.py:30-39 | a new key starts full; the decision is made on the key's bucket; only that key's bucket changes; the tokens stay in range |
| RateLimit.RateLimiter.Reset | backend/middleware.py:41-42 | every bucket is forgotten |
| RateLimit.CheckRateLimit | backend/middleware.py:48-51 | requests are keyed by client address or "unknown"; a denied request is rejected with 429 "Rate limit exceeded" |
| Metadata.RemoveSuffix | backend/metadata.py:72 | the suffix is dropped exactly when the string ends with it |
| Metadata.MetaOf | backend/metadata.py:72-105 | the summary of a file: question and conclusion fall back to their synthetic variants, year and lists default |
| Metadata.Bump | backend/metadata.py:111-113 | incrementing a counter: an existing key keeps its place, a new key is appended with count 1 |
| Metadata.BumpCount | backend/metadata.py:111-113 | an increment adds one to the key's count, keeps the keys distinct and leaves the others |
| Metadata.BumpAllCount | backend/metadata.py:112-113 | counting a list keeps the keys distinct and adds to each key's count the number of times it is listed |
| Metadata.Finish | backend/metadata.py:121-128 | the totals are taken from the walk, and the year bounds become 0 and 0 when nothing was loaded |
| Metadata.FoldIds | backend/metadata.py:72-107 | the id map holds exactly the earlier ids and those of the loaded files |
| Metadata.FoldLastWins | backend/metadata.py:107 | for an id, the summary kept is that of the last loaded file with that id |
| Metadata.FoldTopics | backend/metadata.py:110-111 | each topic counts the loaded files with it as their non-empty primary topic |
| Metadata.FoldStatutes | backend/metadata.py:112-113 | each section counts its listings among the loaded files, repeats included |
| Metadata.FoldYears | backend/metadata.py:115-119 | only non-zero years move the bounds; the minimum is at most, and the maximum at least, every one seen; each is its start value or a seen year |
| Metadata.FoldSkipsUnloaded | backend/metadata.py:62-70 | files that are not `.json` or do not parse change nothing |
| Metadata.BuiltIndex | backend/metadata.py:57-128 | the finished index holds the loaded ids and counts; the total is the number of distinct ids; the year bounds cover the non-zero years, or are 0 and 0 when nothing loaded |
| Metadata.BuiltWithoutDataDir | backend/metadata.py:53-55 | without a data directory the defaults remain, including year bounds 9999 and 0 |
| Metadata.MetadataIndex.constructor | backend/metadata.py:36-43 | the dataclass defaults |
| Metadata.Ingest | backend/metadata.py:62-119 | one walked file updates the index and counters exactly as one fold step |
| Metadata.IngestAll | backend/metadata.py:61-119 | the inner loop updates the index and counters as the fold over the directory's files |
| Metadata.BuildMetadataIndex | backend/metadata.py:46-128 | the built index equals the specified index for the given directory listing |
| Filters.SortDescending | backend/routers/filters.py:21-34 | the sorted options have non-increasing counts |
| Filters.SortStable | backend/routers/filters.py:21-34 | entries of equal count keep their counter order |
| Filters.InsertWithCount | backend/routers/filters.py:21-22 | one insertion step places the entry before its equal-count entries and leaves other counts' entries |
| Filters.Title | backend/routers/filters.py:18 | title-casing keeps the length and non-letters, upper-cases each word's first letter and lower-cases the rest |
| Filters.TopicLabelShape | backend/routers/filters.py:18 | a topic label has the topic's length, spaces for underscores, and otherwise the topic's letters, title-cased |
| Filters.TitleIdempotent | backend/routers/filters.py:18 | title-casing twice is title-casing once |
| Filters.StatuteLabel | backend/routers/filters.py:30 | a statute label is "Section " followed by the section |
| Filters.Options | backend/routers/filters.py:15-36 | one option per counter entry, in order, with value, label and count |
| Filters.GetFiltersSpec | backend/routers/filters.py:15-44 | one option per counter entry with its count, most frequent first, ties in counter order; labels as above; year range and total passed through |
| Opinions.Utf8RoundTrip | backend/routers/opinions.py:98 | UTF-8 decoding inverts the encoding `quote` applies first |
| Opinions.QuoteBytesAlphabet | backend/routers/opinions.py:98 | a quoted string contains only unreserved characters, `/`, `%` and upper-case hex digits |
| Opinions.QuoteBytesRoundTrip | backend/routers/opinions.py:98 | percent-decoding inverts the percent-encoding of any bytes |
| Opinions.QuoteRoundTrip | backend/routers/opinions.py:98 | unquoting a quoted string gives the string back |
| Opinions.RemovePrefix | backend/routers/opinions.py:97 | one leading occurrence of the prefix is dropped, and only when present |
| Opinions.BuildPdfUrlSpec | backend/routers/opinions.py:92-101 | with a base and a local path: trimmed base, `/`, and an encoded tail decoding to the path less one `raw_pdfs/`; otherwise the record's `pdf_url` |
| Opinions.CitedList | backend/routers/opinions.py:50-63 | one entry per cited id, in order, flagged exactly when the corpus has it |
| Opinions.GetOpinionSpec | backend/routers/opinions.py:20-89 | 404 exactly for an unknown id; 500 exactly when its file cannot be loaded; otherwise the detail: id and number from the path, year defaulting to 0, question and conclusion falling back to their synthetic versions, tag, code and regulation lists copied or `[]`, every other field copied, prior and citing opinions in order with their in-corpus flags, and the PDF URL |
| StatuteFilter.FindStatute | frontend/src/components/StatuteFilter.jsx:11 | the first statute with the value, present iff one exists |
| StatuteFilter.SelectedItem | frontend/src/components/StatuteFilter.jsx:10-12 | the selected statute exists iff the value is set and names a listed statute |
| StatuteFilter.MatchingMembers | frontend/src/components/StatuteFilter.jsx:31-38 | a statute matches iff listed and its value or label contains the input, ignoring case |
| StatuteFilter.MatchingAppend | frontend/src/components/StatuteFilter.jsx:31-38 | matching keeps the original order |
| StatuteFilter.SuggestionsSpec | frontend/src/components/StatuteFilter.jsx:31-38 | none while the input is empty or a statute is selected; otherwise the first ten matches in order, all when at most ten |
| StatuteFilter.MoveHighlight | frontend/src/components/StatuteFilter.jsx:68-73 | arrows move the highlight by one, clamped to the list |
| StatuteFilter.ArrowsStayInRange | frontend/src/components/StatuteFilter.jsx:68-73 | any run of arrow keys keeps the highlight on a listed suggestion |
| StatuteFilter.Combobox.constructor | frontend/src/components/StatuteFilter.jsx:3-18 | mounting runs the sync effect once: the input shows the label of the statute the value names, or is empty when the value is empty or unlisted; the list is closed and the highlight is 0 |
| StatuteFilter.Combobox.SyncInput | frontend/src/components/StatuteFilter.jsx:15-18 | no value empties the input; a known value shows its label; an unknown value leaves the input |
| StatuteFilter.Combobox.ReceiveProps | frontend/src/components/StatuteFilter.jsx:15-18 | new props run the sync effect only when the value or the selected statute changed |
| StatuteFilter.Combobox.HandleInputChange | frontend/src/components/StatuteFilter.jsx:40-49 | the input takes the text, the list opens iff it is non-empty, the highlight resets, a selection is cleared |
| StatuteFilter.Combobox.HandleSelect | frontend/src/components/StatuteFilter.jsx:51-55 | asks for the statute's value, shows its label, closes the list |
| StatuteFilter.Combobox.HandleClear | frontend/src/components/StatuteFilter.jsx:57-61 | asks for no statute, empties the input, closes the list |
| StatuteFilter.Combobox.HandleFocus | frontend/src/components/StatuteFilter.jsx:99 | focusing reopens the list when there is text and no selection |
| StatuteFilter.Combobox.HandleHover | frontend/src/components/StatuteFilter.jsx:134 | hovering highlights the suggestion |
| StatuteFilter.Combobox.HandleKeyDown | frontend/src/components/StatuteFilter.jsx:63-80 | closed or empty: only Escape acts; arrows move the highlight; Enter selects the highlighted suggestion; Escape closes |
| OpinionHeader.SeedTopics | frontend/src/components/OpinionHeader.jsx:22-24 | the primary topic first when present, then the secondary when present and different |
| OpinionHeader.AddNewMembers | frontend/src/components/OpinionHeader.jsx:25-29 | a topic is listed iff it was before or is a tag |
| OpinionHeader.AddNewDistinct | frontend/src/components/OpinionHeader.jsx:25-29 | appending only absent tags keeps the list free of repeats |
| OpinionHeader.AddNewPrefix | frontend/src/components/OpinionHeader.jsx:25-29 | tags are only appended |
| OpinionHeader.TopicsSpec | frontend/src/components/OpinionHeader.jsx:22-29 | no repeats; exactly the present topics and the tags; the primary first when present |
| OpinionHeader.CombineTopics | frontend/src/components/OpinionHeader.jsx:22-29 | the push loop builds exactly the specified topics |
| OpinionHeader.Statutes | frontend/src/components/OpinionHeader.jsx:32-35 | the code sections followed by the regulations |
| OpinionHeader.RequestorLine | frontend/src/components/OpinionHeader.jsx:38-39 | absent iff no part is present; otherwise the present parts joined by ", " |
| OpinionHeader.Header | frontend/src/components/OpinionHeader.jsx:22-84 | the chips and line as above; the download link exactly when `pdf_url` is non-empty |
| ResultCard.Card | frontend/src/components/ResultCard.jsx:15-66 | headline question else conclusion; conclusion below only under a question; the first three statutes shown and the rest counted; link to the opinion |
| ResultsList.View | frontend/src/components/ResultsList.jsx:20-59 | five skeletons while loading; a no-results message (mentioning filters iff any) for an empty list; nothing before a search; one card per result keyed by id |
| OpinionBody.Split | frontend/src/components/OpinionBody.jsx:3 | splitting at runs of two or more newlines leaves no piece with two newlines in a row |
| OpinionBody.SplitJoin | frontend/src/components/OpinionBody.jsx:3 | splitting plain pieces joined by blank lines gives them back |
| OpinionBody.Paragraphs | frontend/src/components/OpinionBody.jsx:1-10 | no paragraph is empty or contains a newline |
| OpinionBody.ParagraphsOfJoin | frontend/src/components/OpinionBody.jsx:1-10 | single-line paragraphs joined by blank lines render as exactly those paragraphs |
| OpinionBody.ShownFrom | frontend/src/components/OpinionBody.jsx:35 | the sections with text, in ascending order |
| OpinionBody.Body | frontend/src/components/OpinionBody.jsx:12-36 | nothing iff no section has text; the caveat iff the format is known non-standard; sections with text in order, only the first styled first |
| OpinionBody.BodySections | frontend/src/components/OpinionBody.jsx:12-36 | headings in the fixed order, shown iff their section has text, exactly one first |
| OpinionSidebar.CitationList | frontend/src/components/OpinionSidebar.jsx:3-26 | "None" iff empty; otherwise each citation in order, a link to its page iff it is in the corpus |
| OpinionSidebar.Sidebar | frontend/src/components/OpinionSidebar.jsx:31-78 | nothing iff no citations and no counts; each block iff it has content; counts shown when known, zero included; a divider iff both blocks show |
| SearchBar.SearchBox.constructor | frontend/src/components/SearchBar.jsx:4 | the input starts as the given query |
| SearchBar.SearchBox.ReceiveValue | frontend/src/components/SearchBar.jsx:6-8 | a changed query overwrites the input |
| SearchBar.SearchBox.Type | frontend/src/components/SearchBar.jsx:36 | typing changes only the input |
| SearchBar.SearchBox.Submit | frontend/src/components/SearchBar.jsx:10-16 | a search starts iff the trimmed input is non-empty, for the input with only its end whitespace removed |
| Formatting.FormatTopicShape | frontend/src/utils.js:12 | same length, no underscores, a space for each, each run's first character upper-cased, nothing else changed and nothing lower-cased |
| Formatting.FormatTopicIdempotent | frontend/src/utils.js:12 | formatting twice is formatting once |
| Formatting.FormatDate | frontend/src/utils.js:1-9 | nothing for a missing or empty date; otherwise the locale formatting of that date at midnight |
| Exceptions.HttpErrorBody | backend/exceptions.py:16-20 | the status is kept; the error is the detail or "Request error"; detail null |
| Exceptions.UnhandledErrorBody | backend/exceptions.py:36-41 | 500, "Internal server error", detail null |
| Exceptions.NatDecimal | backend/exceptions.py:27 | the shortest decimal digits of a natural number |
| Exceptions.Message | backend/exceptions.py:27-28 | the location line, ": ", then the message |
| Exceptions.ValidationErrorBody | backend/exceptions.py:23-33 | 422, "Validation error", and the messages in order joined by "; " |
| Exceptions.ValidationDetailShape | backend/exceptions.py:24-29 | the detail is empty iff there are no errors; otherwise it starts with the first message, ends with the last, and has every message plus one separator between neighbours |

## Left out

- Search engine: the engine that ranks ids for a query is foreign code. Its result list is a parameter of `Search.SearchOpinions`, and for a blank query it is not consulted.
- File system and JSON:
  - The directory walk and file reading of `build_metadata_index` are inputs: a flag for whether the data directory exists, and a sorted list of directory entries with already-parsed content (`None` for a file that failed to parse).
  - The file read in `get_opinion` is a `read` function parameter.
  - A JSON `null` stored under a key is treated like an absent key. `dict.get` with a default is modelled with the default.
- Logging, timing and the request-logging middleware are not modelled; nothing they do affects a result.
- Clock and arithmetic: in the rate limiter, time is a real-valued parameter and tokens are exact reals. Floating-point rounding and `time.monotonic` are not modelled.
- FastAPI:
  - The `ge`/`le` checks on `page` and `per_page` are the precondition `ValidParams`.
  - Routing, dependency injection and the registration of the exception handlers (`register_exception_handlers`) are not modelled.
- Character handling:
  - Case-insensitive matching and the regex character classes are ASCII only. Python's `\d`, `\w` and `str.lower` also accept non-ASCII digits and letters.
  - Python's whitespace for `str.split`/`strip` and JavaScript's whitespace for `trim` are fixed character sets.
- Opinions.DecodeFirst: overlong UTF-8 forms are not rejected. Only the round trip from strings is claimed, and it does not depend on this.
- Formatting.FormatDate: `Date` and `toLocaleDateString` are a function parameter. Every `toLocaleString` count format is left out.
- Frontend rendering: JSX markup, CSS classes, scroll-into-view, the outside-click listener and routing are not modelled.
- Callbacks:
  - The parents that receive `onChange`/`onSearch` calls are not shown. A requested change is therefore the handler's return value: `Option<Option<string>>` for the combobox, `Option<string>` for the search box.
  - The year-range handlers return the new range.
- `parseInt` of the select values in the year filter is left out: the handlers take the parsed year.
- Tests that disagree with the code are not modelled:
  - Repeated `topic` parameters.
  - Engine errors turned into empty results.
  - Rate-limit and validation responses that rely on wiring `main.py` does not do.
- Not in this model:
  - The query-state controller of the search page.
  - `TopicFilter.jsx`, `FilterBar.jsx`, `SearchLanding.jsx`, `Layout.jsx` and `App.jsx`.
- Comment versus code: the comment on the bare statute pattern says "81000-91014". The pattern itself accepts 81000-90999 and 91014 only, and the model follows the pattern (`Citations.FppcStatuteNumber`).

## Findings

| source | as written | input that shows it | evidently intended | confidence | as-written member | corrected member |
|---|---|---|---|---|---|---|
| backend/search/utils.py:69-71 | The trailing `\b` after the optional `(x)` group cannot match between `)` and the end of the text or a non-word character. The engine therefore backtracks and matches the bare number without its subsection. | `87103(a)` gives `gov_code` = [`87103`]. `Section 87103(a)` gives [`87103(a)`, `87103`], a second, bare citation without the subsection. | A bare `87103(a)` is captured with subsection `(a)` (as the docstring's example shows), and a prefixed match is not repeated as a bare one. | not executed | Citations.BareStatuteAtAsWritten, Citations.SubsectionLostAsWritten, Citations.BareSubsectionDroppedAsWritten, Citations.PrefixedSubsectionDuplicatedAsWritten, Citations.AsWrittenDeduplicated | Citations.BareStatuteAt, Citations.SubsectionKept, Citations.BareSubsectionKept, Citations.ParseQueryCitations |
