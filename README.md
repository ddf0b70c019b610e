# carer-med-scraper, modelled in Dafny

carer-med-scraper keeps a library of medical-journal articles in three stages.

1. **Discovery.** The `crawl_page_*` crawlers work out which volume and issues of a journal are current from the calendar. They collect article links from the issue pages, drop the links the `article_links` table already holds, and insert the rest with status `pending`.
2. **Article passes.** The `crawl_article_*` passes read the pending links of a journal. For each one they scrape the page's metadata, normalise its date, authors, PDF link, volume and issue, and store an article row with `INSERT IGNORE`. Only after that do they flag the link `done`. Some passes also embed the texts and write vector rows to Milvus.
3. **Retrieval.** The embedding synchroniser (`merging_collections.py`) copies the article rows still waiting for embeddings into a merged vector collection. The retrieval layer (`rag.py`, `query_search.py`) searches these collections, fuses and de-duplicates the hits, turns time expressions into date ranges, and builds the prompt of the text-to-SQL chain.

The model has one module per concern:

- **State.** `Ledger` (the `article_links` table as a class over a map from link to row), `Metadata` (the article tables, keyed by url) and `Vectors` (collections, schemas, column layouts, the embedding fallback).
- **Passes.** `Passes` (the generic per-link pass), `Nephrology` (the Kidney International dual write and the JASN pass) and `Sync` (the synchroniser).
- **Retrieval.** `Fusion`, `TimeRange`, `Chat` and `QuerySearch`.
- **Pure helpers.** `Calendar`, `Strptime`, `ArticleDates`, `Extractors` (regex extractors) and `ArticleIds` (URL paths, article identifiers, section selection).
- **Discovery.** `IssueNumbers` (volume and issue arithmetic) and `Discovery` (filters, issue scans, crawlers).

Every state-changing method is proved against a function of the old state (`table.rows == InsertLinks(old(table.rows), …)`). Lemmas about those functions state what the program promises:

- idempotence;
- which links stay pending;
- write order;
- the duplicate a retry produces;
- round trips of the date formats.

Inputs the program gets from outside are parameters. They are modelled this way:

- **Pages:** the fetch outcome and the strings its selectors yield.
- **Models:** the sentence encoder, summariser and keyword extractor as functions.
- **Dates:** `datetime.now()` as a `Date`; `dateparser` as its parsed result.
- **Failures:** failure points as `fault`, `failAt` and `crashAt` arguments.
- **Ordering:** the iteration order of a Python `set` or a SQL result as `Enumeration.Enumerate`, which promises only the elements and no repetition.

The half-yearly volumes are `2 * year - K`, plus one from July. `IssueNumbers.HalfYearOffset` holds each journal's K:

| journal | K | lines |
|---|---|---|
| JAMA | 3717 | crawl_page/crawl_page_clinical_medicine.py:117-118 |
| ERJ | 3985 | crawl_page/crawl_page_pulmonology.py:74-75 |
| CHEST | 3883 | crawl_page/crawl_page_pulmonology.py:145-146 |
| Pediatrics | 3895 | crawl_page/crawl_page_pediatrics.py:81-82 |
| Kidney International | 3943 | crawl_page/crawl_page_nephrology.py:77-78 |
| AJKD | 3965 | crawl_page/crawl_page_nephrology.py:280-281 |
| JACC | 3965 | crawl_page/crawl_page_cardiology.py:117-118 |
| CID | 3970 | crawl_page/crawl_page_infectious.py:111-112 |
| JID | 3818 | crawl_page/crawl_page_infectious.py:173-174 |
| Blood | 3905 | crawl_page/crawl_page_hematology.py:37-38 |

The yearly volumes are `year - K`; `IssueNumbers.YearOffset` holds those constants.

## Model

| member | source | states |
|---|---|---|
| Text.FindFrom | crawl_article/crawl_article_psychiatry_sql.py:42-44 | `str.find` from a position: the first occurrence of the pattern at or after it, and None exactly when there is none |
| Text.ContainsIff | crawl_article/crawl_article_psychiatry_sql.py:42-44 | Python's substring `in` holds exactly when the pattern occurs at some position |
| Text.JoinSplit | crawl_article/crawl_article_psychiatry_sql.py:45 | `str.split(sep)` followed by `sep.join` gives the text back |
| Text.SplitPiecesFree | crawl_article/crawl_article_psychiatry_sql.py:26 | no piece of `str.split(sep)` contains the separator |
| Text.ReplaceIsSplitJoin | crawl_article/crawl_article_psychiatry_sql.py:43 | `str.replace(pat, rep)` is splitting at `pat` and joining with `rep` |
| Text.ReplaceAbsent | crawl_article/crawl_article_psychiatry_sql.py:43 | replacing a pattern that does not occur leaves the text unchanged |
| Text.NatToString | crawl_page/crawl_page_dermatology.py:39 | `str(n)` of a natural number: a non-empty digit string without leading zero that reads back as n |
| Text.Lower | crawl_page/crawl_page_immunology.py:326 | `lower()` keeps the length and lowers each character (ASCII) |
| Calendar.PrevDay | rag.py:105 | the day before a valid date is valid and one ordinal earlier (`- timedelta(days=1)`) |
| Calendar.SubDays | rag.py:102 | subtracting n days gives a valid date n ordinals earlier (`now - timedelta(days=7)`) |
| Calendar.OrdinalStrict | rag.py:101-109 | of two valid dates, the earlier in (year, month, day) order has the smaller ordinal |
| Calendar.PadValue | rag.py:102 | the zero-padded `%Y`, `%m`, `%d` fields read back as the number |
| Calendar.IsoFormat | rag.py:102 | the `%Y-%m-%d` text has 10 characters with dashes at positions 4 and 7 |
| Calendar.IsoRoundTrip | rag.py:102-103 | the `%Y-%m-%d` text of a valid date parses back to that date |
| Calendar.IsoMonthIsFirstDay | crawl_article/crawl_article_orthopedics_sql.py:208 | `strftime("%Y-%m") + "-01"` is the ISO text of the first day of that month |
| Strptime.MatchMonth | crawl_article/crawl_article_allergy_sql.py:18 | a `%B`/`%b` match names month m whose name opens the text (ASCII case-insensitively) and returns the rest; no match means no month name opens it |
| Strptime.CenturyOf | crawl_article/crawl_article_allergy_sql.py:18 | the `%y` pivot maps 00-99 onto 1969-2068, keeping the last two digits |
| Strptime.PivotInverse | crawl_article/crawl_article_allergy_sql.py:18 | each year 1969-2068 is the pivot's image of its last two digits |
| Strptime.ParseLongDate | crawl_article/crawl_article_infectious_sql.py:27 | `%B %d, %Y` only ever yields a valid date |
| Strptime.ParseMonthYear | crawl_article/crawl_article_allergy_sql.py:18-22 | `%B %Y` only ever yields a valid first day of a month |
| Strptime.ParseAbbrMonthYear | crawl_article/crawl_article_allergy_sql.py:18-22 | `%b %y` only ever yields a valid first day of a month in 1969-2068 |
| Strptime.NoMonthName | crawl_article/crawl_article_orthopedics_sql.py:197-201 | a text whose opening does not name a month is rejected by the month directive |
| Strptime.KeyDeterminesMonth | crawl_article/crawl_article_allergy_sql.py:18 | the first three letters of a matched month name determine the month, for full and abbreviated names alike |
| Strptime.LongDateRoundTrip | crawl_article/crawl_article_infectious_sql.py:27 | `%B %d, %Y` reads back every valid date from its "March 5, 2024" rendering |
| Strptime.MonthYearRoundTrip | crawl_article/crawl_article_allergy_sql.py:18-22 | `%B %Y` reads "March 2024" as the first day of that month |
| Strptime.AbbrRoundTrip | crawl_article/crawl_article_allergy_sql.py:18-22 | `%b %y` reads "Mar 24" as the first day of that month, for the years 1969-2068 |
| Strptime.PlaceholdersRejected | crawl_article/crawl_article_orthopedics_sql.py:197-210 | none of the three formats accepts the placeholders "2001/01/01" and "N/A" |
| ArticleDates.ConvertDateFormat | crawl_article/crawl_article_infectious_sql.py:25-29 | the result is the ISO form of the `%B %d, %Y` date when it parses, else the placeholder "2001/01/01" |
| ArticleDates.ConvertDateFormatCases | crawl_article/crawl_article_infectious_sql.py:25-29 | a full date becomes its ISO text; a month-and-year text and both placeholders become "2001/01/01" |
| ArticleDates.ParsePublicationDate | crawl_article/crawl_article_allergy_sql.py:16-26 | the result is an ISO date or the placeholder "2001/01/01" |
| ArticleDates.LongFormNotMonthYear | crawl_article/crawl_article_allergy_sql.py:18-24 | `%B %Y`, tried first, does not accept a full date, so the order of the formats cannot misread it |
| ArticleDates.MonthYearNotLongForm | crawl_article/crawl_article_allergy_sql.py:18-24 | `%B %d, %Y` does not accept a month-and-year text |
| ArticleDates.AbbrFormOnlyAbbr | crawl_article/crawl_article_allergy_sql.py:18-24 | neither four-digit-year format accepts "Mar 24", so it reaches `%b %y` |
| ArticleDates.PublicationDateCases | crawl_article/crawl_article_allergy_sql.py:16-26 | "March 2024" gives day 01; a full date keeps its day; the placeholder stays the placeholder |
| ArticleDates.PublicationDateAbbr | crawl_article/crawl_article_allergy_sql.py:18-24 | "Mar 24" gives day 01 of that month in the pivot's century |
| ArticleDates.MonthFallbackDate | crawl_article/crawl_article_orthopedics_sql.py:197-210 | the stored date is an ISO date or "N/A" |
| ArticleDates.MonthFallbackCases | crawl_article/crawl_article_orthopedics_sql.py:203-208 | a full date keeps its day, a month and year becomes day 01 (also crawl_article_jortho, lines 550-563) |
| ArticleDates.MonthFallbackPlaceholders | crawl_article/crawl_article_orthopedics_sql.py:197-201 | a missing tag (defaulting to "2001/01/01"), an empty text and "N/A" are stored as "N/A" |
| ArticleDates.JasnDate | crawl_article/crawl_article_nephrology_milvus.py:56-64 | the JASN date is an ISO date or "N/A" |
| ArticleDates.JasnDateCases | crawl_article/crawl_article_nephrology_milvus.py:56-64 | a missing date defaults to "2001/01/01", fails `%B %d, %Y` and is stored as "N/A"; a full date becomes ISO; a month and year becomes "N/A" |
| ArticleDates.JbjsDate | crawl_article/crawl_article_orthopedics_sql.py:62 | when the strict parse succeeds the result is an ISO date |
| ArticleDates.JbjsDateCases | crawl_article/crawl_article_orthopedics_sql.py:62 | a full date is stored as ISO; a missing tag reaches `strptime` as "N/A" and fails |
| Vectors.ZeroVector | crawl_page/utils.py:29 | exactly 768 entries, all 0.0 |
| Vectors.GenerateEmbedding | crawl_page/utils.py:20-31 | "N/A" or whitespace-only text gives 768 zeros; otherwise the encoder's vector, of length 768 when the encoder's is |
| Vectors.NothingToEmbedIgnoresEncoder | crawl_page/utils.py:28-29 | any two texts with nothing to embed get the same vector whatever the encoder |
| Vectors.TextIsEncoded | crawl_page/utils.py:30-31 | any other text gets exactly the encoder's output |
| Vectors.ArticleColumns | crawl_page/utils.py:45-53 | exactly 7 columns: title, abstract, authors and url as one-element lists, then the three embedding entries as given |
| Vectors.ArticleColumnsConform | crawl_page/utils.py:99-124 | the 7 columns fit the collection schema (4 texts of at most 65535 characters, 3 vectors of 768) exactly when the metadata is well formed |
| Vectors.ArticleColumnsRoundTrip | crawl_page/utils.py:45-56 | the columns of one article make exactly one row, its fields in schema order |
| Vectors.MergedColumns | merging_collections.py:107-116 | 8 columns making one row; the url is the fourth and the table name the fifth (specialization) |
| Vectors.MergedColumnsConform | merging_collections.py:23-33 | with texts within 65535 and vectors of 768 the columns fit the merged schema and make the row title, abstract, authors, url, table, three vectors |
| Vectors.Collection.Insert | merging_collections.py:119 | an insert succeeds exactly when the columns fit the schema, and then appends the rows of the columns, in order; a refused insert changes nothing |
| Vectors.AddToMilvus | crawl_page/utils.py:37-56 | a well-formed article appends exactly its one row; otherwise the insert raises and the collection is unchanged |
| Vectors.EnsureCollection | crawl_page/utils.py:85-90 | afterwards the collection exists; an existing collection keeps its schema, a new one gets the given schema; others are untouched |
| Vectors.EnsureCollectionIdempotent | merging_collections.py:56-63 | ensuring a collection twice is ensuring it once |
| Ledger.PendingOf | crawl_article/crawl_article_orthopedics_sql.py:29 | the links of a journal whose `scraped` is `pending`, and only those |
| Ledger.InsertLinksContents | crawl_page/utils.py:322-326 | after the inserts every given link is in the table; a link already there keeps its row and status; a new link gets its journal, specialisation and `pending` |
| Ledger.InsertLinksIdempotent | crawl_page/utils.py:324 | inserting the same links again changes nothing (INSERT IGNORE on the UNIQUE `article_link`) |
| Ledger.InsertLinksSetOnly | crawl_page/utils.py:291 | only the set of links matters: order and repetition of the list do not change the table |
| Ledger.NewLinksPending | crawl_page/utils.py:324-325 | a link new to the table is pending after the insert, and no pending link stops being pending |
| Ledger.MarkDone | crawl_article/crawl_article_orthopedics_sql.py:132-136 | only the named link's status changes, to `done`; no row appears or disappears |
| Ledger.MarkDonePending | crawl_article/crawl_article_orthopedics_sql.py:132-136 | marking a link done removes exactly it from the pending links |
| Ledger.MarkDoneIdempotent | crawl_article/crawl_article_orthopedics_sql.py:132-136 | marking a link done twice is marking it once |
| Ledger.AllPending | crawl_page/utils.py:419-421 | a newly added `scraped` column reads `pending` in every existing row (its DEFAULT) |
| Ledger.AllPendingOf | crawl_page/utils.py:419-421 | after the column is added every link of the journal is pending |
| Ledger.LinkTable.InsertIntoDatabase | crawl_page/utils.py:308-332 | returns True exactly when every insert succeeds and the commit happens; then the table is `InsertLinks` of the old one; on a database error it returns False and the table is left as it was (see Left out); the count argument has no effect |
| Ledger.LinkTable.PendingLinks | crawl_article/crawl_article_orthopedics_sql.py:29-31 | the selected links are exactly the journal's pending links, each once |
| Ledger.LinkTable.MarkScrapedDone | crawl_article/crawl_article_orthopedics_sql.py:132-136 | the table becomes `MarkDone` of the old one |
| Ledger.LinkTable.EnsureScrapedColumnExists | crawl_page/utils.py:411-423 | afterwards the column exists unless the SHOW or ALTER raised; when it already existed nothing changes (idempotent); when it is added every row reads `pending`; a caught database error leaves the rows and the column as they were |
| Metadata.StoreArticle | crawl_page/utils.py:429-492 | no stored row is ever overwritten; other tables are untouched; on success the url is present, holding the new record if it was absent; on a failed connection or insert the tables are unchanged |
| Metadata.StoreArticleIdempotent | crawl_page/utils.py:459 | storing the same record twice is storing it once |
| Metadata.StoreArticleKeepsFirst | crawl_page/utils.py:396 | a second record for the same `article_url` leaves the first (INSERT IGNORE plus UNIQUE) |
| Metadata.SetEmbeddingsDone | merging_collections.py:123-127 | only the named url's row changes, its `embeddings` becoming `done`, so it no longer needs embedding |
| Metadata.SetEmbeddingsDoneWaiting | merging_collections.py:81-86 | flagging a url removes exactly it from the rows waiting for embeddings |
| Metadata.MetadataStore.InsertArticleMetadata | crawl_page/utils.py:429-492 | the tables become `StoreArticle` of the old ones |
| Metadata.MetadataStore.MarkEmbeddingsDone | merging_collections.py:123-127 | when the table exists its url's row is flagged `done`, otherwise nothing changes |
| Sync.MergedRows | merging_collections.py:107-116 | one merged row per selected record |
| Sync.MergedRowsSnoc | merging_collections.py:95-116 | one more selected record appends exactly its merged row |
| Sync.MarkAllSnoc | merging_collections.py:123-127 | one more flagged record is one more `embeddings = 'done'` update |
| Sync.MergedRowsFields | merging_collections.py:112 | each merged row has 8 fields, its own url fourth and the table name as specialization fifth |
| Sync.MergedColumnsRow | merging_collections.py:99-116 | the columns built for a record, with its three embeddings, make exactly its merged row |
| Sync.MarkAllUntouched | merging_collections.py:81-86 | a row whose url was not selected is untouched by the run |
| Sync.MarkAllWaiting | merging_collections.py:123-127 | flagging the selected rows removes exactly their urls from the waiting rows |
| Sync.SyncRow | merging_collections.py:95-127 | one row: its merged row is appended first and only then its url flagged `done`; a failure after the append leaves the row unflagged |
| Sync.SyncNext | merging_collections.py:95-127 | one loop step: after a step that inserts and flags, the collection has gained that row and the table has the first `k + 1` selected rows flagged; a refused insert changes nothing and a failed flag leaves the table as it was |
| Sync.SyncRows | merging_collections.py:95-131 | the collection gains the merged rows of the first `inserted` selected rows in order, the first `marked` are flagged, `marked <= inserted <= marked + 1`, and all are flagged exactly when the run completes |
| Sync.InsertTableToMilvus | merging_collections.py:66-131 | the selected rows are exactly the rows whose `embeddings` is not `done`, each once, `total_rows` is their number, and the appends and flags are those of `SyncRows` |
| Sync.WaitingRowUrl | merging_collections.py:81-86 | a selected row is the row stored under its url, and it needs embedding |
| Sync.CompletedRunDrains | merging_collections.py:81-131 | after a completed run no row waits for embeddings, and rows already `done` are untouched |
| Sync.DuplicateOnRetry | merging_collections.py:119-127 | if the status update of a row fails after its insert, a re-run selects it again and appends a second row with the same url |
| Sync.SyncTable | merging_collections.py:139 | one table's call, recorded as the rows it read, appended and flagged: the record fits `InsertTableToMilvus`'s contract for the tables as they were, the collection gains the merged rows of the appended records, and the table gains the flags of the flagged ones |
| Sync.RunsSnoc | merging_collections.py:137-139 | one more table call extends the status updates, the appended rows and the call history by that call's own |
| Sync.SyncNextTable | merging_collections.py:137-139 | the next table's call, stated against the calls before it: the collection and the tables end as the extended run says |
| Sync.InsertMultipleTables | merging_collections.py:135-139 | the tables in list order, each call reading the waiting rows the earlier calls left; the collection gains, table by table, the merged rows of what each call appended, and the tables carry the flags of what each flagged; the run stops at the first call that does not complete, and completes exactly when every listed table's call did |
| Sync.FlagTablesOthers | merging_collections.py:135-139 | a table that is not in the list keeps every row |
| Sync.FlagTablesKeyed | merging_collections.py:123-127 | status updates add no table and keep every table filed by url |
| Sync.MarkAllKeyed | merging_collections.py:123-127 | flagging rows keeps a table filed by url |
| Sync.MultiRunDrains | merging_collections.py:135-139 | after a completed run over the list, no row of any listed table waits for embeddings |
| Fusion.InsertHitPerm | rag.py:82 | inserting a hit into a list adds exactly that hit |
| Fusion.InsertHitSorted | rag.py:82 | inserting into a list sorted by distance keeps it sorted |
| Fusion.InsertHitStable | rag.py:82 | the new hit goes before the hits of equal distance, as a stable sort needs when building from the back |
| Fusion.InsertHitHead | rag.py:82 | the inserted list starts with the new hit or with the old first hit |
| Fusion.AtDistanceAppend | rag.py:81-82 | the hits at one distance in a concatenation are those of the first list followed by those of the second |
| Fusion.SortLength | rag.py:82 | sorting keeps the number of hits |
| Fusion.SortByDistanceSpec | rag.py:82 | `sorted(key=distance)` gives a non-decreasing permutation that keeps the input order among equal distances |
| Fusion.FuseLength | rag.py:85-94 | at most 3 hits; none exactly when all three lists are empty; 3 when there are at least 3 |
| Fusion.PrefixClosest | rag.py:85 | a prefix of a sorted list is as close as anything it leaves out |
| Fusion.FuseClosest | rag.py:81-85 | the fused hits are sorted, are drawn from the title, abstract and author hits, and no hit left out is closer than one kept |
| Fusion.FuseStable | rag.py:81-82 | among equal distances the fused hits keep title before abstract before authors |
| Fusion.GetJournalDetails | rag.py:42-94 | None exactly when all three searches return nothing, otherwise the fused top 3 |
| TimeRange.PreviousMonthStart | rag.py:105 | the first day of the month before, December of the year before in January |
| TimeRange.DateRangeOrdered | rag.py:96-116 | every range is made of valid dates and does not end before it starts |
| TimeRange.LastWeekRange | rag.py:101-103 | "last week" gives from seven days before now to now |
| TimeRange.LastMonthRange | rag.py:104-106 | "last month" (without "last week") gives from day 1 of the previous month to now |
| TimeRange.LastYearRange | rag.py:107-109 | "last year" (without the other two) gives 1 January to 31 December of the previous year |
| TimeRange.ParsedDayRange | rag.py:110-114 | otherwise a parsed date gives the single-day range and no date gives none |
| TimeRange.ParseTimeExpression | rag.py:96-116 | start and end are both set or both None, and both are ISO dates |
| TimeRange.ParseTimeExpressionOrdered | rag.py:96-116 | the two strings are the range's dates, start not after end |
| Chat.Take | rag.py:133 | `results[:n]` is a prefix of length min(n, length) |
| Chat.SelectContextCases | rag.py:132-140 | journal hits are used only when the first distance is below 1.0, and then at most 2; otherwise at most 2 news hits; no context only when both fail |
| Chat.DateFilter | rag.py:143-146 | the filter is non-empty exactly when both dates are set and non-empty |
| Chat.PromptLayout | rag.py:148-153 | the prompt is the fixed preamble, then the date filter, then the user request and the context |
| Chat.ChatReplySpec | rag.py:119-161 | "No relevant articles found." exactly when no context is found; otherwise the context is the serialised selection and the response is the chain's answer, or the fixed message when it raises; a set range always reaches the prompt |
| QuerySearch.FirstIndex | query_search.py:57 | the position where a url first occurs |
| QuerySearch.UrlSetSnoc | query_search.py:55-58 | one more hit adds exactly its url to the urls met |
| QuerySearch.FirstIndexSnoc | query_search.py:57 | a url already met keeps its first position; a new url's first position is the new hit |
| QuerySearch.DedupSnoc | query_search.py:57-58 | a hit whose url is already kept is skipped, otherwise it is appended |
| QuerySearch.DedupUrls | query_search.py:55-58 | every url of the combined hits appears in the result, and no other |
| QuerySearch.DedupUnique | query_search.py:53-58 | at most one hit per `article_url` |
| QuerySearch.DedupFirstSeen | query_search.py:53-61 | each kept hit is the first occurrence of its url, and the result is in first-seen order |
| QuerySearch.AddHits | query_search.py:55-58 | the inner loop over one search result extends the first-occurrence dedup of the hits so far to the dedup of those hits followed by the new ones, with its key set kept equal to the kept urls |
| QuerySearch.SearchMilvus | query_search.py:50-58 | the dict filled in the nested loops holds the first-occurrence dedup of the flattened results |
| QuerySearch.FlattenTwo | query_search.py:50 | the combined results are the title hits followed by the abstract hits |
| QuerySearch.FirstIndexPrefix | query_search.py:57-58 | a url already in the title hits keeps its first position when the abstract hits follow |
| QuerySearch.TitleWins | query_search.py:50-58 | for a url found by the title search, the kept hit is the title hit |
| Passes.PublicationDate | crawl_article/crawl_article_orthopedics_sql.py:197-210 | every rule except the strict one always yields a date |
| Passes.ScrapeRow | crawl_article/crawl_article_orthopedics_sql.py:43-130 | a scraped row exists only if the page fetched and its date rule succeeded; it carries the link as url, the table as specialisation, embeddings `pending`, and the rule's date |
| Passes.StrictDateSkips | crawl_article/crawl_article_orthopedics_sql.py:62 | a date the strict `%B %d, %Y` rejects abandons the JBJS link, where the fallback chain still stores the row |
| Passes.PassRunLinks | crawl_article/crawl_article_orthopedics_sql.py:39-141 | each link is marked done exactly when its row was scraped and its `scraped = 'done'` update did not raise |
| Passes.DoneSetSnoc | crawl_article/crawl_article_orthopedics_sql.py:39-140 | one more visited link joins the links marked done exactly when its row was scraped and its update went through |
| Passes.PassRunPending | crawl_article/crawl_article_orthopedics_sql.py:39-141 | after the pass the pending links are the old ones minus those scraped and flagged; a link whose page or whose update raised stays pending and the loop goes on; no link row appears or disappears |
| Passes.FlagFaultKeepsPending | crawl_article/crawl_article_orthopedics_sql.py:130-140 | when the `scraped = 'done'` update raises after the row was stored, the link rows are unchanged, so the link stays pending, while the row is stored |
| Passes.FlagsFollowStoresAppend | crawl_article/crawl_article_orthopedics_sql.py:130-136 | the "flag after store" ordering survives appending another visit |
| Passes.PassRunWriteOrder | crawl_article/crawl_article_orthopedics_sql.py:130-136 | the writes only grow, and every `scraped = 'done'` follows the metadata insert of the same link |
| Passes.PassRunKeepsRows | crawl_page/utils.py:459 | no stored article row is changed by a pass |
| Passes.VisitLink | crawl_article/crawl_article_orthopedics_sql.py:43-141 | one link's visit changes the ledger, the tables and the writes as `PassStep` says |
| Passes.CrawlArticlePass | crawl_article/crawl_article_pulmonology_sql.py:140-151 | ensures the column (unless that call's database error is caught, and then a table without the column ends the pass with nothing selected or written); otherwise selects exactly the journal's pending links once each and ends in the state `PassRun` gives; no pending links means no writes |
| Nephrology.VectorStageFacts | crawl_article/crawl_article_nephrology_milvus.py:229-262 | the vector stage writes a prefix of its ordered writes, at most one row per collection, the merged one never without the category one, and marks the link done only when all succeeded |
| Nephrology.KidneyStepWriteOrder | crawl_article/crawl_article_nephrology_milvus.py:228-262 | one link's writes are a prefix of: metadata insert, category row, merged row, embeddings `done`, scraped `done` |
| Nephrology.KidneyStepEffects | crawl_article/crawl_article_nephrology_milvus.py:228-267 | at most one row per collection; a failure leaves the link pending; the link is done exactly when every step succeeded |
| Nephrology.KidneyStepSuccess | crawl_article/crawl_article_nephrology_milvus.py:224-262 | on success both collections gain the article's row, the stored row (embeddings `pending`) is flagged `done`, then the link is marked done |
| Nephrology.VectorStageNoFault | crawl_article/crawl_article_nephrology_milvus.py:229-262 | when nothing fails, the category and merged collections each gain the article's row, its stored row is flagged `done`, the link is marked done, and exactly these four writes follow in that order |
| Nephrology.KidneyStepFailureKeepsLink | crawl_article/crawl_article_nephrology_milvus.py:255-257 | an embedding or vector failure skips the `scraped` update, so the link stays pending |
| Nephrology.KidneyRetryDuplicates | crawl_article/crawl_article_nephrology_milvus.py:246-248 | a merged insert that fails after the category insert leaves the link pending, and the retry writes the category row a second time |
| Nephrology.KidneyRunCounts | crawl_article/crawl_article_nephrology_milvus.py:156-267 | over a run each collection gains at most one row per link, the merged one no more than the category one |
| Nephrology.KidneyRunPending | crawl_article/crawl_article_nephrology_milvus.py:156-267 | the pending links after the run are the old ones minus exactly those that succeeded; a failing link does not stop the others |
| Nephrology.VectorWrites | crawl_article/crawl_article_nephrology_milvus.py:229-262 | the vector stage on the two collections and the two status tables is `VectorStage` |
| Nephrology.KidneyVisit | crawl_article/crawl_article_nephrology_milvus.py:157-267 | one link's visit is `KidneyStep` |
| Nephrology.CrawlArticleKidney | crawl_article/crawl_article_nephrology_milvus.py:133-269 | when the column cannot be added the pending-links query fails and nothing changes; otherwise the pass selects exactly the pending links and ends as `KidneyRun` says; no pending links returns early with no writes |
| Nephrology.JasnRunKeepsLinks | crawl_article/crawl_article_nephrology_milvus.py:120-126 | the JASN pass never changes `article_links`, so its links stay pending |
| Nephrology.JasnRowNeverWaits | crawl_article/crawl_article_nephrology_milvus.py:124-126 | a JASN step never appends a vector row, yet a row it stores is flagged `done`, so the synchroniser never selects it |
| Nephrology.JasnStoredDate | crawl_article/crawl_article_nephrology_milvus.py:56-64 | the stored JASN date is an ISO date or "N/A" |
| Nephrology.CrawlArticleJasn | crawl_article/crawl_article_nephrology_milvus.py:17-131 | when the column cannot be added the pending-links query fails and nothing changes; otherwise the pass selects exactly the pending links and ends as `JasnRun` says |
| Nephrology.JasnVisit | crawl_article/crawl_article_nephrology_milvus.py:40-129 | one pending link: the ledger, the tables and the write log end as one `JasnStep` of the crawl state says |
| Extractors.FirstMatch | crawl_article/crawl_article_infectious_sql.py:20 | `re.search`: the leftmost position where the pattern matches, and no match means no position matches |
| Extractors.SearchAfter | crawl_article/crawl_article_infectious_sql.py:20 | a search over a prefix that cannot match is a search of the rest |
| Extractors.FirstMatchAt | crawl_article/crawl_article_infectious_sql.py:20 | a match at k with none before it makes k the leftmost match |
| Extractors.LeadingNumberReads | crawl_article/crawl_article_infectious_sql.py:20 | `(\d+)` reads the whole digit run before a non-digit |
| Extractors.NumberThenSlashReads | crawl_article/crawl_article_infectious_sql.py:20 | `(\d+)/` reads the digits before the slash and leaves the rest |
| Extractors.NoMatchBefore | crawl_article/crawl_article_infectious_sql.py:20-21 | no position before the first `/article/` matches the pattern |
| Extractors.MatchArticlePathReads | crawl_article/crawl_article_infectious_sql.py:19 | `/article/V/I/` reads volume V and issue I |
| Extractors.ExtractVolumeIssue | crawl_article/crawl_article_infectious_sql.py:18-23 | volume and issue are both numbers or both None |
| Extractors.ExtractVolumeIssueReads | crawl_article/crawl_article_infectious_sql.py:18-22 | a url whose first `/article/` is followed by V/I/ gives (V, I) |
| Extractors.ExtractVolumeIssueAbsent | crawl_article/crawl_article_infectious_sql.py:23 | a url without `/article/` gives (None, None) |
| Extractors.ExtractIssn | crawl_article/crawl_article_infectious_sql.py:31-37 | the result is the leftmost NNNN-NNNN of the tag's text; None when there is no tag or no such substring |
| Extractors.ExtractVolumeAndIssue | crawl_article/crawl_article_pulmonology_sql.py:16-27 | either ("N/A", "N/A") or two digit strings |
| Extractors.VolumeAndIssueFromBreadcrumbs | crawl_article/crawl_article_pulmonology_sql.py:21-26 | the first breadcrumb href with `/toc/ajrccm/V/I` gives (V, I) |
| Extractors.MatchTocReads | crawl_article/crawl_article_pulmonology_sql.py:22-24 | `/toc/ajrccm/V/I` reads (V, I) |
| Extractors.VolumeAndIssueAbsent | crawl_article/crawl_article_pulmonology_sql.py:27 | no such href gives ("N/A", "N/A") |
| Extractors.AuthorsFromBibtex | crawl_article/crawl_article_psychiatry_sql.py:22-26 | a BibTeX author field wins, its " and " becoming ", " |
| Extractors.AuthorsFromRis | crawl_article/crawl_article_psychiatry_sql.py:29-31 | RIS `A1` lines are used only when BibTeX gave none |
| Extractors.AuthorsFromMedline | crawl_article/crawl_article_psychiatry_sql.py:34-38 | MEDLINE `FAU` lines only when both gave none; nothing at all gives "N/A" |
| Extractors.FindAllExport | crawl_article/crawl_article_psychiatry_sql.py:31-36 | `re.findall` reads back every name of an export with one author per line |
| Extractors.AuthorsOfRisExport | crawl_article/crawl_article_psychiatry_sql.py:29-38 | a RIS export of a list of authors gives them joined with ", " |
| Extractors.AuthorsOfBibtexExport | crawl_article/crawl_article_psychiatry_sql.py:22-26 | `author = {A and B}` gives "A, B" |
| Extractors.MatchBibAuthorReads | crawl_article/crawl_article_psychiatry_sql.py:24 | the lazy `\{(.+?)\}` reads the field up to its first closing brace |
| Extractors.BibtexFieldReads | crawl_article/crawl_article_psychiatry_sql.py:24 | `re.search` finds that field in an export opening with it |
| Extractors.BraceEndIs | crawl_article/crawl_article_psychiatry_sql.py:24 | the closing brace found is the first after the opening one |
| Extractors.FindAllLine | crawl_article/crawl_article_psychiatry_sql.py:31-36 | `re.findall` over a tagged line yields its name and goes on after the line |
| Extractors.MatchRisLine | crawl_article/crawl_article_psychiatry_sql.py:31 | `A1\s+-\s+(.+)` reads the rest of an `A1  - ` line |
| Extractors.MatchMedlineLine | crawl_article/crawl_article_psychiatry_sql.py:36 | `FAU - (.+)` reads the rest of a `FAU - ` line |
| Extractors.PdfUrlFromAbstract | crawl_article/crawl_article_psychiatry_sql.py:42-43 | `/doi/abs/` is replaced by `/doi/pdf/` |
| Extractors.PdfUrlFromDoi | crawl_article/crawl_article_psychiatry_sql.py:44-46 | another `/doi/` url becomes prefix + `/doi/pdf/` + the part up to any second `/doi/` |
| Extractors.PdfUrlWithoutDoi | crawl_article/crawl_article_psychiatry_sql.py:47 | a url without `/doi/` is returned unchanged |
| Extractors.PdfLinkCopies | crawl_article/crawl_article_pulmonology_sql.py:70 | `re.sub` copies text where no `/doi/` starts |
| Extractors.PdfLinkWithoutDoi | crawl_article/crawl_article_pulmonology_sql.py:70 | a url without `/doi/` is unchanged |
| Extractors.NoDoiNoMatch | crawl_article/crawl_article_pulmonology_sql.py:70 | the pattern for `/doi/abs/` or `/doi/full/` matches nowhere in a text without `/doi/` |
| Extractors.MatchDoiPageReads | crawl_article/crawl_article_pulmonology_sql.py:70 | a match at `/doi/P/DOI` is replaced by `/doi/pdf/DOI` |
| Extractors.PdfLinkRewrites | crawl_article/crawl_article_pulmonology_sql.py:70 | `/doi/abs/X` or `/doi/full/X` becomes `/doi/pdf/X`, the rest kept |
| Extractors.DerivedFromAbstract | crawl_article/crawl_article_allergy_sql.py:67-68 | an "N/A" abstract gives summary and keywords "N/A"; any other goes to the models |
| Extractors.MissingAbstractIgnoresModels | crawl_article/crawl_article_allergy_sql.py:67-68 | for an "N/A" abstract the models are never consulted, and its embedding is the zero vector |
| Extractors.BoneVolume | crawl_article/crawl_article_orthopedics_sql.py:325 | `[:3]`: at most 3 characters, a prefix of the tag, the tag itself when short; "N/A" when absent |
| IssueNumbers.HalfYearVolumeSteps | crawl_page/crawl_page_clinical_medicine.py:117-118 | a volume lasts January to June, the next July to December, and the volume goes up by one at the new year |
| IssueNumbers.HalfYearVolumeInverse | crawl_page/crawl_page_pulmonology.py:74-75 | `(volume + K) / 2` is the year and its parity is the half of the year |
| IssueNumbers.HalfYearVolumeSame | crawl_page/crawl_page_pulmonology.py:145-146 | two dates share a volume exactly when they are in the same half of the same year |
| IssueNumbers.JaciAndJaadAreHalfYearly | crawl_page/crawl_page_immunology.py:281-282 | JACI's `151 + 2*(year-2023)` is K = 3895, the Pediatrics constant, and JAAD's `88 + 2*(year-2023)` (lines 37-38 of the dermatology file) is K = 3958 |
| IssueNumbers.YearlyVolumeSteps | crawl_page/crawl_page_dermatology.py:181 | a yearly volume goes up by one a year and names its year |
| IssueNumbers.JpedsVolumeInverse | crawl_page/crawl_page_pediatrics.py:188-189 | the Journal of Pediatrics volume gives back the year and the month |
| IssueNumbers.JpedsVolumeSteps | crawl_page/crawl_page_pediatrics.py:188-189 | it goes up by one every month, across the new year too |
| IssueNumbers.ErjIssue | crawl_page/crawl_page_pulmonology.py:76 | `(month-1) % 6 + 1` is always 1..6 |
| IssueNumbers.PediatricsPage | crawl_page/crawl_page_pediatrics.py:83 | the page is always 1..6 |
| IssueNumbers.ErjIssueIsPediatricsPage | crawl_page/crawl_page_pulmonology.py:76 | ERJ's issue equals the Pediatrics page: the month, less 6 from July |
| IssueNumbers.ErjIssueNamesTheMonth | crawl_page/crawl_page_pulmonology.py:74-76 | ERJ volume and issue together determine the year and month |
| IssueNumbers.CaIssue | crawl_page/crawl_page_oncology.py:171-172 | `(month+1)//2` is always 1..6 |
| IssueNumbers.CaIssueMonths | crawl_page/crawl_page_oncology.py:171 | issue k covers exactly months 2k-1 and 2k |
| IssueNumbers.Range | crawl_page/crawl_page_clinical_medicine.py:119-123 | `range(lo, hi)`: hi-lo consecutive numbers from lo |
| IssueNumbers.JamaIssuesOfMonth | crawl_page/crawl_page_clinical_medicine.py:119-123 | four consecutive issues, exactly those whose `(n-1)//4 + 1` is the month |
| IssueNumbers.JcoIssuesOfMonth | crawl_page/crawl_page_oncology.py:274-276 | three consecutive issues from `(month-1)*3+1`, exactly those of the month (also hematology, line 98) |
| IssueNumbers.BloodAdvancesIssuesOfMonth | crawl_page/crawl_page_hematology.py:222-227 | the two issues `(month-1)*2+1` and the next, exactly those of the month |
| IssueNumbers.CidIssues | crawl_page/crawl_page_infectious.py:113-114 | CID scans exactly issues 1..2·month |
| IssueNumbers.NatureImmunologyIssues | crawl_page/crawl_page_immunology.py:40-42 | Nature Immunology scans exactly issues 1..month |
| IssueNumbers.GroupIdInjective | crawl_page/crawl_page_immunology.py:283 | `"d2020.v" + num` names different volumes differently |
| ArticleIds.UrlPathBehindHost | crawl_page/crawl_page_pulmonology.py:190-191 | `urlparse(href).path` of an absolute url is the path after the host |
| ArticleIds.UrlPathOfPath | crawl_page/crawl_page_immunology.py:338 | a root-relative href is its own path |
| ArticleIds.ArticlePathParts | crawl_page/crawl_page_immunology.py:339 | `/article/ID/…` splits into "", "article", ID and the rest |
| ArticleIds.MatchPii | crawl_page/crawl_page_nephrology.py:119 | a PII match is non-empty and begins with `S` |
| ArticleIds.Ids | crawl_page/crawl_page_immunology.py:347-349 | every identifier of a link met is in the identifiers collected |
| ArticleIds.IndexOf | crawl_page/crawl_page_immunology.py:342-343 | `path_parts.index("article")`: the first position, and absent exactly when not in the list |
| ArticleIds.PathSegmentIdReads | crawl_page/crawl_page_immunology.py:338-345 | `/article/ID/...` has identifier ID |
| ArticleIds.MatchPiiReads | crawl_page/crawl_page_nephrology.py:119-126 | an href with `/S…-…(…)…-…/` has that PII as its identifier |
| ArticleIds.KeptCoversIds | crawl_page/crawl_page_immunology.py:342-352 | every kept link has an identifier, and the kept links cover every identifier met |
| ArticleIds.KeptIdsDistinct | crawl_page/crawl_page_immunology.py:347-349 | no two kept links share an identifier |
| ArticleIds.FirstLinkKept | crawl_page/crawl_page_pediatrics.py:239-252 | the first link carrying an identifier is the one kept |
| ArticleIds.CollectArticleLinks | crawl_page/crawl_page_dermatology.py:232-247 | `processed_article_ids` ends as every identifier met and `article_links` as the joined kept links |
| ArticleIds.KeywordSectionLinks | crawl_page/crawl_page_nephrology.py:114 | the links of exactly the sections whose heading contains a keyword |
| ArticleIds.KidneySectionsRead | crawl_page/crawl_page_nephrology.py:110-114 | Kidney International reads a "Clinical Investigations" section, by its lower-cased heading, and never a section without a heading |
| ArticleIds.AjkdSectionsRead | crawl_page/crawl_page_nephrology.py:314-318 | AJKD reads a "Special Reports" section by its lower-cased heading |
| ArticleIds.StopWordStops | crawl_page/crawl_page_immunology.py:313-331 | a heading containing a stop word as a whole word stops the section loop |
| ArticleIds.StopWordPluralStops | crawl_page/crawl_page_immunology.py:329 | so does the stop word followed by an `s` |
| ArticleIds.SingularBriefReportDoesNotStop | crawl_page/crawl_page_immunology.py:313-329 | "brief report" (singular) does not stop, since the stop word is already plural |
| ArticleIds.UntilStopIgnoresRest | crawl_page/crawl_page_immunology.py:329-331 | no section after a stopping heading is read |
| ArticleIds.UntilStopReadsHeaded | crawl_page/crawl_page_immunology.py:322-334 | with no stopping heading, the links of exactly the headed sections are read |
| ArticleIds.SectionsUntilStop | crawl_page/crawl_page_immunology.py:322-334 | the loop with `break` collects `UntilStop` |
| Discovery.Existing | crawl_page/crawl_page_oncology.py:69-70 | the links stored for exactly that journal |
| Discovery.NewLinks | crawl_page/crawl_page_clinical_medicine.py:84-87 | the links not already stored, and only those, never more than were found |
| Discovery.NewLinksConcat | crawl_page/crawl_page_clinical_medicine.py:87 | the filter keeps the list order |
| Discovery.NewLinksCounts | crawl_page/crawl_page_clinical_medicine.py:87 | a new link keeps all its repetitions, a stored one loses all of them |
| Discovery.NewLinksDistinct | crawl_page/crawl_page_gastroenterology.py:39-47 | a list without repetitions stays without them |
| Discovery.FilterBeforeInsert | crawl_page/crawl_page_oncology.py:69-73 | filtering out stored links does not change what the insert leaves in the table |
| Discovery.JamaFilterHarmless | crawl_page/crawl_page_clinical_medicine.py:154-158 | JAMA filters against The Lancet's links, so its own stored links are passed on again, yet the table ends as with its own filter |
| Discovery.FilterAndInsert | crawl_page/crawl_page_oncology.py:69-83 | the filtered list is `NewLinks` of the found links; success, table and failure as `insert_into_database` |
| Discovery.ScanSkipCollects | crawl_page/crawl_page_hematology.py:45-46 | skipping bad issue pages never aborts and collects the links of exactly the good pages |
| Discovery.StopIsPrefixOfSkip | crawl_page/crawl_page_cardiology.py:125-127 | stopping at the first bad page gives a prefix of what skipping gives |
| Discovery.StopAgreesWhenAllOk | crawl_page/crawl_page_cardiology.py:125-127 | when every page is good the two policies agree |
| Discovery.StopIgnoresLaterIssues | crawl_page/crawl_page_cardiology.py:125-127 | after a missing or non-200 issue JACC reads no further issue |
| Discovery.CollectIssueLinks | crawl_page/crawl_page_cardiology.py:119-141 | the issue loop with `continue` or `break` collects `Scan`, and reports an abort exactly when `Scan` is None |
| Discovery.Scan | crawl_page/crawl_page_hematology.py:45-46 | scanning with `continue` never aborts |
| Discovery.Pages | crawl_page/crawl_page_hematology.py:39-44 | one fetch outcome per issue, in issue order |
| Discovery.KeepContaining | crawl_page/crawl_page_cardiology.py:140-141 | exactly the links containing the pattern |
| Discovery.KeepContainingConcat | crawl_page/crawl_page_cardiology.py:134-141 | filtering page by page is filtering the whole list |
| Discovery.JaccDoiHrefKept | crawl_page/crawl_page_cardiology.py:137-141 | a `/doi/` href, once the host is put in front, passes the DOI filter |
| Discovery.CrawlIssues | crawl_page/crawl_page_cardiology.py:106-157 | a crawler ending in an exception writes nothing; otherwise the scanned links (DOI-filtered for JACC) are filtered and inserted |
| Discovery.CollectIssueHrefs | crawl_page/crawl_page_pulmonology.py:172-208 | the loop over the issue links collects the chosen sections' links of every page that could be read |
| Discovery.CrawlIssueList | crawl_page/crawl_page_immunology.py:271-375 | each issue link visited once; one article link per identifier across issues; the joined links inserted for the crawler's own journal |
| Discovery.CrawlJaad | crawl_page/crawl_page_dermatology.py:30-125 | a missing or non-200 index page returns before any write; bad issue pages are skipped; the links of exactly the good pages are inserted, each once, with no identifier dedup |
| Discovery.CrawlNdt | crawl_page/crawl_page_nephrology.py:198-262 | volume `year-1985`, issue month; `insert_into_database` is called exactly when some link is new, and nothing changes otherwise |
| Discovery.GutNewLinks | crawl_page/crawl_page_gastroenterology.py:39-47 | the feed's links not stored yet, each once |
| Discovery.LatestYear | crawl_page/crawl_page_gastroenterology.py:80-82 | `max` over the feed of the first "(N)", 0 for a url without one; None for an empty feed |
| Discovery.WithYear | crawl_page/crawl_page_gastroenterology.py:85-87 | exactly the urls whose first "(N)" is the year |
| Discovery.LatestLinksAreLatest | crawl_page/crawl_page_gastroenterology.py:80-87 | the kept links are exactly the numbered ones of the latest year; urls without a number are dropped; one numbered url means something is kept |
| Discovery.LatestYearAttained | crawl_page/crawl_page_gastroenterology.py:80-82 | a numbered url that none exceeds has the latest year |
| Discovery.LatestLinksNonEmpty | crawl_page/crawl_page_gastroenterology.py:80-87 | some url has the latest year once one url has a number |
| Discovery.CdcFeedLinkLost | crawl_page/crawl_page_infectious.py:284-298 | as written, a new link of the feed never reaches the filter, which yields nothing |
| Discovery.CdcNewLinksKeepsFeed | crawl_page/crawl_page_infectious.py:289-301 | the corrected filter passes exactly the feed links not yet stored |
| Discovery.ChestArticlesLost | crawl_page/crawl_page_pulmonology.py:161-218 | as written, the filter passes the issue anchor in place of the article found on it; the anchor is a parsed tag the link insert cannot store |
| Discovery.ChestNewLinksAreArticles | crawl_page/crawl_page_pulmonology.py:210-218 | the corrected filter passes exactly the new article links |

## Left out

- Fetching and parsing pages (ZenRows, ScraperAPI, crawl4ai, BeautifulSoup) is network I/O and foreign code. A page is its outcome (`Fetch`, `Page`, `Section`) and the strings its selectors yield. `urljoin` is modelled only for the absolute and root-relative hrefs the journals use; `../`, scheme-relative hrefs and `urlparse` parameters are not.
- MySQL and Milvus connections, configuration reading, `setup_database`, `create_index` and the sample printing are I/O. The stores are modelled abstractly. A connection that fails is a `StoreFault`.
- The sentence encoder, summariser, KeyBERT, the SQL chain and `json.dumps` are foreign models and libraries. They are function parameters. `dateparser` is its parsed result (`parsed`), and `datetime.now()` is the `now` argument.
- The `asyncio.gather` fan-out in update.py, the Streamlit app, the FastAPI routing and `write_to_csv` are concurrency, UI and file I/O.
- The remaining discovery and extraction files repeat the filter-and-insert and per-link-pass patterns modelled here. So do European Heart Journal, Nature Immunology, Nature Reviews Cancer, CA, CID, JID and Infection: they are `CrawlIssues` and `FilterAndInsert` with their own numbers.
- Floating-point distances are `real` and only compared. Milvus's 32-bit floats are not modelled.
- Pydantic validation of the crawler data is left out. Its models accept every list of strings the crawlers build.
- Fusion.FuseLength: the search limit of 2 per list is a property of the vector search, which is an input. Fusion is proved for lists of any length.
- Sync.SyncRows: the only failure modelled is a status update failing after the vector insert. An encoder failure before the insert leaves no trace beyond stopping the loop, which a refused insert already models.
- Passes.ScrapeRow: which meta tags feed which column, and the per-journal defaults, are given by the parsed `Page`. Only the date rule, the url, the specialisation and `embeddings = 'pending'` are modelled.
- Calendar.IsoRoundTrip: `%Y` is rendered with four digits. glibc does not pad years below 1000, which no article date reaches.
- MySQL's coercion of the `DATE` column, and its treatment of the placeholder "2001/01/01" or "N/A" there, are left out.
- Strptime: month names are English and compared with ASCII case folding. Whitespace is Python's `str.isspace` set (`Text.IsSpace`), as `\s` is for Python's `re`. Digits are ASCII only, where Python's `\d` and `int()` also accept other Unicode decimal digits. `%d` takes one or two digits.
- Text.Lower: lowers ASCII letters only and keeps the length. Python's `str.lower()` also lowers other Unicode letters, and can lengthen a string (`'İ'` becomes two characters). The stop words and section keywords compared against are ASCII.
- Text.IsDigit: the `\d` of the extractors' patterns and the digits `int()` reads are ASCII here. Python's `re` and `int()` also accept other Unicode decimal digits.
- ArticleIds.IsWordChar: the `\w` and `\b` of the stop-word pattern are ASCII here. Python's `re` treats every Unicode letter and digit as a word character.
- Vectors.MaxVarChar: a VARCHAR's `max_length` is counted in characters here. Milvus counts UTF-8 bytes, so a non-ASCII text below the limit in characters can still be refused.
- Nephrology.CrawlArticleKidney: the Kidney International pass calls the fetcher without `await`, and the module imports names that crawl_page/utils.py does not define. The model takes the page the pass evidently means to read.
- Nephrology.CrawlArticleJasn: the JASN pass, like the Kidney one, is a plain `def` that calls the async `fetch_page_with_zenrows` without `await` (crawl_article/crawl_article_nephrology_milvus.py:45). As written, `response` is a coroutine, `response.content` raises on every link, the per-link `except` catches it, and nothing is stored. Nephrology.JasnVisit and `JasnRun` take the page the pass evidently means to read and store its row.
- An exception partway through an issue page is modelled as losing the whole page (`pageOf` gives None). The source keeps the links gathered before the exception.
- CHEST without its issue-list `div` leaves `links` undefined. The resulting `NameError` is caught and nothing is written. This falls under `CrawlIssueList`'s empty input.
- Gastroenterology's `max` over an empty feed raises and the crawler writes nothing. `LatestLinks` gives None there.
- JAAD: an exception other than a request error on an issue page would propagate out of the crawler. Fetch outcomes are modelled as request errors only.
- Ledger.LinkTable.InsertIntoDatabase: a failed call leaves the table as it was. The program neither rolls back nor runs in autocommit, so the inserts made before the failing statement stay open on the connection, and the next crawler's `commit` on the same shared connection (update.py:192-197) makes them permanent. Those leftover partial inserts are not modelled.
- Ledger.InsertLinks: `article_link` is a `VARCHAR(255)` with a UNIQUE key, written by INSERT IGNORE (crawl_page/utils.py:283-292, 322-326). MySQL stores a longer link cut to its first 255 characters and then ignores a later link that agrees with it after the cut; the `not in existing_data` filter never matches such a cut row. The key also compares under the column's collation, which is case-insensitive by default. The model keys rows by the exact string, so it covers links of at most 255 characters differing in more than case; the same holds for Ledger.InsertLinksContents and Ledger.LinkTable.InsertIntoDatabase.
- Metadata.StoreArticle: `article_url` is a `VARCHAR(255)` UNIQUE key under INSERT IGNORE (crawl_page/utils.py:372-397, 457-470), so an over-long url is stored cut to 255 characters, a url equal to a stored one after the cut or up to case is ignored, and the `VARCHAR(50)` volume, issue, ISSN and language columns are cut to 50 characters. The model keys by the exact url and stores every field whole.
- Extractors.PdfUrlFromDoi: when a url has a second `/doi/`, the text after it is dropped. The lemma states this; no corrected member exists because this is the function's literal behaviour.

Where the prose description and the code disagree, the model follows the code:

- the news fallback of `chat` is used without any distance threshold (rag.py:135-140);
- `query_search` keeps the first hit per url, not the closest (query_search.py:57-58);
- `get_journal_details` does not deduplicate the fused hits by url, where the design's fusion step asks for it; `Fusion` follows the code (rag.py:81-94).

## Findings

| source | as written | input that shows it | evidently intended | confidence | as-written member | corrected member |
|---|---|---|---|---|---|---|
| crawl_page/crawl_page_infectious.py:284-301 | the CDC crawler appends the feed's links to `links` but filters `article_links`, which stays `[]`, so `new_links` is always empty | a feed holding one new link, `https://wwwnc.cdc.gov/eid/article/31/1/24-0001_article`, with an empty table | filter `links`, the feed's own links | high, not executed | Discovery.CdcFeedLinkLost | Discovery.CdcNewLinksKeepsFeed |
| crawl_page/crawl_page_pulmonology.py:161-218 | the CHEST crawler filters `links`, the anchors of the volume's issue list (Tag objects in the source, represented by their hrefs), instead of `article_links` gathered from the issue pages | issue `https://journal.chestnet.org/issue/S0012-3692(24)X0010-1` holding article `https://journal.chestnet.org/article/S0012-3692(24)04200-1/fulltext`, with an empty table: the article is not passed on; only the issue anchor is, a parsed tag that `insert_into_database` cannot bind as a query parameter (crawl_page/utils.py:322-326), so that insert fails and commits nothing: neither link reaches the table | filter `list(article_links)` | high, not executed | Discovery.ChestArticlesLost | Discovery.ChestNewLinksAreArticles |

`Discovery.CrawlIssueList` uses the corrected filter for CHEST.
