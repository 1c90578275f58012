# BiblioAssistant pipeline — a Dafny model

BiblioAssistant is a pipeline that finds new scientific papers and summarises them:

1. Discovery: papers come from OpenAlex queries and, optionally, from RSS feeds.
2. Filter: a language model judges each paper's relevance.
3. Acquisition: the full text is fetched as a PDF, else as HTML, else the abstract is used.
4. Synthesis: the text is summarised.
5. Commit: every finished paper is recorded in a SQLite ledger, so that it is never processed twice.

Around this the pipeline does three more things:

- It promotes journals and authors that keep turning up to monitored status.
- It governs the monthly API budget by switching from the paid engine to a local one.
- It builds a static site from the summary files.

A separate driver, `backfill.py`, walks a cursor back in time one week per run, down to 2000-01-01.

This project models that core in Dafny and proves what each step promises. One module per source file:

| module | file | source |
|---|---|---|
| `Wrappers` | `wrappers.dfy` | `Option` and its helpers |
| `Strings` | `strings.dfy` | the Python string operations the source relies on: `split(sep)`, `split()`, `join`, `strip`, `replace`, `in`, `[-1]` of a split, `isspace`/`isalnum`/`isupper`, `lower`, `capitalize` |
| `Sorting` | `sorting.dfy` | `list.sort`, as a stable insertion sort |
| `Models` | `models.dfy` | `src/models.py`: the `Paper` record, its identity filename and the all-capitals title recaser, plus the calendar arithmetic the other modules share |
| `Db` | `db.dfy` | `src/db.py`: the ledger as a class `Database` whose tables are sequence fields |
| `Discovery` | `discovery.dfy` | `src/discovery.py`: abstract reconstruction, the work-to-paper mapping, citation batches, task merging and dispatch, the date window |
| `Fetcher` | `fetcher.dfy` | `src/fetcher.py`: DOI heuristics, author and abstract parsing, feed filtering, the cap of five |
| `Extractor` | `extractor.dfy` | `src/extractor.py`: PDF path, Wiley URL rewrite, download gate, HTML clean-up, PDF text, the acquisition cascade |
| `Generator` | `generator.dfy` | `src/generator.py`: summary-file metadata, newest-first ordering, index/feed truncation, archive grouping |
| `Pipeline` | `pipeline.dfy` | `src/main.py`: papers of a run, the per-paper state machine, the budget governor, promotion |
| `Backfill` | `backfill.dfy` | `backfill.py`: cursor, window, clamp at 2000-01-01, the child command, cursor update |

Code that changes state step by step is modelled imperatively:

- Ledger operations are methods of the `Database` class.
- The paper loop and the promotion loops of `main` are methods with loop invariants.
- So are the feed, task and directory loops.
- The PDF download writes to a `Disk` object.
- The backfill cursor store is a `Metadata` object.

Each such method is proved against a specification function, and the properties are proved as lemmas about those functions.

Expressions are modelled as functions: filename building, recasing, URL rewriting, DOI extraction and marker parsing.

Whatever the program gets from outside is a parameter of the model:

- OpenAlex and HTTP responses;
- parsed feeds;
- PDF page text;
- relevance and synthesis verdicts;
- the database's lock state at each attempt;
- the clock;
- the directory listing;
- the exit status of the child pipeline.

Dates are `(year, month, day)` triples or day numbers since 1970-01-01. The backfill driver's times are seconds since then. Costs are `real`.

## Model

| member | source | states |
|---|---|---|
| Models.Y2kIsDay10957 | backfill.py:25 | the floor date 2000-01-01 is day 10957 of the calendar count every module uses |
| Models.FormatYmdFields | src/models.py:64 | the eight `%Y%m%d` digits read back as the date's year, month and day |
| Models.FormatYmdExample | src/models.py:64 | 2024-03-05 is written `20240305` |
| Models.NewPaper | src/models.py:5-27 | a new paper keeps its link, DOI, authors and author ids, has its title passed through the recaser, and starts without a PDF link or summary path, not relevant and not processed |
| Models.SanitizeDoi | src/models.py:61 | the sanitised DOI has the DOI's length, and each character is the DOI's where it is alphanumeric or one of `.-_`, and `_` elsewhere |
| Models.FilenameEndsMd | src/models.py:57-68 | every identity filename ends in `.md` |
| Models.DoiFilename | src/models.py:59-62 | with a non-empty DOI the filename is the DOI, character for character, with unsafe characters (such as `/` and `:`) replaced by `_` and `.md` appended; only safe characters remain |
| Models.DoiFilenameIgnoresDateAndAuthors | src/models.py:59-62 | with a non-empty DOI, changing the publication date or the authors does not change the filename |
| Models.DatedFilename | src/models.py:64-68 | without a DOI the filename is the 8 date digits, `-`, the alphanumeric characters of the first author (`Unknown` when there are no authors), then `.md` |
| Models.DoiFilenameExample | src/models.py:59-62 | DOI `10.1234/ab.cd` gives `10.1234_ab.cd.md` |
| Models.DatedFilenameExample | src/models.py:64-68 | a DOI-less paper of 2024-03-05 without authors gives `20240305-Unknown.md` |
| Models.RecaseOnlyUpper | src/models.py:29 | a title that is not all capitals is left unchanged |
| Models.WordsOfLower | src/models.py:39 | lower-casing and then splitting on whitespace gives the lower-cased words of the title, the same number of them |
| Models.CapitalizePartsChars | src/models.py:49-51 | capitalising each `-`-separated part of a word upper-cases exactly the first character and each character after a `-`, and lower-cases the rest |
| Models.RecasedTitleWords | src/models.py:39-55 | the recased title splits back into exactly the recased words: re-joining with single spaces loses no word |
| Models.RecasePreservesWordCount | src/models.py:39-55 | recasing never changes the number of words of a title |
| Models.RecasedWords | src/models.py:43-53 | in a recased all-capitals title, the first and last words are capitalised part by part, inner `lower_words` stay lower-case, and every other word is capitalised part by part |
| Strings.LastSegmentSpec | src/db.py:202 | `x.split("/")[-1]` is a suffix of `x` with no `/` in it, and it directly follows a `/` whenever `x` has one |
| Strings.JoinSplit | src/main.py:171 | splitting on a separator and re-joining with it gives the string back |
| Strings.SplitJoin | src/discovery.py:47 | splitting a `|`-join of `|`-free ids gives the ids back |
| Strings.StripSpec | src/fetcher.py:58 | `strip()` removes only whitespace, only from the two ends, and leaves none there |
| Strings.CollapseSpaceIdempotent | src/extractor.py:145 | collapsing whitespace (`" ".join(s.split())`) a second time changes nothing |
| Strings.CollapseSpaceKeepsInk | src/extractor.py:145 | collapsing whitespace keeps every non-whitespace character, in order |
| Sorting.SortBySorted | src/generator.py:28 | sorting with a total, transitive order yields a sorted permutation of the input |
| Sorting.SortByStable | src/discovery.py:290 | the sort is stable: elements that the order ranks equal keep their input order |
| Db.StoredDoi | src/db.py:183-194 | the DOI column value is present exactly when the DOI is non-empty, and is then the DOI |
| Db.SeenIffCollides | src/db.py:137-147 | a paper counts as seen by `is_seen` exactly when inserting it would violate the link or DOI uniqueness of `seen_papers` |
| Db.EmptyDoiCollidesUnseen | src/db.py:21 | as written, a paper with DOI `""` and a new link collides with an earlier `""` DOI while `is_seen` reports it unseen |
| Db.CleanIdsSpec | src/db.py:198-206 | the recorded author ids are exactly the last `/`-segments of the non-empty input ids, and none contains `/` |
| Db.DedupSpec | src/db.py:204 | a run of `INSERT OR IGNORE` leaves every element once and nothing else |
| Db.FirstAvailable | src/db.py:187-217 | the attempt that reaches the database is the first usable one among the three; none when all three fail |
| Db.RetryPlan | src/db.py:186-212 | `add_seen` makes between one and three attempts and sleeps fewer times than it attempts |
| Db.SleepsCountLocks | src/db.py:209-212 | every sleep follows a "locked" error on an attempt that was not the last; three locked attempts cost two sleeps |
| Db.SumCostOtherMonths | src/db.py:117-122 | usage rows stamped in other months add nothing to a month's cost |
| Db.SumCostNonNegative | src/db.py:117-122 | with non-negative costs a month's total is never negative |
| Db.SumCostAppend | src/db.py:100-122 | adding a usage row adds its cost to its own month's total and leaves other months' totals unchanged |
| Db.LatestRow | src/db.py:153 | the row chosen is one of the table's rows, and no row was processed later |
| Db.SourceCountPositive | src/db.py:225-230 | a journal's paper count is positive exactly when some seen row carries its source id |
| Db.AuthorCountPositive | src/db.py:262-266 | an author's paper count is positive exactly when some author link names them |
| Db.SourceCountAppend | src/db.py:225-230 | recording one more paper of a journal raises that journal's count by one and no other |
| Db.PromotableJournalsIff | src/db.py:224-233 | a journal is promotable exactly when it has at least the threshold (and at least one) seen papers and is not monitored |
| Db.PromotableAuthorsIff | src/db.py:261-269 | an author is promotable exactly when linked to at least the threshold (and at least one) papers and not monitored |
| Db.PromotableMonotone | src/db.py:230 | raising the threshold never adds a promotable journal or author |
| Db.MonitoredNotPromotable | src/db.py:228 | a monitored journal or author is never promotable |
| Db.SeenPaperIsDuplicate | src/db.py:215-217 | marking a paper `is_seen` already reports ends in a uniqueness violation and changes nothing |
| Db.Database.AddEvent | src/db.py:87-95 | appends exactly one event and changes no other table |
| Db.Database.AddUsage | src/db.py:97-109 | appends one usage row whose total is the sum of prompt and completion tokens; no other table changes |
| Db.Database.LastRunDate | src/db.py:149-159 | none exactly when nothing was seen; otherwise the date of a row that was processed no earlier than any other |
| Db.Database.AddSeen | src/db.py:183-217 | keeps the table constraints; attempts and sleeps follow the retry plan; gives up only when no attempt is usable; reports a duplicate exactly when the paper collides; otherwise appends the row under the next id with its cleaned, de-duplicated author links; afterwards the paper is seen unless every attempt failed; the three tables become exactly `AfterAddSeen` of the old ones |
| Db.AfterAddSeenSpec | src/db.py:183-217 | `add_seen` adds at most one row, this paper's, and only when an attempt reached the database and the paper was not seen; otherwise all three tables are unchanged; afterwards the paper is seen exactly when it was before or an attempt reached the database; any other paper that becomes seen shares the new row's link or DOI |
| Db.Database.TryInsert | src/db.py:189-208 | one usable attempt: a duplicate exactly on collision, with nothing changed; otherwise the row and its author links are appended |
| Db.Database.InsertAuthors | src/db.py:198-206 | appends the links of the paper's cleaned, de-duplicated author ids, in order, keeping every pair unique |
| Db.Database.InsertLinkOrIgnore | src/db.py:203-206 | the pair is present afterwards and was added only if absent |
| Db.Database.AddMonitoredJournal | src/db.py:237-246 | idempotent set insert: the journal is monitored afterwards, nothing else is added, and a second call changes nothing |
| Db.Database.AddMonitoredAuthor | src/db.py:273-282 | idempotent set insert for authors |
| Discovery.PairLeOrder | src/discovery.py:290 | ordering `(position, word)` tuples as Python does is total and transitive |
| Discovery.ReconstructAbstract | src/discovery.py:278-291 | computes the rebuilt abstract; a missing or empty index gives `""` |
| Discovery.IndexPairsMembership | src/discovery.py:284-287 | a `(position, word)` pair is collected exactly when some entry has that word and lists that position |
| Discovery.AbstractOrdered | src/discovery.py:283-291 | the sorted pairs are a permutation of all the index's pairs, in ascending position |
| Discovery.AbstractExample | src/discovery.py:283-291 | `{"hydrology": [0, 2], "water": [1]}` gives `hydrology water hydrology` |
| Discovery.FetchOpenAlex | src/discovery.py:206-276 | a failed request yields no papers and logs one `ERROR` event; otherwise the papers are those of the unseen works, in response order; the ledger is not changed |
| Discovery.UnseenPapersUnseen | src/discovery.py:222-224 | no paper built from a response has a link or DOI already seen |
| Discovery.DoiAndLink | src/discovery.py:218-220 | a work with a DOI URL gets the bare DOI as its DOI and keeps the URL as its link |
| Discovery.AuthorListsIndependent | src/discovery.py:249-256 | empty names and missing ids are skipped independently, so the two author lists can differ in length |
| Discovery.BatchesPartition | src/discovery.py:108-110 | the batches, concatenated, are the id list; each holds 1 to 50 ids; there are ⌈n/50⌉ of them |
| Discovery.SearchCitationsForAuthor | src/discovery.py:85-124 | a failed first request gives `[]` and logs nothing; otherwise each batch of the author's work ids goes through `_fetch_openalex`: the papers are those of each batch's response in batch order, one `ERROR` event is logged per failed batch, and one sleep is counted per batch |
| Discovery.FetchAllBatches | src/discovery.py:106-118 | after the loop every batch's response has been handled once, in order: the papers are their papers concatenated, the new events their events concatenated, and one sleep is counted per batch |
| Discovery.FetchBatch | src/discovery.py:110-118 | one turn handles exactly the next batch: its papers are appended, its events logged, and one more sleep counted |
| Discovery.CitingFolded | src/discovery.py:106-117 | the per-batch results of the loop, concatenated, are the citing papers and errors of all batches |
| Discovery.BatchDone | src/discovery.py:110-117 | each batch extends the loop's record by its response's papers and events |
| Discovery.CitingUnseenAndErrors | src/discovery.py:109-118 | citation search yields no paper already seen, and logs only `ERROR` events, at most one per batch |
| Discovery.MergedTasks | src/discovery.py:40-57 | the configured tasks come first and unchanged, followed by one task per non-empty promoted list |
| Discovery.PromotedJournalTask | src/discovery.py:42-48 | the promoted-journals task is a journal task whose `|`-joined id splits back into exactly the promoted ids |
| Discovery.RunAllTasks | src/discovery.py:35-83 | the papers are those of the merged tasks, task by task, each filtered by the seen check unless ignored |
| Discovery.MergeTasks | src/discovery.py:40-57 | builds the merged task list |
| Discovery.RunTasks | src/discovery.py:59-80 | every task's kept papers, concatenated in task order |
| Discovery.KeepUnseen | src/discovery.py:77-80 | one task's papers less the seen ones, in order |
| Discovery.DiscoveredUnseen | src/discovery.py:77-79 | without `ignore_seen` no discovered paper has been seen |
| Discovery.DiscoveredIgnoringSeen | src/discovery.py:59-80 | with `ignore_seen` every task's answer is kept whole, in task order, with no cross-task de-duplication |
| Discovery.UnknownTaskAddsNothing | src/discovery.py:63-74 | a task of unknown type contributes no papers |
| Discovery.DiscoveryWindow | src/discovery.py:16-33 | the window starts at the override, else at the last run's date, else 90 days ago; it ends at the override, else 7 days ahead |
| Discovery.WindowCoverage | src/discovery.py:16-33 | a first run covers 97 days; a later run without overrides starts at the last run's date and covers today |
| Discovery.CleanDoiArgumentUrl | src/discovery.py:199-200 | a DOI given as its `https://doi.org/` URL is searched for as the bare DOI |
| Fetcher.ResolverDoiIsTail | src/fetcher.py:124-126 | a DOI taken from a resolver `id` is a proper tail of it containing no `doi.org/` |
| Fetcher.ResolverDoi | src/fetcher.py:124-126 | an `id` `<host>doi.org/<bare>` gives `<bare>` |
| Fetcher.DublinCoreDoi | src/fetcher.py:118-121 | a Dublin Core identifier `doi:<bare>` gives `<bare>` unless a `prism_doi` takes precedence |
| Fetcher.DoiSchemeId | src/fetcher.py:127-128 | an `id` `doi:<bare>` gives `<bare>` when no earlier source applies |
| Fetcher.SplitAuthorsSpec | src/fetcher.py:56-62 | an author string splits on `,` if present, else on `;`, into stripped names without the separator; with neither it is the one stripped name |
| Fetcher.AuthorsFromSummarySpec | src/fetcher.py:67-80 | authors come from the summary only when it has a `<br />`; a single name is the whole stripped second segment and shorter than 300 characters |
| Fetcher.EntryAuthorsPrecedence | src/fetcher.py:53-67 | `authors`, then `author`, then `author_detail` take precedence; the summary is consulted only when none is present |
| Fetcher.CleanAbstractSpec | src/fetcher.py:83-90 | without `<br />` the summary is kept; with two segments the second, stripped; with three or more everything after the second break, stripped |
| Fetcher.FetchFeed | src/fetcher.py:25-103 | one readable feed's papers are its admitted entries, in order |
| Fetcher.FetchAll | src/fetcher.py:14-114 | the result is the first five papers (or all, if fewer) of the readable feeds, in feed order |
| Fetcher.FetchedPapersFetchable | src/fetcher.py:26-51 | every returned paper has a link, comes from a non-excluded source, and is unseen unless seen papers were asked for |
| Fetcher.ExcludedFeedEmpty | src/fetcher.py:47-51 | a feed whose title names Zenodo, Figshare, Unknown Source or Unknown Journal contributes nothing |
| Fetcher.UntitledFeedEmpty | src/fetcher.py:45-51 | an untitled feed is filed under "Unknown Journal" and so contributes nothing |
| Fetcher.BrokenFeedsIgnored | src/fetcher.py:21-23 | bozo feeds contribute nothing: the result is that of the readable feeds alone |
| Fetcher.IgnoreSeenKeepsLinked | src/fetcher.py:26-32 | with seen papers included, a non-excluded feed yields one paper per entry with a link |
| Extractor.PdfNameEndsPdf | src/extractor.py:21 | the PDF name is the filename stem with its `.md`s made `.pdf`, plus `.pdf`: the final `.md` always becomes `.pdf` |
| Extractor.DoiPdfName | src/extractor.py:21 | a DOI paper's PDF is its sanitised DOI plus `.pdf` when the DOI has no `.md` |
| Extractor.OtherPublishersUntouched | src/extractor.py:98 | links off `wiley.com` are requested as they are |
| Extractor.WileyAbstractPage | src/extractor.py:99-100 | a Wiley `/abs/` link is requested with `/pdfdirect/` in its place |
| Extractor.WileyDoiPage | src/extractor.py:101-104 | a Wiley `/doi/` link (no `/abs/`, no `/pdf/`) is requested as the agupubs `pdfdirect` URL of the DOI part before `?` |
| Extractor.DownloadPdf | src/extractor.py:90-135 | requests the rewritten URL; succeeds, and writes the file, exactly on status 200 with `application/pdf` in the lower-cased content type |
| Extractor.ScrubAbsent | src/extractor.py:69-73 | a substitution whose pattern matches nowhere leaves the text unchanged |
| Extractor.TagsStripped | src/extractor.py:73 | after tags are replaced, the tag pattern matches nowhere, and replacing again changes nothing |
| Extractor.SingleTag | src/extractor.py:73 | one tag followed by plain text becomes one space and that text |
| Extractor.HtmlText | src/extractor.py:52-88 | the HTML text is `""`, or the cleaned text of a status-200 page, at least 500 characters, with whitespace collapsed |
| Extractor.CleanHtmlKeepsText | src/extractor.py:67-75 | the cleaned page keeps every visible character of the tag-stripped page, in which no tag remains |
| Extractor.PdfTextShape | src/extractor.py:137-145 | the PDF text has no leading, trailing or repeated whitespace and keeps every other character of the pages, in order |
| Extractor.ExtractText | src/extractor.py:137-149 | computes the PDF text; an unreadable file gives `""` |
| Extractor.Process | src/extractor.py:11-50 | downloads only when the PDF is absent; records the local path whenever the file exists; returns the PDF text, else the HTML text, with the flag set, else the abstract with the flag clear |
| Generator.ParseTitleSpec | src/generator.py:63-70 | a title is `Untitled` or one trimmed line |
| Generator.HeadingTitle | src/generator.py:68-70 | a file starting `# <heading>` gets the trimmed heading as its title |
| Generator.DatedFilenameRoundTrip | src/generator.py:73-79 | reading a dated identity filename back gives the publication date and the cleaned first author: it inverts `to_filename` |
| Generator.UndatedName | src/generator.py:82-84 | a name without a valid leading date takes the file's mtime and its stem as author: the name less `.md`, or `.md` itself, which has no suffix |
| Generator.DoiNameUndated | src/generator.py:73 | a DOI filename (`10.…`) never parses as a date |
| Generator.WarningBlockRemoved | src/generator.py:89-94 | one warning block is cut out of the preview source, markers included |
| Generator.NoWarningKept | src/generator.py:89-94 | text without a warning marker is its own preview source |
| Generator.PreviewSpec | src/generator.py:96-105 | the preview is never empty; it is the short summary when that has text (no `##`, trimmed), otherwise it ends in `...` |
| Generator.ShortSummarySection | src/generator.py:96-99 | the section between `## Short Summary` and the next `##` is read back, trimmed |
| Generator.OriginalLinkSpec | src/generator.py:108-114 | the URL in the one original-link comment is read back, trimmed |
| Generator.DateText | src/generator.py:127 | `%Y-%m-%d` has ten characters with `-` at positions 4 and 7 |
| Generator.MakeEntry | src/generator.py:124-137 | a summary's record carries its year directory, its stem, a valid date and that date's month name |
| Generator.CollectYear | src/generator.py:57-137 | one directory's records, one per file whose name ends in `.md`, hidden names included, in listing order |
| Generator.HiddenSummaryCollected | src/generator.py:57-84 | a hidden summary `.<x>.md` with a valid mtime is collected, under the filename `.<x>` |
| Generator.CollectPapers | src/generator.py:51-138 | every directory's records, hidden `.md` files included, skipping plain files |
| Generator.NewerOrder | src/generator.py:28 | newest-first order, down to the microsecond an mtime carries, is total and transitive |
| Generator.NewestFirst | src/generator.py:28 | the sorted summaries are newest first down to the microsecond, a permutation of those collected, and summaries of equal date and time keep their order |
| Generator.IndexAndFeedNewest | src/generator.py:35-44 | no summary left out of the index or feed is newer than one shown, and the index is the start of the feed |
| Generator.GroupArchive | src/generator.py:165-173 | computes the year/month grouping |
| Generator.GroupedSpec | src/generator.py:167-173 | each archive list is exactly the papers of its year and month, in input order, and only non-empty lists exist |
| Generator.Build | src/generator.py:16-44 | sorts the collected summaries, hidden ones included, newest first down to the microsecond, takes 10 for the index and 20 for the feed, and groups the archive |
| Pipeline.Synthesizer.constructor | src/main.py:71 | the synthesizer starts on the given engine |
| Pipeline.ForceRelevant | src/main.py:80-84 | a paper added by DOI is relevant with the manual reason, its identity fields untouched |
| Pipeline.RunPapers | src/main.py:74-97 | in DOI mode, the first paper found, forced relevant, or no run at all when none is found; otherwise the RSS papers (when enabled) followed by the discovered ones |
| Pipeline.ProcessPaper | src/main.py:116-154 | one paper follows the state machine; the governor runs only for relevant papers; the engine used is the governed one; the events logged are those of the step; the seen rows, author links and next id become exactly what `add_seen` leaves for a marked paper (`PaperTables`) and are untouched for any other; a marked paper is seen afterwards when the ledger was reachable; the synthesizer's engine is restored |
| Pipeline.Govern | src/main.py:126-131 | the switch to the local engine, with one `BUDGET_WARNING`, happens exactly when the paid engine is active and the cost reached the cap |
| Pipeline.Synthesize | src/main.py:136-147 | the verdict decides the outcome; a synthesized paper goes through `add_seen` (the tables become `PaperTables` of the old ones) and is seen afterwards when the ledger was reachable; a failed one leaves the tables unchanged; the engine is restored |
| Pipeline.CountsOrdered | src/main.py:102-143 | synthesized ≤ relevant ≤ papers |
| Pipeline.OneWayMeaning | src/main.py:127-131 | each engine used is the starting one or the local one, and once local, always local |
| Pipeline.LoopStep | src/main.py:116-154 | each paper keeps the loop invariant: counts, engines used, warnings and budget warnings |
| Pipeline.ProcessAll | src/main.py:116-154 | the decisions and the seen rows, author links and next id left behind are exactly the fold `Handled` over the papers from the tables at the start; the loop only appends events, keeps the loop invariant and restores the engine |
| Pipeline.ProcessNext | src/main.py:116-154 | one turn decides the next paper on the current tables and extends the fold by exactly that paper |
| Pipeline.HandledNext | src/main.py:116-154 | the fold one paper further is the next paper decided on the current tables, with the tables it leaves |
| Pipeline.HandledTurn | src/main.py:116-120 | paper k is decided on whether the tables left by the papers before it have it seen, and later papers do not change that decision or remove a row |
| Pipeline.HandledSeenPrefix | src/main.py:116-154 | the loop never removes a seen row |
| Pipeline.HandledStartSeen | src/main.py:119-120 | a paper seen before the run is decided as a seen paper |
| Pipeline.HandledMarkedSeen | src/main.py:142-154 | a marked paper is seen at the end unless all three `add_seen` attempts failed |
| Pipeline.HandledNewRows | src/main.py:116-154 | a paper becomes seen during the loop only by sharing the link or DOI of a paper marked while the ledger was usable; skipped papers, papers without text and failed syntheses add no row |
| Pipeline.FreshRelevantPaper | src/main.py:116-147 | an unseen, relevant paper with text is `Synthesized`, counted as processed and recorded (ledger usable) when its synthesis succeeds, and `SynthesisFailed` with the tables unchanged when it fails |
| Db.SeenInGrows | src/db.py:137-147 | a paper found in the ledger is still found after rows are added |
| Pipeline.LoopDone | src/main.py:112-131 | after the loop, at most one `BUDGET_WARNING`, none when starting local; a local start uses only the local engine; every relevant paper either used an engine or logged a `WARNING` |
| Pipeline.StepEventCounts | src/main.py:128-151 | a paper logs a `WARNING` exactly when its text is missing, and a `BUDGET_WARNING` exactly when the switch fires |
| Pipeline.CollectConfiguredJournals | src/main.py:168-171 | the configured journal ids are every journal task's id split on `|` |
| Pipeline.CollectConfiguredAuthors | src/main.py:185-188 | the configured author ids are the whole ids of author and author-citation tasks |
| Pipeline.ConfiguredIdsAsymmetry | src/main.py:168-188 | an id inside a `|`-joined journal task counts as configured, but inside a `|`-joined author task it does not |
| Pipeline.PromotionEventsAt | src/main.py:173-195 | one `PROMOTION` event per promoted id, naming it, in promotion order |
| Pipeline.PromoteOne | src/main.py:174-178 | monitors one id and logs its event |
| Pipeline.Promote | src/main.py:173-195 | promotes exactly the promotable ids that are not configured, each once |
| Pipeline.PromoteJournals | src/main.py:163-178 | promotes exactly the promotable journals not in a configured journal task, with one event each; nothing else changes |
| Pipeline.PromoteAuthors | src/main.py:180-195 | the same for authors, against whole configured author ids |
| Pipeline.RunLoop | src/main.py:105-154 | the decisions and tables are those of the fold `Handled`, the counts those of the decisions, the engines one-way from the start engine and all local on a local start; the loop's events carry at most one `BUDGET_WARNING`, none when the run starts local |
| Pipeline.RunChosen | src/main.py:99-195 | the loop as `RunLoop` states, then the closing events and the promotions |
| Pipeline.Conclude | src/main.py:156-195 | appends the summary then one `PROMOTION` per promoted journal and author; monitors exactly the promotable, unconfigured ids; the ledger is untouched |
| Pipeline.PromoteAll | src/main.py:163-195 | journal promotion then author promotion: the events of both in order, and the monitored lists grow by exactly the promoted ids |
| Pipeline.Run | src/main.py:74-195 | a DOI without metadata logs one `ERROR` and ends; otherwise the decisions and the seen rows, author links and next id are exactly those of the fold `Handled` over the chosen papers, so paper i is decided on the seen flag it had when its turn came; the events are the loop's (at most one `BUDGET_WARNING`) followed by the summary and the promotion events, and the monitored lists gain exactly the promotable ids not configured |
| Pipeline.BackfillOverride | src/main.py:62-65 | an override exists exactly for a non-zero `--backfill` |
| Pipeline.BackfillWindow | src/main.py:62-68 | with a non-zero `--backfill N` discovery opens N days ago; with none or zero, at the last run's date; it always ends 7 days ahead |
| Pipeline.DoiModeBypassesFilter | src/main.py:119-123 | in DOI mode a paper is neither skipped as seen nor filtered out |
| Pipeline.MarkedIff | src/main.py:123-154 | a paper that is not skipped is marked exactly when it is irrelevant or it has text and its synthesis succeeded |
| Pipeline.SeenSkipped | src/main.py:119-120 | a seen paper is skipped exactly when neither `--force-all` nor `--add-doi` is given |
| Pipeline.GovernorOneWay | src/main.py:127-131 | the governor keeps the engine or switches to the local one, never back, and changes it exactly when the switch fires |
| Backfill.LimitIsY2k | backfill.py:25 | the floor is midnight of 2000-01-01 |
| Backfill.Metadata.Get | backfill.py:10 | reads the stored cursor, if any |
| Backfill.StepWindow | backfill.py:21-32 | no window exactly when the cursor is at or before the floor; otherwise the window ends at the cursor, starts at the floor or later, spans at most 7 days, and starts a week earlier unless clamped to the floor |
| Backfill.BackfillDateIsStart | backfill.py:41-44 | going `days_back` whole days back from now lands on the window's first day |
| Backfill.LookupMeaning | src/main.py:41-48 | an option is found exactly when one of that name is declared |
| Backfill.RejectsUndeclared | src/main.py:48 | an undeclared option makes argument parsing fail |
| Backfill.MainLookups | src/main.py:41-47 | `main` declares `--backfill` and `--deploy` but neither `--to-date` nor `--backfill-mode` |
| Backfill.ChildArgsRejected | backfill.py:48-53 | as written, `main` rejects every command the driver builds |
| Backfill.ChildArgsAccepted | backfill.py:48-53 | with the two missing options declared, every command the driver builds parses |
| Backfill.AsWrittenNeverAdvances | backfill.py:60-73 | as written, no run moves the cursor: each stops at the floor or fails |
| Backfill.CorrectedAdvances | backfill.py:60-73 | with the options declared, a run advances exactly when the cursor is past the floor and the pipeline succeeds |
| Backfill.RunBackfill | backfill.py:8-73 | the cursor is the stored day or a week ago; stops at the floor without an event; otherwise logs the start, builds the child command, and on success stores the window's first day and logs the end, else logs an `ERROR` and keeps the cursor |
| Backfill.NextDayStored | backfill.py:21-64 | a successful run from a stored day past the floor stores a day a week earlier, clamped to the floor |
| Backfill.DayAfterRuns | backfill.py:21-64 | after n successful runs the cursor is n weeks earlier, or the floor |
| Backfill.RunsStopAtLimit | backfill.py:25-29 | once the cursor is at the floor every run stops without doing anything |

## Left out

- Network, parsers and external tools are inputs, not models: OpenAlex, publisher pages, feedparser, PyMuPDF, the language models, markdown2, jinja2, rsync and the child process of `backfill.py`.
- The relevance filter (`src/filter.py`) is not part of this model; its verdict is an input.
- The synthesizer is not part of this model. Its verdict is an input. Its usage rows reach the monthly cost only through the cost value read mid-run.
- SQLite mechanics are left out: connections, WAL, timeouts, SQL evaluation and the schema migration. Tables are sequences with their uniqueness constraints as invariants.
- SQL errors other than `add_seen`'s per-attempt outcome are left out. `get_monthly_cost` takes a flag for the failing query.
- `time.sleep` is only counted: `add_seen` sleeps after "locked", and `search_citations_for_author` sleeps after each batch.
- Db.Database.PromotableJournals: the query's rows are a set. SQL `GROUP BY` gives no order, so the model gives none.
- Db.Database.PromotableAuthors: the query's rows are a set, as above.
- Db.Database.AddSeen: an empty DOI is stored as NULL. This is the corrected behaviour; see Findings.
- `get_recent_events` and `get_all_processed_dates` are used only by site rendering and scripts outside the model.
- Discovery: the individual search queries are one answer per task. Their filter strings are not modelled: `search_by_keywords`, `_author`, `_journal`, `_issn`, `_doi_citation` and `_citing_id`.
- Discovery.FetchOpenAlex: a JSON `null` title is read as `None` in the source and stored as NULL. The model has no null title and gives `No Title`, as for an absent key.
- Discovery.FetchOpenAlex: a JSON `null` source `display_name` is read as `None` in the source (src/discovery.py:237), so the paper's source is `None`. The model has no null source name and gives `Unknown Source`, as for an absent key.
- Discovery.FetchOpenAlex: an exception while reading a work, such as an unparsable publication date, is not modelled. In the source it discards the whole response.
- Discovery.RunAllTasks: the `ERROR` event `_fetch_openalex` logs for a failed search (src/discovery.py:271-275) is not modelled here. The `results` input gives only each task's papers. `SearchCitationsForAuthor` alone is modelled with its requests and their events.
- Discovery.RunTasks: the same; a dispatched search's `ERROR` event is not logged.
- Discovery.DiscoveryWindow: date strings are day numbers, so the `%Y-%m-%d` text round-trip is not modelled.
- Pipeline.Run: site generation and `deploy` are not modelled. Argument parsing is the `Flags` input.
- Pipeline.Run: the run-cost and monthly-total figures in the summary message are not modelled. Floating-point formatting is out of scope.
- Pipeline.Govern: the `BUDGET_WARNING` message omits the month's cost figure, `({cost:.2f}€)`, because floating-point formatting is out of scope.
- Pipeline.ProcessPaper: the cost read mid-run is an input. The usage rows behind it are written by the synthesizer, which is not part of this model.
- Extractor: the regular expressions are explicit scanners. `<(script|style).*?</\1>` matches up to the first closing tag of the same name.
- Extractor.Process: the year directory is not created (`mkdir`).
- Extractor.Process: the updated paper is returned as a value rather than mutated in place.
- Extractor.DownloadPdf: the download's bytes are not modelled; only the file's presence is.
- Fetcher.FetchAll: feed parsing is the `Feed` input. An exception raised part-way through a feed (src/fetcher.py:111-112) keeps, in the source, the papers already appended from that feed. The model has no such partial feed: a feed gives all its qualifying entries, and a `bozo` feed gives none.
- Generator: rendering of pages, index, archive, about page and both RSS files is not modelled. Neither is the markdown conversion.
- Generator: the events feed (`_generate_events_rss`) is not modelled.
- Generator.MakeEntry: a summary's `content` and `raw_content` are not modelled.
- Strings: character classes are ASCII. Python's Unicode `isspace` table is modelled exactly, but `isalnum`, `isupper`, `lower` and `capitalize` are not Unicode-aware.
- Strings.IsDigit: only `0`-`9`. Python's `isdigit` also accepts other Unicode digits, such as `²` or Arabic-Indic digits, in the date prefix of a summary name.
- Backfill: times are integer seconds and dates are day numbers. `dateText` stands for `strftime("%Y-%m-%d")` in messages and in the child's `--to-date`.
- Backfill.RunBackfill: `sys.exit(1)` on failure is the `Failed` outcome.
- Backfill.RunBackfill: the child's exit status is the `childOk` input. `Outcome` relates it to argument parsing.
- Backfill: argparse prefix abbreviations and the `--opt=value` spelling are not modelled. The child is checked for undeclared options only.
- Backfill.Metadata: `backfill.py` calls `db.get_metadata` and `db.set_metadata`, but `src/db.py` defines neither. The model supplies the key/value store the driver expects, holding day numbers. A stored empty string is treated as no cursor.
- Scripts outside the pipeline are not modelled: `recover_pdfs.py`, `manual_process.py`, `debug_script.py`, `check_*.py`, `reprocess_batch_2.py`, `resolve_promoted.py` and `scripts/`.

## Findings

| source | as written | input that shows it | evidently intended | confidence | as-written member | corrected member |
|---|---|---|---|---|---|---|
| src/db.py:183-194 | `add_seen` stores the DOI as given, so an empty DOI `""` is a non-NULL value under `doi TEXT UNIQUE`, while `is_seen` ignores an empty DOI | a row with DOI `""` exists, and a paper with a new link and DOI `""` arrives: `is_seen` says unseen, the insert fails with `IntegrityError`, and the paper is never recorded, so every run processes it again | an empty DOI treated as no DOI on both sides, so that seen and collides agree | not executed | Db.EmptyDoiCollidesUnseen | Db.SeenIffCollides |
| backfill.py:48-53 | the driver passes `--to-date <end>` and `--backfill-mode`, which `src/main.py:41-47` does not declare; argparse exits with status 2 on them | once the metadata store exists (as written, `src/db.py` has no `get_metadata`, so backfill.py:10 raises `AttributeError` before anything is logged): any cursor after 2000-01-01 makes the child fail, the cursor never moves, and every run repeats the same week and logs an `ERROR` | `main` accepting both options, so that each successful run moves the cursor a week back | not executed | Backfill.AsWrittenNeverAdvances | Backfill.CorrectedAdvances |
