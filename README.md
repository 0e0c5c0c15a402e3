# Job-application email tracker: reconciliation and aggregation core

This project models the core of a job-application tracker in Dafny. The
tracker reads job-related e-mails, turns each one into an application record,
and merges that record into a PostgreSQL table of applications keyed by the
e-mail's message id. It also rewrites legacy status names and builds the
pipeline views shown on the dashboard and served by the HTTP back end.

The model covers these parts:

- **The applications table** (module `DataManager`, class `ApplicationTable`).
  - The table is a sequence of rows. Each row has a serial id, an `email_id` key, and a map from column to text; an absent key is SQL NULL.
  - `add_application` runs the four strategies in the code's order, and the first that applies ends the call:
    - an exact `email_id` hit (last write wins);
    - a row named by `related_application_id` (last write wins, with a legacy-rank status guard);
    - the first fuzzy company/role candidate (fill-forward only);
    - otherwise a new row.
  - The decision and its effect are stated on values in module `Reconciliation`. The methods are proved against that function.
  - The manual overrides `update_status` and `update_location`, and `get_statistics`, work on the same table.
- **The fallback parser** (module `LlmParser`): header extraction, field truncation, the keyword-precedence fallback status, sender-domain company extraction, and `find_related_application`.
- **The rule-based parser** (module `EmailParser`): header scan, sender and subject company, location filter, keyword status categories, length caps.
- **The ingestion driver** (module `ProcessEmails`): the message loop with its `processed`/`new`/`updated`/`skipped` counters. The mail service, the parser and the outcome of each save and reload are parameters.
- **Status normalisation**.
  - Module `Statuses` holds the two-entry legacy mapping `In Progress → Recruiter Screen`, `Withdrawn → Dropped`, and the seven pipeline names.
  - Module `MigrateStatuses` is the one-off migration.
  - Module `Dashboard` holds the Sankey flow and colour lists and the "last run" label.
  - Module `Backend` holds the funnel counts, the `/api/applications` filters and date conversion.

Module `Text` holds the string operations the Python code uses:
- ASCII `lower()` and `title()`;
- `strip()` and `split()` on Python whitespace;
- substring `in`, slicing and `split('T')[0]`;
- the `@([^.]+)` sender-domain run.

Module `Statistics` holds the `GROUP BY`/`ORDER BY count DESC LIMIT 10` aggregation.

Where the design description and the code disagree, the model follows the code:

- The only status ordering used when merging is the legacy four-level rank in `add_application`: Applied 0, In Progress 1, Rejected 2, Withdrawn 3, any other name 0. It is applied only on the `related_application_id` path. There is no seven-stage hierarchy, so `Offer` or `Interview` never replaces a non-empty status there.
- The exact-match path writes the incoming status unconditionally.
- Fuzzy matching has no date-proximity test and no date ordering. Candidates are taken in table order, because the query has no `ORDER BY`.
- No part of the driver calls `find_related_application`. It is modelled on its own.

## Model

| member | source | states |
|---|---|---|
| DataManager.ApplicationTable.AddApplication | data_manager.py:130-310 | On values every column's type accepts, the new table, serial counter and success flag are exactly those of the four-way resolution; the table invariant (unique keys, unique ids below the counter, a status on every row) is kept |
| DataManager.ApplicationTable.UpdateStatus | data_manager.py:316-334 | Returns true iff a row has that `email_id`; only that row's status changes, to the new value with no ordering check; every other row and column is unchanged |
| DataManager.ApplicationTable.UpdateLocation | data_manager.py:336-354 | Returns true iff a row has that `email_id`; only that row's location changes (set, or NULL when None); everything else is unchanged |
| DataManager.ApplicationTable.SetStatusWhere | migrate_statuses.py:32-37 | One `UPDATE ... WHERE status = old` rewrites exactly the rows with that status and reports how many there were |
| DataManager.CollectValues | data_manager.py:143-156 | The exact-match path collects every incoming non-None column |
| DataManager.LinkValues | data_manager.py:179-201 | The link path collects every incoming column except a status the rank guard drops |
| DataManager.FillForwardValues | data_manager.py:237-256 | The fuzzy path collects exactly the incoming columns whose current value is NULL or empty |
| DataManager.SameCompanyAndRole | data_manager.py:225-235 | The loop's per-candidate test: the companies contain one another and the titles are non-empty and share a word |
| DataManager.FindFuzzyTarget | data_manager.py:214-235 | The scan over the query's rows returns the first candidate passing the loop's test, or none |
| DataManager.ScanCandidates | data_manager.py:225-235 | The loop returns the position of the first candidate that passes, in query order |
| DataManager.MergeInto | data_manager.py:258-267 | An UPDATE runs only for a non-empty column set, and the result is the row with those columns overwritten |
| DataManager.CountStatus | migrate_statuses.py:37-39 | The number of rows holding a given status is at most the table size |
| DataManager.RemapRows | migrate_statuses.py:32-36 | Only the status of rows holding the old name changes; keys, ids and every other column stay |
| Reconciliation.ResolutionOrder | data_manager.py:140-302 | The strategy is ExactMatch iff the key exists; otherwise Linked iff the related id names a row; otherwise FuzzyMatch iff some row qualifies (then the first qualifying row); otherwise Insert |
| Reconciliation.FuzzyTargetIsFirstQualifying | data_manager.py:214-235 | A fuzzy target exists iff the incoming company is non-empty and some row qualifies; it is the first such row |
| Reconciliation.CandidateTestIsQualifies | data_manager.py:215-235 | Being selected by the LIKE query and passing the loop test is the same as: the row's company contains the incoming one and both titles are non-empty and share a word |
| Reconciliation.FirstCandidateIsFirstQualifying | data_manager.py:225-267 | The first candidate passing the loop is the first qualifying row of the whole table |
| Reconciliation.NoCandidateNoQualifying | data_manager.py:225-235 | When no candidate passes, no row of the table qualifies |
| Reconciliation.FuzzyNeedsTitle | data_manager.py:229-235 | Without an incoming title the fuzzy path never applies and the record is inserted |
| Reconciliation.ExactMatchOverwrites | data_manager.py:140-166 | On a key hit every incoming column overwrites the row, status unchecked; other columns, key and id stay; nothing is inserted; an empty column set fails |
| Reconciliation.LinkStatusGuard | data_manager.py:168-212 | On the link path status is written iff incoming is empty, the target's is empty, or the incoming legacy rank is strictly greater; every other incoming column is written; no other row changes |
| Reconciliation.LinkNeverPromotesUnrankedNames | data_manager.py:189-201 | An incoming status ranked 0 (Applied and every pipeline name except Rejected) never replaces a non-empty status on the link path |
| Reconciliation.FuzzyFillForward | data_manager.py:237-267 | The fuzzy path writes exactly the incoming columns whose current value is NULL or empty, and nothing else |
| Reconciliation.FuzzyKeepsNonEmpty | data_manager.py:240-256 | A non-empty value, including the default status 'Applied', is never changed by the fuzzy path |
| Reconciliation.InsertAtMostOne | data_manager.py:269-302 | A row is added only on the insert path and then exactly one, with the incoming key, the next serial id, the given columns and status defaulting to 'Applied' |
| Reconciliation.OnlyTargetChanges | data_manager.py:140-302 | No path changes the key or id of an existing row, and every row except the single target is unchanged |
| Reconciliation.ReconcileKeepsTableValid | data_manager.py:73-91 | Every call keeps unique keys, unique serial ids below the counter and a status on every row |
| Reconciliation.ResolveStable | data_manager.py:140-235 | The strategy depends only on the keys, companies and titles of the rows |
| Reconciliation.ReconcileIdempotent | data_manager.py:130-310 | Processing the same record twice leaves the table and counter as the first call left them |
| Reconciliation.Candidates | data_manager.py:215-223 | The query returns, in table order, exactly the rows whose lowered company contains the incoming one |
| Reconciliation.FirstSameApplication | data_manager.py:225-235 | The first candidate passing the loop's test: it passes and none before it does; none means none passes |
| Reconciliation.CandidatesStable | data_manager.py:215-223 | The candidate list depends only on keys and companies |
| Reconciliation.FillForwardSettles | data_manager.py:240-256 | After a fill-forward nothing is left blank that the same record could fill again |
| Reconciliation.Resolve | data_manager.py:140-302 | A target is a row of the table; the strategy is ExactMatch iff the key is present, and then the target holds that key; a Linked target holds the related id |
| Reconciliation.Reconcile | data_manager.py:130-310 | On values every column's type accepts, the call commits unless it is an exact hit with no column to write, and then the table and counter are unchanged; exactly one row and one serial value are added on the insert path, none otherwise |
| Reconciliation.LinkUpdate | data_manager.py:186-201 | The link path writes incoming values only; every incoming column other than status is written, and status iff it is given and the rank guard does not drop it |
| Reconciliation.FillForward | data_manager.py:240-256 | The fuzzy path writes exactly the incoming columns that are NULL or empty in the target, with the incoming values |
| Reconciliation.UpdateRow | data_manager.py:159-164 | An UPDATE of one row: the written columns take the new values, every other column, the key and the id of that row stay, and no other row changes |
| Reconciliation.NewRow | data_manager.py:269-300 | The inserted row has the next serial id, the incoming key and exactly the given columns, with status defaulting to 'Applied' |
| Reconciliation.UpdateRowKeepsTableValid | data_manager.py:159-164 | Updating columns of one row keeps unique keys, unique ids and a status on every row |
| Schema.Given | data_manager.py:143-156 | A column is supplied iff it is present and non-empty (Python truthiness) |
| Schema.IndexOfEmail | data_manager.py:140-141 | Finds the row with a key; none iff no row has it |
| Schema.IndexOfEmailStable | data_manager.py:76 | Updates that keep keys keep every key lookup |
| Statuses.LegacyRank | data_manager.py:196-197 | The rank is at most 3 and positive exactly for In Progress, Rejected and Withdrawn |
| Statuses.PipelineNamesMostlyRankZero | config.py:37-45 | Every pipeline name except Rejected ranks 0 on the legacy scale |
| Statuses.Normalise | dashboard.py:57-61 | No legacy name survives; In Progress becomes Recruiter Screen, Withdrawn becomes Dropped, other names are kept |
| Statuses.SequentialMappingIsNormalise | migrate_statuses.py:24-36 | Applying the mapping entry by entry, as the migration does, is the same normalisation the dashboard and back end use |
| Statuses.NormaliseIdempotent | backend/main.py:139-143 | Normalising twice equals normalising once |
| Statistics.StatisticsProperties | data_manager.py:356-400 | `total` is the row count and `by_status` sums to it; company and location tallies have at most 10 distinct non-NULL keys, by count descending, each with its exact positive count |
| Statistics.StatisticsTopCompanies | data_manager.py:376-385 | A company left out of the top 10 counts no more than any company kept, and then exactly 10 are kept |
| Statistics.StatisticsTopLocations | data_manager.py:387-396 | A location left out of the top 10 counts no more than any location kept, and then exactly 10 are kept |
| Statistics.StatisticsOnError | data_manager.py:402-407 | On a failed query every figure is zero or empty |
| Statistics.GetStatistics | data_manager.py:356-407 | A failed query gives zeros and empty tallies; otherwise `total` is the row count and there is one status tally per distinct status; the company and location tallies keep at most 10 entries |
| Statistics.GroupCount | data_manager.py:369-374 | One tally per distinct value, in first-seen order, with its occurrence count |
| Statistics.GroupCountSum | data_manager.py:369-374 | The group counts add up to the number of rows |
| Statistics.GroupCountShape | data_manager.py:369-374 | Keys are distinct, cover exactly the values present, and every count is positive |
| Statistics.TopK | data_manager.py:376-396 | `LIMIT k` keeps min(k, n) tallies, all from the input |
| Statistics.TopKDescending | data_manager.py:376-396 | The kept tallies are ordered by count descending |
| Statistics.TopKKeepsLargest | data_manager.py:376-396 | A tally left out counts no more than any kept one |
| Statistics.TopKDistinct | data_manager.py:376-396 | Distinct keys stay distinct after the cut |
| Statistics.FirstMax | data_manager.py:381-383 | Picks a tally of maximal count, the first among equals |
| Statistics.NonNull | data_manager.py:380-381 | `WHERE col IS NOT NULL`: exactly the present values of the column |
| Statistics.Distinct | data_manager.py:369-374 | No duplicates and the same members as the input |
| Statistics.OccurrenceSumBounded | backend/main.py:153-164 | Counting a list of distinct names never exceeds the input length, and equals it when every value is one of them |
| Statistics.OccurrenceSumDistinct | data_manager.py:369-374 | Counting every distinct value accounts for every element |
| Statistics.CountSumIsOccurrenceSum | data_manager.py:369-374 | A list of tallies sums to the occurrence total of its keys |
| LlmParser.ExtractEmailHeaders | llm_parser.py:66-73 | A key is present iff some header name lowercases to it, and its value is that of the last such header |
| LlmParser.TruncateFields | llm_parser.py:193-195 | job_title, company and location become prefixes of at most 200 characters, shorter ones unchanged; other fields and the key set are unchanged |
| LlmParser.FallbackStatus | llm_parser.py:218-232 | The fallback status is always one of the seven pipeline names |
| LlmParser.FallbackStatusIsClassify | llm_parser.py:218-232 | It is the first category, in the order Offer, Rejected, Interview, Recruiter Screen, Dropped, Ghosted, with a keyword in the lowered text, else Applied |
| LlmParser.FallbackCompany | llm_parser.py:212-216 | A company exists iff the sender has an '@' followed by a non-'.' character; it is exactly that run up to '.', title-cased, so equal to it up to case and free of '.' |
| LlmParser.FallbackApplicationDate | llm_parser.py:241 | Present iff the e-mail date is non-empty; it is the date's prefix before the first 'T' |
| LlmParser.CreateFallbackResult | llm_parser.py:210-248 | Confidence 'low', new application, no title, location or related id, the given date, sender and subject, a pipeline status, and company and application date as above |
| LlmParser.FallbackRecord | llm_parser.py:234-248 | The record dictionary: exactly these keys, and None-valued entries absent |
| LlmParser.WithOptional | llm_parser.py:234-248 | An optional field is stored iff it is not None |
| LlmParser.FallbackNeverMerges | llm_parser.py:210-248 | A fallback record is never linked or fuzzily merged: it either hits its own key or is inserted |
| LlmParser.TitleKeepsUncased | llm_parser.py:216 | Title-casing never introduces an uncased character such as '.' |
| LlmParser.FindRelatedGuards | llm_parser.py:256-263 | No existing rows, no rows, or a not-new record give None; a None company or title raises; an empty company gives None |
| LlmParser.FindRelatedIsFirstMatch | llm_parser.py:266-281 | The result is the key of the first row whose company contains or is contained in the incoming one and whose role shares a word when both are non-empty; None iff no row matches |
| LlmParser.FirstRelated | llm_parser.py:266-279 | The first matching row in table order; none means no row matches |
| LlmParser.FindRelatedApplication | llm_parser.py:251-281 | A related id is returned only for a new application and is the key of a row of the table; the call raises iff the table is non-empty, the record is new and its company or title is None |
| LlmParser.SameCompanyNeedsSharedWord | llm_parser.py:272-277 | Equal companies with non-empty roles that share no word do not match |
| LlmParser.EmptyRoleNeedsEqualCompany | llm_parser.py:272-279 | When either role is empty a row matches iff the lowered companies are equal |
| EmailParser.ParseEmailForJobApplication | email_parser.py:19-185 | Subject, sender and date come from the last matching header; the id defaults to ''; title, company and location are the first pattern hits, capped; status is the first keyword category |
| EmailParser.ScanHeaders | email_parser.py:43-56 | Subject and from are the values of the last header whose lowered name matches; date is parsed or replaced by the current time |
| EmailParser.SearchPatterns | email_parser.py:114-126 | The first pattern that matches gives the group, stripped |
| EmailParser.SearchJobTitle | email_parser.py:114-126 | The title is searched in the subject and, only if none is found, in the body |
| EmailParser.SearchCompany | email_parser.py:129-146 | A subject pattern hit overrides the company from the sender |
| EmailParser.SearchLocation | email_parser.py:155-162 | The first acceptable candidate, in pattern order |
| EmailParser.SearchStatus | email_parser.py:164-175 | The status the keyword categories assign |
| EmailParser.FirstMatch | email_parser.py:114-126 | The first matching pattern index: it matches and none before it does; none means none matches |
| EmailParser.FirstMatchAt | email_parser.py:114-126 | A matching pattern with no earlier match is the one selected |
| EmailParser.NoMatchAt | email_parser.py:114-126 | When no pattern matches, nothing is selected |
| EmailParser.FirstLocation | email_parser.py:155-162 | The accepted location is the stripped group of a pattern that passes the filter, and no earlier pattern gives a group that passes; none is accepted only if no candidate passes |
| EmailParser.FirstAccepted | email_parser.py:155-162 | The search over the location patterns for any filter: the first pattern whose stripped group passes, with no earlier one passing; none means none passes |
| EmailParser.Cap | email_parser.py:177-183 | A present value becomes a prefix of at most n characters, unchanged if already short enough |
| EmailParser.ParsedFieldsCapped | email_parser.py:177-183 | The title is at most 200 characters and the company and location at most 100; shorter values are unchanged |
| EmailParser.CompanyFromSender | email_parser.py:129-133 | With no subject hit, a company exists iff the sender has '@' followed by a non-'.' character, and it is exactly that run title-cased (equal to it up to case) |
| EmailParser.SubjectCompanyWins | email_parser.py:142-146 | The first subject pattern that matches sets the company, stripped |
| EmailParser.TitlePrefersSubject | email_parser.py:114-126 | A non-empty title from the subject is kept and the body is not searched |
| EmailParser.RuleStatusPrecedence | email_parser.py:164-175 | Categories are tried in the order rejected, in progress, withdrawn; the first hit decides, and 'Applied' is the default |
| EmailParser.RuleStatus | email_parser.py:164-175 | The status is 'Applied' iff no category has a keyword in the text |
| EmailParser.JobTitleFound | email_parser.py:114-126 | A non-empty subject title wins; otherwise a body title, if any, is taken; there is no title iff neither subject nor body matches |
| EmailParser.CompanyFound | email_parser.py:129-146 | A subject pattern hit gives the company; without one it is the sender's '@' run title-cased; there is none iff no subject pattern matches and the sender has no '@' run |
| Keywords.FirstHit | llm_parser.py:218-232 | The first category with a keyword hit; none means no category hits |
| Mail.LastValue | llm_parser.py:66-73 | A header value exists iff some name lowercases to the key, and comes from the last such header |
| Mail.LastValueSnoc | email_parser.py:43-56 | A later header with the same name overrides an earlier one |
| ProcessEmails.ProcessEmails | process_emails.py:56-145 | Without a mail service or messages nothing changes and the counters are zero. Otherwise the table, counter and counters are those of the messages handled in list order, starting from the loaded table or an empty frame when that load fails. Each save either raises before committing anything, or commits and is followed by a reload that gives the table or an empty frame |
| ProcessEmails.Classified | process_emails.py:115-126 | Exactly one of `new` or `updated` goes up by one |
| ProcessEmails.Fetched | process_emails.py:87-89 | At most one fetched message per listed one |
| ProcessEmails.FetchMissChangesNothing | process_emails.py:87-89 | A fetch that returns nothing changes no counter and no table |
| ProcessEmails.NoCompanySkipped | process_emails.py:97-102 | A parse without a company increments `skipped` and never reaches the store |
| ProcessEmails.ClassifiedOnce | process_emails.py:115-145 | `updated` when the key is in the loaded snapshot or a not-new record has a related id, else `new`. The message counts as processed iff the save does not raise, and as skipped iff it does. A save that returns applies the four-way resolution; one that raises leaves table, counter and snapshot as they were. The reload gives the new table, or an empty frame when loading fails |
| ProcessEmails.EmptySnapshotCountsNew | process_emails.py:114-126 | After a reload that gave an empty frame, a message that is not a linked update counts as new, whatever the table holds |
| ProcessEmails.Step | process_emails.py:83-145 | Each fetched message adds exactly one to processed plus skipped, and a missed fetch adds nothing; `processed` never goes down |
| ProcessEmails.Run | process_emails.py:83-145 | Handling the messages in list order never lowers `processed` |
| ProcessEmails.RunAccounting | process_emails.py:83-145 | Over a run, processed plus skipped equals the number of fetched messages, and every processed message was counted as new or updated |
| ProcessEmails.SnapshotAfterSave | process_emails.py:130-134 | After a save and reload, a later message with the same key counts as an update |
| MigrateStatuses.Migrate | migrate_statuses.py:9-39 | The table becomes the entry-by-entry remapped one and each reported count is the number of rows that held the old status |
| MigrateStatuses.MigratedRows | migrate_statuses.py:32-36 | No row is added or removed; keys, ids and every non-status column stay; each status is normalised |
| MigrateStatuses.NoLegacyStatusLeft | migrate_statuses.py:24-36 | No row keeps 'In Progress' or 'Withdrawn' |
| MigrateStatuses.OtherRowsUnchanged | migrate_statuses.py:32-36 | A row with any other status is exactly as it was |
| MigrateStatuses.CountStatusRemapOther | migrate_statuses.py:37-39 | One statement leaves the count of every other status unchanged, so the second entry's count is its row count in the original table |
| MigrateStatuses.MigrateIdempotent | migrate_statuses.py:24-28 | Migrating twice equals migrating once |
| MigrateStatuses.Migrated | migrate_statuses.py:24-36 | The migrated table has the same rows in the same order, with the same keys and the same set of non-NULL columns |
| MigrateStatuses.MigratedPrefix | migrate_statuses.py:32-36 | After any number of statements every row keeps its key, id and set of non-NULL columns |
| Dashboard.CreateSankeyDiagram | dashboard.py:40-189 | Empty input gives None; otherwise None iff no flow is drawn; the source, target, value and colour lists have equal length and follow the drawn flows position by position with their colours |
| Dashboard.Prepared | dashboard.py:50-61 | A missing status becomes 'Applied' and then every status is normalised |
| Dashboard.CandidateLinks | dashboard.py:96-129 | The lists hold exactly the six candidate flows with a positive count, in the code's order |
| Dashboard.AddFlow | dashboard.py:96-129 | A flow is appended iff its count is positive |
| Dashboard.LinkColors | dashboard.py:174-189 | The colour of each link follows the code's branches on source and target |
| Dashboard.PositiveFlowsSubset | dashboard.py:96-129 | Every flow kept is a candidate with a positive value |
| Dashboard.NoPositiveFlows | dashboard.py:96-139 | No candidate is appended iff the screen, interview, offer, rejected, ghosted and dropped counts are all 0 |
| Dashboard.DrawnIffPositive | dashboard.py:96-162 | A candidate is drawn iff its count is positive; with none and a positive applied count the only flow is Applied → Recruiter Screen |
| Dashboard.NothingToDraw | dashboard.py:140-162 | Nothing is drawn iff all seven counts are 0 |
| Dashboard.DrawnFlowsWellFormed | dashboard.py:174-189 | Every drawn flow has a positive value and a source below 3; it is teal iff stage to stage, green iff to Offer, red iff to another outcome, never grey |
| Dashboard.StageCountsBounded | dashboard.py:73-81 | The seven counts sum to at most the number of rows, and exactly to it when every prepared status is a pipeline name |
| Dashboard.PipelineNamesDistinct | config.py:37-45 | The seven pipeline names are distinct |
| Dashboard.PipelineOccurrenceSum | dashboard.py:73-81 | The seven counts are the occurrence sum of the pipeline names |
| Dashboard.LastRunLabel | dashboard.py:292-302 | Days iff days > 0, showing that day count; hours iff no whole day and over 3600 s, with whole hours; minutes iff no whole day and 61 to 3600 s; else 'Just now' |
| Dashboard.OneHourReadsAsMinutes | dashboard.py:294-299 | Exactly 3600 s reads as 60 minutes |
| Dashboard.Edges | dashboard.py:96-129 | Six candidate flows, each from a stage node to a later node no further than Offer |
| Dashboard.DrawnFlows | dashboard.py:96-162 | Every drawn flow has a positive value, and a positive applied count always draws something |
| Dashboard.LinkColor | dashboard.py:174-189 | Grey iff the source is an outcome; otherwise teal iff the target is a stage, green iff it is Offer, red iff it is another outcome |
| Dashboard.PositiveFlowsArePositive | dashboard.py:96-129 | Every appended flow has a positive value |
| Backend.ConvertDateToString | backend/main.py:69-75 | None and NaN give None; dates give their ISO text; other values their text, or None when empty |
| Backend.ConvertIsStable | backend/main.py:69-75 | Converting the converted text again gives the same result |
| Backend.Filtered | backend/main.py:93-96 | The kept rows are rows of the table satisfying the active filters |
| Backend.FilteredExactly | backend/main.py:93-96 | A row is kept iff it is in the table and its status and company equal the active filters |
| Backend.NoFilterKeepsAll | backend/main.py:93-96 | Without filters every row is kept |
| Backend.FiltersCompose | backend/main.py:93-96 | Filtering by status, then by company, is filtering by both at once |
| Backend.RawRecord | backend/main.py:98-108 | Each record has the e-mail id and every column the load selects, NULL as None |
| Backend.GetApplications | backend/main.py:84-110 | An empty table gives an empty list; otherwise one record per kept row, in the frame's order, with its key, every selected column, the dates converted and the other columns as stored |
| Backend.ConvertRecord | backend/main.py:102-106 | One pass of the conversion loop: the record holds the row's key and every selected column, with `application_date` and `date` converted and the others as stored |
| Backend.MappedStatuses | backend/main.py:139-143 | Each status is normalised; NULL stays NULL |
| Backend.GetFunnelData | backend/main.py:125-172 | An empty table gives an empty list; otherwise seven entries in pipeline order, each counting the rows whose normalised status is that stage |
| Backend.FunnelTotalIsOccurrenceSum | backend/main.py:153-170 | The funnel total is the occurrence sum of the stage names |
| Backend.FunnelCountsBounded | backend/main.py:139-170 | The funnel counts sum to at most the number of rows, and exactly to it when every status normalises to a pipeline name |
| Backend.MappedInPipeline | backend/main.py:139-143 | When every status normalises to a pipeline name, every mapped value is one |
| Backend.NullStatusUncounted | backend/main.py:139-164 | A NULL status is counted in no stage |
| Text.Lower | llm_parser.py:220 | Same length, no upper-case letter left, uncased characters unchanged |
| Text.TitleAt | email_parser.py:133 | Title-casing keeps the length; each character is upper-cased at the start of a word (after an uncased character or at the start) and lower-cased elsewhere |
| Text.TitleLower | email_parser.py:133 | Title-casing keeps the lower-cased text |
| Text.TitleWordStart | email_parser.py:133 | A text starting with a letter starts upper-case after title-casing |
| Text.Strip | email_parser.py:117 | No leading or trailing whitespace remains; empty iff the text was all whitespace |
| Text.StripIsSlice | email_parser.py:117 | `strip()` returns one contiguous slice of its input, with only white space before and after it |
| Text.Words | data_manager.py:233-234 | `split()` gives non-empty words without whitespace |
| Text.CommonWordIsIntersection | data_manager.py:235 | The word-overlap test holds iff the two word sets intersect |
| Text.ContainsAt | data_manager.py:231 | A substring at some position makes `in` true |
| Text.ContainsBound | data_manager.py:231 | A contained string is no longer than the container |
| Text.Prefix | llm_parser.py:195 | Slicing to n gives a prefix of at most n characters, the whole text when short enough |
| Text.BeforeFirst | llm_parser.py:241 | The prefix before the first occurrence of a character holds no such character |
| Text.AtRun | llm_parser.py:213-214 | `@([^.]+)` matches iff an '@' is followed by a non-'.' character; the group is non-empty and holds no '.' |
| Text.AtRunFollowsAt | llm_parser.py:213-214 | The group is the run after the first '@' that is followed by a non-'.' character |

## Left out

- Gmail access (listing, fetching, marking as read) and the OpenAI call with its JSON decoding: network services. The fetch results become a sequence parameter and the parser a function parameter of `ProcessEmails.ProcessEmails`.
- HTML and base64 body extraction: library behaviour outside the code here. Bodies are plain strings.
- The job-title, subject-company and location regular expressions: they are modelled as oracle `Matcher` functions returning each pattern's stripped group. `parsedate_to_datetime` is an oracle parameter, and `datetime.now()` is a parameter.
- Database connection, database and table creation, and `load_data`. The table is an in-memory sequence of rows.
- The `ORDER BY date DESC` of `load_data`: records and snapshots keep the table's own order, so `Backend.GetApplications` returns them in that order, not newest first.
- In `process_emails`, the `DataManager()` constructor and the initial `load_data` are outside the loop's `try`; the constructor's connection failure, which ends the whole run, is not modelled. `mark_as_read` catches its own errors and only talks to the mail service, so it is left out with it.
- SQL `LIKE` wildcards inside the company string: the fuzzy query is a plain substring test.
- The `ON CONFLICT` clause of the insert: it only matters with concurrent writers, and the model has one sequential writer.
- The `last_updated` and `created_at` timestamps, and the VARCHAR column widths.
- Reconciliation.Reconcile: every column is text in the model, so a value the column's SQL type rejects (such as "" or non-date text for the DATE columns `date` and `application_date`) is stored, where the source's statement raises, the call rolls back and returns an empty frame. The model assumes the values fit their columns.
- DataManager.ApplicationTable.AddApplication: proved equal to `Reconcile`, so it shares the same limit: a rollback caused by a value the column type rejects is not modelled.
- Unicode case mapping: `lower()` and `title()` are modelled on ASCII letters only.
- Funnel percentages: floating-point rounding.
- Streamlit and plotly rendering, caching, and reading the `.last_run` file. FastAPI routing, CORS, and the HTTP error responses. In the source a 404 raised inside the `try` of the update endpoints is caught by `except Exception` and reported as a 500; this is not modelled.
- The scripts start.py, automate.py, init_db.py, verify_db.py, add_sample_data.py and delete_sample_data.py, and environment loading in config.py. Only its status list is used.
- The migration's exception handling and rollback.
- Dashboard.LastRunLabel: takes the elapsed time already split into days and seconds, and returns the label's kind and number, not the formatted string.
- Console output of every module, and the text of caught exceptions: the model keeps only which path was taken.
- The pandas frame of existing applications is a sequence of rows; in `find_related_application` a NULL cell is read as the text 'None', as `str(None)` gives.
