# reference_validator, modelled in Dafny

reference_validator is a set of Python scripts that check the references of
a BibTeX bibliography against public services and correct them:

- `check_bibliography` (crossref_arxiv.py) looks every entry up on Crossref
  and then on arXiv. It accepts a candidate when the titles match and enough
  author last names match. It writes the unmatched entries to
  `flagged_references.txt`, one `[id] reason` line each.
- cvf_openreview.py reads that file back and tries CVF, NeurIPS and
  OpenReview in turn. final_filter.py does the same and then also tries
  Google Scholar. Both write what is still unfound to `bad_references.txt`.
- check_semantic.py and bs_check.py detect an arXiv identifier in each
  entry. They compare the entry's title with the official arXiv title.
  check_semantic.py also asks Semantic Scholar whether the paper exists.
- validate.py replaces entries with Google Scholar's data and can resume.
  It skips entries already in the output file. It keeps every original
  field and only fills what is missing. It rewrites the output after every
  entry. old_validate.py (kept verbatim as scholarly_v1.py) is the earlier
  version: it overwrites fields instead.

The project has eleven modules:

- `Text` holds Python's `strip`, `lower`, `split` and `join`, and `dict.get`
  on entries.
- `Fuzzy` holds the difflib ratio, the title test and the greedy author
  overlap.
- `Adapters` holds the candidate loops of every search function.
- `Flagged` holds the report line format and `load_flagged_references`.
- `Cascade` holds the three stages of the pipeline and the way they compose.
- `ArxivId` holds `parse_arxiv_id_from_text` and the detection of an
  identifier in an entry.
- `TitleCheck` holds the `main` of check_semantic.py and of bs_check.py.
- `Merge` holds the two merges of validate.py.
- `Checkpoint` holds validate.py's resume loop as a class, `ValidateRun`.
- `Legacy` holds old_validate.py's loop as a class, `LegacyRun`.
- `LegacyCorrected` holds that loop's step with its append done once, and
  compares it with the step as written.

The web services are parameters: each is a function from the query title to
its answer. The difflib matcher is a parameter `m`: it gives the number of
matched characters, so the ratio is `2·m(a, b) / (|a| + |b|)`. Every
threshold is proved equal to a whole-number comparison on `m`.

Where the documented design and the code differ, the model follows the code:

- The design describes one merge engine with a selectable policy. The
  scripts have three separate paths: overwrite (old_validate.py), preserve
  the original (validate.py) and flag only (the checkers). Each is modelled
  as written.
- The design's author matching picks "the candidate with the highest
  ratio". The code keeps the first candidate with the highest ratio, and
  only when that ratio is above 0 (`score > best_score` from 0).
- The design calls the similarity symmetric and reflexive. Nothing of the
  kind is assumed of the matcher.

## Model

| member | source | states |
|---|---|---|
| Fuzzy.Ratio | crossref_arxiv.py:62-66 | The ratio in percent is non-negative. It is 100 for two empty strings. It is positive exactly when something matched. |
| Fuzzy.RatioAtLeast | crossref_arxiv.py:62-66 | `ratio >= t` holds exactly when 200·M is at least t times the total length of the two strings. |
| Fuzzy.TitleMatchesIsRatio | crossref_arxiv.py:112-121 | The whole-number title test equals "the ratio of the lower-cased titles is at least TITLE_MATCH_THRESHOLD (75)". |
| Fuzzy.TitleMatchIgnoresCase | crossref_arxiv.py:116 | The title test gives the same answer on the lower-cased titles. |
| Fuzzy.ParseLastName | crossref_arxiv.py:44-46 | A blank author string gives the empty last name. |
| Fuzzy.ParseLastNameLowerCase | crossref_arxiv.py:49 | Every parsed last name is lower-case. |
| Fuzzy.ParseLastNameInverted | crossref_arxiv.py:52-55 | With a comma, the last name is the stripped text before the first comma of the stripped, lower-cased name. It is therefore stripped and has no comma. |
| Fuzzy.ParseLastNameNoComma | crossref_arxiv.py:56-60 | Without a comma, the last name is the last word of the stripped, lower-cased name. |
| Fuzzy.ParseLastNamePlain | crossref_arxiv.py:56-60 | Without a comma, a non-blank name gives a non-empty last name without whitespace. |
| Fuzzy.LastNameOfInvertedName | crossref_arxiv.py:52-55 | `"Last, First"` reads back as the lower-cased `Last`. |
| Fuzzy.LastNameOfPlainName | crossref_arxiv.py:56-60 | `"First Last"` reads back as the lower-cased `Last`. |
| Fuzzy.LastNames | crossref_arxiv.py:75-76 | At most one name per author. It is empty exactly when every author string is blank. |
| Fuzzy.BestPickIsFirstMaximum | crossref_arxiv.py:87-95 | The inner loop's pick is the lowest unused index with the highest positive score. Its score is that candidate's ratio. It is -1 with score 0 when no unused candidate scores above 0. |
| Fuzzy.GreedyConsumesOnce | crossref_arxiv.py:82-99 | The matched count equals the number of consumed candidates, each a valid index. The count is at most the number of names on either side. |
| Fuzzy.AuthorsOverlap | crossref_arxiv.py:78-80 | A bibliography without non-blank authors always overlaps. |
| Fuzzy.AuthorsOverlapIsFraction | crossref_arxiv.py:101-106 | The whole-number test `5·matched >= 3·total` equals `matched / total >= MIN_AUTHOR_OVERLAP_FRAC` (0.6). |
| Fuzzy.BestUnused | crossref_arxiv.py:87-95 | The inner loop computes the first-maximum pick. |
| Fuzzy.MatchNames | crossref_arxiv.py:82-99 | The outer loop computes the greedy one-to-one assignment. |
| Fuzzy.AuthorsOverlapFuzzy | crossref_arxiv.py:68-106 | `authors_overlap_fuzzy` returns the overlap verdict. |
| Adapters.CrossrefAuthors | crossref_arxiv.py:151-157 | Keeps only non-empty, stripped `given family` names, at most one per author. |
| Adapters.CrossrefCandidate | crossref_arxiv.py:148-157 | The candidate title is the first Crossref title, or "" when there is none. |
| Adapters.ArxivAuthors | crossref_arxiv.py:209-214 | One stripped name per author that has a name element. |
| Adapters.ArxivCandidate | crossref_arxiv.py:203-208 | The title is stripped, and "" when the title element is missing. |
| Adapters.FindMatch | crossref_arxiv.py:148-165 | True exactly when some candidate, in the service's order, passes the title test and then the author test. On true, the candidate examined last is accepted and none before it is. On false, every candidate was examined. |
| Adapters.FindOnCrossref | crossref_arxiv.py:127-169 | True exactly when the service answered and one of its items is accepted. A failed request or an empty list gives false. |
| Adapters.FindOnArxiv | crossref_arxiv.py:177-224 | The same for the Atom entries of arXiv. |
| Adapters.SearchTitles | cvf_openreview.py:83-121 | True exactly when some result title matches at 75. On true, the last result examined is the first match. Used for CVF, NeurIPS and OpenReview. |
| Adapters.ScholarTitle | final_filter.py:152-161 | A failed fetch or an object without `bib` gives no title; the scan's exception handler answers false. A `bib` without a title gives "". |
| Adapters.ScanScholarMeaning | final_filter.py:150-172 | The scan accepts exactly when some result matches and every earlier result had a readable title. |
| Adapters.ScholarIgnoresLaterResults | final_filter.py:145-170 | Results after the fifth never change the verdict. |
| Adapters.SearchGoogleScholar | final_filter.py:135-179 | The loop with its counter and break computes the verdict. It examines at most five results. |
| Flagged.FindChar | cvf_openreview.py:51 | The first position of a character at or after a start, or none. |
| Flagged.OpeningFrom | cvf_openreview.py:51 | The greedy `.+` picks the rightmost quote position that can open the title group. |
| Flagged.BracketFromMeaning | cvf_openreview.py:70-73 | The fallback pattern finds nothing exactly when `[`, a non-`]` character and a later `]` occur nowhere. Otherwise the id is that of the leftmost such match: the text between its `[` and the first `]` after it. |
| Flagged.MatchLineShape | cvf_openreview.py:51-59 | A matched id is non-empty without `]`, and a matched title is non-empty without quotes. |
| Flagged.ParseLine | cvf_openreview.py:59-76 | A parsed id has no `]`. A parsed title is stripped and has no quotes. |
| Flagged.NoMatchMatches | crossref_arxiv.py:269 | The pattern splits a "No match" line into exactly its id and title. |
| Flagged.NoMatchRoundTrip | crossref_arxiv.py:269 | A "No match" line reads back as `(id, title)`. |
| Flagged.MissingTitleRoundTrip | crossref_arxiv.py:255 | A "Missing title" line reads back as `(id, None)`. |
| Flagged.MissingTitleEmptyId | cvf_openreview.py:70-76 | A "Missing title" line with an empty id reads back as `("UNKNOWN", None)`. |
| Flagged.LineFlags | cvf_openreview.py:55-57 | A line gives at most one flag, and none exactly when it is blank. |
| Flagged.LoadFlaggedNonBlank | cvf_openreview.py:54-76 | Without blank lines, line i gives flag i, the parse of the stripped line. |
| Flagged.LoadFlaggedSkipsBlank | cvf_openreview.py:55-57 | A blank line adds nothing. |
| Flagged.LoadFlaggedReferences | cvf_openreview.py:39-77 | The loader's loop returns the flags of the non-blank lines in order. |
| Flagged.SplitWrittenFile | crossref_arxiv.py:275-277 | Splitting the written file on newlines gives back every reason. |
| Cascade.CheckBibliography | crossref_arxiv.py:232-279 | Returns the flagged pairs of all entries in order and the report text. It also records the lookups it made. |
| Cascade.CheckEntry | crossref_arxiv.py:244-271 | One entry's flags and lookups, from its id, stripped title and split author list. |
| Cascade.CheckRecord | crossref_arxiv.py:254-271 | The same, for the fields already read. |
| Cascade.WriteReasons | crossref_arxiv.py:274-277 | The written file is every reason followed by a newline. |
| Cascade.FlaggedIffUnmatched | crossref_arxiv.py:254-271 | An entry is flagged exactly when its title is blank or neither Crossref nor arXiv accepts it. It is flagged at most once, under its own id. |
| Cascade.QueriesShortCircuit | crossref_arxiv.py:260-266 | A blank title costs no lookup. Crossref comes first. arXiv is asked exactly when Crossref found nothing. |
| Cascade.CheckAllBounded | crossref_arxiv.py:243-271 | There are no more flags than entries. |
| Cascade.ReportRoundTrip | cvf_openreview.py:39-77 | The written report reads back as exactly the unmatched entries, in order, with their ids and titles (no title for a missing one). |
| Cascade.CvfOpenReviewMain | cvf_openreview.py:224-263 | The bad references and lookups of all flags in order, and the file text. |
| Cascade.ThreeStageEntry | cvf_openreview.py:237-258 | One flag: the untitled message, no message once found, or the "Not found" message. Lookups stop at the first site that finds the title. |
| Cascade.FinalFilterMain | final_filter.py:220-265 | The same for the four-stage filter. |
| Cascade.FourStageEntry | final_filter.py:234-260 | One flag, with a `continue` at the first service that finds it. |
| Cascade.ThreeStageReportsIff | cvf_openreview.py:237-258 | A flag is reported exactly when it is untitled or no site finds it, with at most one message. |
| Cascade.FourStageExtendsThreeStage | final_filter.py:244-255 | final_filter.py makes cvf_openreview.py's lookups, plus Google Scholar exactly when the other three failed. |
| Cascade.FourStageReportsFewer | final_filter.py:234-260 | Whatever final_filter.py reports, cvf_openreview.py reports too. The difference is entries Google Scholar found. |
| Cascade.BadReferencesBounded | cvf_openreview.py:237-258 | Both scripts write at most one bad reference per flag. |
| Cascade.PipelineBadReferences | crossref_arxiv.py:254-277 | End to end: an entry Crossref or arXiv matched never becomes a bad reference. Any other entry reaches the second stage with its original id and title. |
| ArxivId.IdRunEndMeaning | check_semantic.py:58 | The id group `[\w.\-v]+` takes the longest run of id characters. |
| ArxivId.SearchFromMeaning | check_semantic.py:58-64 | `re.search` finds a match exactly when one exists at some position, and returns one that exists. |
| ArxivId.SearchNone | check_semantic.py:58-64 | No result exactly when no position matches. |
| ArxivId.SearchLeftmost | check_semantic.py:58-64 | The result is the match at the leftmost matching position. |
| ArxivId.ParseNoneIff | check_semantic.py:52-66 | None exactly when neither the URL pattern nor the colon pattern matches anywhere. |
| ArxivId.ParseShape | check_semantic.py:52-66 | A parsed id is a non-empty, maximal run of id characters taken from the text. |
| ArxivId.MatchShape | check_semantic.py:58-64 | Each pattern's group is a non-empty maximal run of id characters. |
| ArxivId.UrlFormFirst | check_semantic.py:58-60 | When an `arxiv.org/abs/` URL occurs, the URL form wins, at its leftmost occurrence. |
| ArxivId.LiteralIgnoresCase | check_semantic.py:58-62 | The literals match with IGNORECASE. |
| ArxivId.DetectArxivId | check_semantic.py:159-171 | The detection loop returns the eprint, or the first id parsed from booktitle, url, title. |
| ArxivId.DetectedIdPrecedence | bs_check.py:96-110 | An arXiv prefix with an eprint gives the eprint. Otherwise the first field that parses wins. |
| ArxivId.FirstSomeMeaning | check_semantic.py:166-171 | The break gives the first non-None result, and None only when all are None. |
| TitleCheck.SimilarIsRatio | check_semantic.py:21-26 | `similarity >= percent/100` is the whole-number test. |
| TitleCheck.SemanticScholarSearch | check_semantic.py:95-96 | An empty title gives no results. A whitespace-only title is still sent to the service. |
| TitleCheck.CheckPaperExistence | check_semantic.py:114-135 | The early-return loop answers whether some result's lower-cased title is similar enough. |
| TitleCheck.PaperExistsIff | check_semantic.py:125-135 | Exists at 75% exactly when some returned title has that ratio with the lower-cased query. |
| TitleCheck.CheckSemanticEntry | check_semantic.py:150-203 | One entry: the mismatch flag and the messages logged. |
| TitleCheck.CheckRecord | check_semantic.py:173-203 | The same, built as the mismatch message then the existence warning. |
| TitleCheck.AnyMismatchStep | check_semantic.py:182 | `mismatch_found` after n+1 entries is the old value or this entry's mismatch. |
| TitleCheck.CheckSemanticMain | check_semantic.py:137-218 | The run's flag, its bad entries, and a log file exactly when there are bad entries. |
| TitleCheck.BlankTitleNotLookedUp | check_semantic.py:194 | A blank title is never checked for existence. |
| TitleCheck.ReportsShape | check_semantic.py:181-203 | At most two messages per entry. The first is a mismatch message exactly when the entry mismatched. |
| TitleCheck.MismatchTagged | check_semantic.py:184 | A mismatch message starts with `[Title Mismatch]`. |
| TitleCheck.ExistenceNotMismatch | check_semantic.py:198 | An existence warning does not. |
| TitleCheck.BsCheckEntry | bs_check.py:85-129 | One entry: its warnings and mismatches and the fetches made. |
| TitleCheck.BsCheckRecord | bs_check.py:112-129 | The same, for the fields already read. |
| TitleCheck.HasMismatchAppend | bs_check.py:126 | `mismatch_found` after one more entry. |
| TitleCheck.BsCheckMain | bs_check.py:77-133 | All reports in order, all fetches, and the flag, which is true exactly when a mismatch was reported. |
| TitleCheck.BsReportsAtMostOne | bs_check.py:112-129 | No identifier means no fetch and no report. A failed fetch gives only the warning. There is at most one report and one fetch per entry. |
| TitleCheck.CheckersAgreeWithTitle | bs_check.py:125 | For an entry with a title, bs_check.py reports a mismatch exactly when check_semantic.py does. |
| TitleCheck.CheckersDifferWithoutTitle | check_semantic.py:181 | Without a title, check_semantic.py finds no mismatch. bs_check.py reports one against the official title. |
| Merge.ParseOfficialBibtexMeaning | validate.py:79-99 | Empty exactly when parsing raised. Otherwise the ID and ENTRYTYPE are the original's, and the fields are the first parsed entry's. |
| Merge.MergeEntriesPreservingOriginal | validate.py:102-128 | The loop computes the preserving merge. |
| Merge.MergeField | validate.py:113-120 | One official field fills only a non-special field that is missing or empty. |
| Merge.FillOne | validate.py:112-120 | Visiting one more field is one loop iteration. |
| Merge.PreservesOriginal | validate.py:102-128 | Every non-empty original field keeps its value. |
| Merge.FillsMissing | validate.py:117-120 | A missing or empty original field takes the non-empty official value. |
| Merge.PreservingKeys | validate.py:102-128 | The keys are the original's plus the official non-empty, non-special ones. Special fields are the original's. |
| Merge.PreservingIdempotent | validate.py:102-128 | Merging the same official entry twice changes nothing more. |
| Merge.ConferenceVenueTokens | validate.py:151 | "conference" adds nothing to the token test, because it contains "conf". |
| Merge.MergePartialPubData | validate.py:131-180 | The loop over the five fields computes the partial merge, or the exception. |
| Merge.StepFrame | validate.py:141-178 | One step writes only its target fields, and only where they were empty. |
| Merge.PartialFrame | validate.py:131-180 | The merge keeps every original key and adds only target fields. |
| Merge.PossibleTargets | validate.py:141-178 | The fields written are title, author, year, booktitle, journal and abstract. |
| Merge.PartialPreservesOriginal | validate.py:131-180 | Every non-empty original field keeps its value. |
| Merge.PartialReadsOnlyFields | validate.py:140-142 | Only the five possible fields of the data are read. |
| Merge.PartialMergeUnrolled | validate.py:141-178 | The loop, written out field by field. |
| Merge.StepRaises | validate.py:158-168 | On string values a step never raises. It raises (`list.strip()`) exactly on a non-empty author list against a non-empty original author. |
| Merge.PartialRaisesIff | validate.py:158-168 | The merge raises exactly when the data has a non-empty author list and the original has an author. |
| Merge.PartialSteps | validate.py:141-178 | The intermediate entries of a merge that does not raise. |
| Merge.StepKeeps | validate.py:141-178 | A step leaves non-target fields unchanged. |
| Merge.PartialFillsAuthor | validate.py:158-165 | A missing author is filled with the list joined by " and ", or with the string. |
| Merge.PartialFillsField | validate.py:169-178 | A missing title, year or abstract takes the non-empty partial value. |
| Merge.PartialVenue | validate.py:146-157 | A venue fills booktitle when it names a conference and journal otherwise, and only when the original has neither. Otherwise both stay as they were. |
| Checkpoint.ValidateRun.constructor | validate.py:207-213 | The run starts from the existing output and its IDs. |
| Checkpoint.ValidateRun.WriteBibToDisk | validate.py:66-76 | A write records the current list. |
| Checkpoint.ValidateRun.ProcessEntry | validate.py:219-289 | One loop body: skip, keep, stop, crash, or append and write. |
| Checkpoint.ValidateRun.Run | validate.py:219-289 | The loop over all entries computes the fold of the step until the run ends. |
| Checkpoint.StaysEnded | validate.py:245-251 | After a stop or crash, no later entry changes anything. |
| Checkpoint.SkipsProcessed | validate.py:223-225 | An already processed id leaves the state unchanged. |
| Checkpoint.StepAppendsOne | validate.py:230-289 | A processed entry appends exactly one entry and adds its id. The file then holds the new list. |
| Checkpoint.FailedSearchStops | validate.py:240-251 | A search exception writes the list without the entry and stops, with nothing processed. |
| Checkpoint.CorrectEntry | validate.py:253-284 | Running the merge methods on a search answer gives the entry that `Corrected` specifies. The original is kept when nothing was found or nothing parsed. None means the partial merge raised. |
| Checkpoint.CorrectedKeepsId | validate.py:253-284 | The appended entry keeps the original's ID. |
| Checkpoint.StepKeepsId | validate.py:219-289 | The same, for a whole step. |
| Checkpoint.GrowsTransitive | validate.py:219-289 | Appending only, step after step, is appending only. |
| Checkpoint.RunInvariant | validate.py:219-289 | At any point of the run, the last write holds the current list, and the list has only grown. |
| Checkpoint.RunWritesCurrent | validate.py:219-289 | The disk is current at every point. |
| Checkpoint.RunGrows | validate.py:219-289 | The list only grows, each new entry with a new id. |
| Checkpoint.StepInvariant | validate.py:219-289 | One step keeps the disk current. |
| Checkpoint.StepGrows | validate.py:219-289 | One step only appends. |
| Legacy.OverwriteMergeMeaning | old_validate.py:206-225 | Every present partial field overwrites the copy. The venue goes to booktitle or journal. Nothing else changes. |
| Legacy.OverwriteReplacesTitle | old_validate.py:209-210 | The overwrite replaces a non-empty title, where validate.py's merge keeps it. |
| Legacy.LegacyRun.constructor | old_validate.py:127-133 | The run starts from the existing output, with `merged` unbound. |
| Legacy.LegacyRun.WriteBibToDisk | old_validate.py:154 | A write records the current list. |
| Legacy.LegacyRun.MergeOverwriting | old_validate.py:206-225 | Computes the overwrite merge on a copy. |
| Legacy.LegacyRun.AppendFor | old_validate.py:175-233 | The entries appended for a search result, and the `merged` left behind. |
| Legacy.LegacyRun.ProcessEntry | old_validate.py:140-238 | One loop body of the old script. |
| Legacy.LegacyRun.Run | old_validate.py:140-238 | The loop computes the fold of the old step. |
| Legacy.LegacyStaysEnded | old_validate.py:164-173 | After a stop or crash, no later entry changes anything. |
| Legacy.OfficialReplaces | old_validate.py:181-190 | The parsed official entry is appended in place of the original. |
| Legacy.PartialAppendedTwice | old_validate.py:227-233 | Non-empty partial data appends the merged entry twice. |
| Legacy.StaleMergedAppended | old_validate.py:229-233 | Empty partial data appends the original and then the previous entry's `merged`. |
| Legacy.UnboundMergedCrashes | old_validate.py:229-233 | Empty partial data before any merge ends the run (NameError). |
| Legacy.IntendedAppendsOne | old_validate.py:206-233 | The corrected loop body appends exactly one entry: the merged one, or the original when there is no data. |
| LegacyCorrected.IntendedStepGrows | old_validate.py:140-238 | The loop step with the corrected append only appends, one entry per newly processed id (`Checkpoint.Grows`). |
| LegacyCorrected.AsWrittenBreaksGrows | old_validate.py:227-233 | The step as written breaks that invariant on non-empty partial data: two entries for one new id. |

## Findings

| source | as written | input that shows it | evidently intended | confidence | as-written member | corrected member |
|---|---|---|---|---|---|---|
| old_validate.py:233 | After the `if partial_bib` / `else` block, `corrected_db.entries.append(merged)` runs again | any entry whose Google Scholar result has `bib = {"title": "T"}` and no `bibtex` appends the merged entry twice. With `bib = {}` it appends the original plus the previous entry's `merged`, or raises NameError when no earlier merge ran | append once, inside the `if partial_bib` branch (validate.py does this) | not executed | Legacy.PartialAppendedTwice, Legacy.StaleMergedAppended, Legacy.UnboundMergedCrashes, LegacyCorrected.AsWrittenBreaksGrows | Legacy.IntendedAppendsOne, LegacyCorrected.IntendedStepGrows |

## Left out

- HTTP requests, HTML scraping with BeautifulSoup, the Atom XML parsing and `fetch_arxiv_title` are left out. Each service is a function from the query to its answer: a response, a list of titles, or an optional title.
- A service is assumed to give the same answer to the same query within one run. Timeouts, rate limits and retries are not modelled.
- `bibtexparser` loading and writing are left out. Entries are maps from field names to strings. `parse_official_bibtex` receives what `bibtexparser.loads` produced, or the fact that it raised.
- `difflib.SequenceMatcher` is left out. Its matched-character count is a parameter, and no property of it (symmetry, reflexivity, bounds) is assumed.
- Fuzzy.Ratio: ratios are exact rationals. The source compares IEEE doubles, so a ratio within rounding of a threshold could compare differently.
- TitleCheck.CheckPaperExistence: `threshold=0.75` is an exact percent. The source compares the float `sim >= 0.75`, and the float default 0.8 is never used by `main`.
- TitleCheck.SemanticScholarSearch: the `max_results=3` limit is the service's business. The model takes the list the service returns.
- The Semantic Scholar result titles are strings. A result whose `title` is JSON null is not modelled.
- Whitespace is Python's ASCII `str.isspace` set, and `lower()` and `re.IGNORECASE` act on ASCII letters only. `\w` is ASCII letters, digits and `_`. Non-ASCII text is not modelled.
- File reading is a list of lines. Universal newlines and the encoding are not modelled.
- Logging, `print`, `debug_print`, `time.sleep`, the command line, the free-proxy setup, the final unified diff of validate.py and KeyboardInterrupt are left out.
- Merge.MergePartialPubData: requires StringsOutsideAuthor. Every partial field other than the author is a string. A list or number in another field, and the AttributeError its `.strip()` or `.lower()` can raise, are not modelled.
- Legacy.LegacyRun.MergeOverwriting: requires StringsOutsideAuthor, as above. The venue must be a string for `.lower()`.
- Checkpoint.ValidateRun.Run: requires that every search result satisfies WellShaped, as above.
- Legacy.LegacyRun.Run: requires that every search result satisfies WellShaped, as above.
- `sys.exit(1)` after a failed search is the `Stopped` status. A crash from an uncaught exception is the `Crashed` status.
- The two `except` branches of the search (MaxTriesExceededException and any other exception) behave alike and are one outcome.
- The `load_existing_output_db` check for the output file is left out. A missing file is an empty list of existing entries.
- The check for the input file is left out.
- Empty-input early returns of check_semantic.py and bs_check.py only print. The model gives the same outcome as running the loop over no entries.
