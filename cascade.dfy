/** The three stages of the validation pipeline:
      - `check_bibliography` (crossref_arxiv.py) looks every .bib entry up
        on Crossref, then on arXiv, and writes the unmatched ones to the
        flagged-references file;
      - the `main` of cvf_openreview.py reads that file back and tries CVF,
        NeurIPS and OpenReview in turn;
      - the `main` of final_filter.py does the same and then tries Google
        Scholar.
    Every web service is a function from the query title to its answer;
    `queries` records which services each run asks, in order. */
module Cascade {
  import opened Text
  import opened Fuzzy
  import opened Adapters
  import opened Flagged

  /** One lookup: the service asked and the title it was asked for. */
  datatype Query =
    | CrossrefQuery(title: string)
    | ArxivQuery(title: string)
    | CvfQuery(title: string)
    | NeurIpsQuery(title: string)
    | OpenReviewQuery(title: string)
    | ScholarQuery(title: string)

  /** What the services answer for a query title. */
  datatype BibServices = BibServices(
    crossref: string -> Response<CrossrefItem>,
    arxiv: string -> Response<ArxivEntry>)

  datatype ProceedingsServices = ProceedingsServices(
    cvf: string -> Response<string>,
    neurips: string -> Response<string>,
    openreview: string -> Response<string>,
    scholar: string -> ScholarResults)

  // ---------------------------------------------------------------------
  // check_bibliography

  /** What `check_bibliography` reads from an entry: the id (default
      "UNKNOWN_ID"), the stripped title (default "") and the author list
      split on " and ", stripped, with blanks dropped. */
  datatype BibRecord = BibRecord(id: string, title: string, authors: seq<string>)

  function ReadEntry(e: Entry): BibRecord
  {
    BibRecord(Get(e, "ID", "UNKNOWN_ID"), Strip(Get(e, "title", "")),
              StripNonBlank(Split(Get(e, "author", ""), " and ")))
  }

  predicate OnCrossref(m: Matcher, svc: BibServices, r: BibRecord) {
    Found(m, r.title, r.authors, svc.crossref(r.title), CrossrefCandidate)
  }

  predicate OnArxiv(m: Matcher, svc: BibServices, r: BibRecord) {
    Found(m, r.title, r.authors, svc.arxiv(r.title), ArxivCandidate)
  }

  /** The `(entry_id, reason)` pairs one entry adds to `flagged`. */
  function RecordFlags(m: Matcher, svc: BibServices, r: BibRecord): seq<(string, string)> {
    if r.title == [] then [(r.id, MissingTitleReason(r.id))]
    else if OnCrossref(m, svc, r) || OnArxiv(m, svc, r) then []
    else [(r.id, NoMatchReason(r.id, r.title))]
  }

  /** The lookups made for one entry: none for a missing title, Crossref,
      and arXiv only when Crossref found nothing. */
  function RecordQueries(m: Matcher, svc: BibServices, r: BibRecord): seq<Query> {
    if r.title == [] then []
    else [CrossrefQuery(r.title)] + (if OnCrossref(m, svc, r) then [] else [ArxivQuery(r.title)])
  }

  function CheckAll(m: Matcher, svc: BibServices, entries: seq<Entry>): seq<(string, string)> {
    FlatMap(e => RecordFlags(m, svc, ReadEntry(e)), entries)
  }

  function CheckQueries(m: Matcher, svc: BibServices, entries: seq<Entry>): seq<Query> {
    FlatMap(e => RecordQueries(m, svc, ReadEntry(e)), entries)
  }

  /** The second fields of the flagged pairs, the lines of the report. */
  function Reasons(flagged: seq<(string, string)>): seq<string> {
    FlatMap(ReasonOf, flagged)
  }

  function ReasonOf(pair: (string, string)): seq<string> {
    [pair.1]
  }

  /** `check_bibliography`: the flagged pairs it returns, the text of
      flagged_references.txt and the lookups made. */
  method CheckBibliography(m: Matcher, svc: BibServices, entries: seq<Entry>)
    returns (flagged: seq<(string, string)>, report: string, ghost queries: seq<Query>)
    ensures flagged == CheckAll(m, svc, entries)
    ensures report == WrittenFile(Reasons(flagged))
    ensures queries == CheckQueries(m, svc, entries)
  {
    flagged := [];
    queries := [];
    for k := 0 to |entries|
      invariant flagged == CheckAll(m, svc, entries[..k])
      invariant queries == CheckQueries(m, svc, entries[..k])
    {
      EntryStep(m, svc, entries, k);
      var entryFlags;
      ghost var entryQueries;
      entryFlags, entryQueries := CheckEntry(m, svc, entries[k]);
      flagged := flagged + entryFlags;
      queries := queries + entryQueries;
    }
    assert entries[..|entries|] == entries;
    report := WriteReasons(Reasons(flagged));
  }

  /** The body of the loop of `check_bibliography` for one entry: what it
      appends to `flagged`, and the lookups it makes. */
  method CheckEntry(m: Matcher, svc: BibServices, entry: Entry)
    returns (entryFlags: seq<(string, string)>, ghost entryQueries: seq<Query>)
    ensures entryFlags == RecordFlags(m, svc, ReadEntry(entry))
    ensures entryQueries == RecordQueries(m, svc, ReadEntry(entry))
  {
    var entryId := Get(entry, "ID", "UNKNOWN_ID");
    var bibTitle := Strip(Get(entry, "title", ""));
    var bibAuthorsStr := Get(entry, "author", "");
    var bibAuthors := StripNonBlank(Split(bibAuthorsStr, " and "));
    entryFlags, entryQueries := CheckRecord(m, svc, BibRecord(entryId, bibTitle, bibAuthors));
  }

  /** The lookups and the flagging for the fields read from one entry. */
  method CheckRecord(m: Matcher, svc: BibServices, record: BibRecord)
    returns (entryFlags: seq<(string, string)>, ghost entryQueries: seq<Query>)
    ensures entryFlags == RecordFlags(m, svc, record)
    ensures entryQueries == RecordQueries(m, svc, record)
  {
    var entryId, bibTitle, bibAuthors := record.id, record.title, record.authors;
    if bibTitle == [] {
      var reason := MissingTitleReason(entryId);
      return [(entryId, reason)], [];
    }
    var foundXref := FindOnCrossref(m, bibTitle, bibAuthors, svc.crossref(bibTitle));
    entryQueries := [CrossrefQuery(bibTitle)];
    var foundArxiv := false;
    if !foundXref {
      foundArxiv := FindOnArxiv(m, bibTitle, bibAuthors, svc.arxiv(bibTitle));
      entryQueries := entryQueries + [ArxivQuery(bibTitle)];
    }
    entryFlags := [];
    if !foundXref && !foundArxiv {
      var reason := NoMatchReason(entryId, bibTitle);
      entryFlags := [(entryId, reason)];
    }
  }

  /** `for reason in reasons: fout.write(f"{reason}\n")`, as the text
      written. */
  method WriteReasons(reasons: seq<string>) returns (text: string)
    ensures text == WrittenFile(reasons)
  {
    text := [];
    for i := 0 to |reasons|
      invariant text == WrittenFile(reasons[..i])
    {
      FlatMapStep(WithNewline, reasons, i);
      text := text + reasons[i] + "\n";
    }
    assert reasons[..|reasons|] == reasons;
  }

  lemma EntryStep(m: Matcher, svc: BibServices, entries: seq<Entry>, k: nat)
    requires k < |entries|
    ensures CheckAll(m, svc, entries[..k + 1]) == CheckAll(m, svc, entries[..k]) + RecordFlags(m, svc, ReadEntry(entries[k]))
    ensures CheckQueries(m, svc, entries[..k + 1]) == CheckQueries(m, svc, entries[..k]) + RecordQueries(m, svc, ReadEntry(entries[k]))
  {
    FlatMapStep(e => RecordFlags(m, svc, ReadEntry(e)), entries, k);
    FlatMapStep(e => RecordQueries(m, svc, ReadEntry(e)), entries, k);
  }

  /** An entry is flagged exactly when its title is missing or neither
      Crossref nor arXiv accepts a candidate; it is flagged once, under its
      own id. */
  lemma FlaggedIffUnmatched(m: Matcher, svc: BibServices, r: BibRecord)
    ensures |RecordFlags(m, svc, r)| <= 1
    ensures RecordFlags(m, svc, r) != [] <==>
      (r.title == [] || (!OnCrossref(m, svc, r) && !OnArxiv(m, svc, r)))
    ensures forall p :: p in RecordFlags(m, svc, r) ==> p.0 == r.id
  {
  }

  /** A blank title costs no lookup; arXiv is asked only after Crossref
      found nothing, and for the same title. */
  lemma QueriesShortCircuit(m: Matcher, svc: BibServices, r: BibRecord)
    ensures r.title == [] ==> RecordQueries(m, svc, r) == []
    ensures r.title != [] ==> RecordQueries(m, svc, r)[0] == CrossrefQuery(r.title)
    ensures ArxivQuery(r.title) in RecordQueries(m, svc, r) <==> (r.title != [] && !OnCrossref(m, svc, r))
  {
  }

  /** At most one flag per entry. */
  lemma CheckAllBounded(m: Matcher, svc: BibServices, entries: seq<Entry>)
    ensures |CheckAll(m, svc, entries)| <= |entries|
  {
    forall e | e in entries ensures |RecordFlags(m, svc, ReadEntry(e))| <= 1 {
      FlaggedIffUnmatched(m, svc, ReadEntry(e));
    }
    FlatMapAtMostOne(e => RecordFlags(m, svc, ReadEntry(e)), entries);
  }

  // ---------------------------------------------------------------------
  // The report read back

  /** An entry whose id and title survive the report's line format: a
      non-empty id without ']', newline or surrounding blanks, and a title
      without quotes or newlines. */
  predicate Reportable(r: BibRecord) {
    && r.id != [] && IsStripped(r.id) && ']' !in r.id && '\n' !in r.id
    && IsStripped(r.title) && NoQuotes(r.title) && '\n' !in r.title
  }

  /** What the next stage should read for an entry: nothing when it was
      matched, its id alone when its title was missing, its id and title
      otherwise. */
  function Expected(m: Matcher, svc: BibServices, r: BibRecord): seq<Flag> {
    if r.title == [] then [Flag(r.id, None)]
    else if OnCrossref(m, svc, r) || OnArxiv(m, svc, r) then []
    else [Flag(r.id, Some(r.title))]
  }

  /** The report `check_bibliography` writes reads back, through
      `load_flagged_references`, as exactly the unmatched entries in order,
      each with its id and, unless it had none, its title. */
  lemma ReportRoundTrip(m: Matcher, svc: BibServices, entries: seq<Entry>)
    requires forall e :: e in entries ==> Reportable(ReadEntry(e))
    ensures LoadFlagged(Split(WrittenFile(Reasons(CheckAll(m, svc, entries))), "\n"))
            == FlatMap(e => Expected(m, svc, ReadEntry(e)), entries)
  {
    var flagged := CheckAll(m, svc, entries);
    var reasons := Reasons(flagged);
    forall e | e in entries
      ensures FlatMap(ReasonOf, RecordFlags(m, svc, ReadEntry(e))) == RecordReasons(m, svc, ReadEntry(e))
      ensures forall r :: r in RecordReasons(m, svc, ReadEntry(e)) ==> '\n' !in r
      ensures FlatMap(LineFlags, RecordReasons(m, svc, ReadEntry(e))) == Expected(m, svc, ReadEntry(e))
    {
      RecordReadsBack(m, svc, ReadEntry(e));
    }
    FlatMapCompose(e => RecordFlags(m, svc, ReadEntry(e)), ReasonOf, e => RecordReasons(m, svc, ReadEntry(e)), entries);
    assert reasons == FlatMap(e => RecordReasons(m, svc, ReadEntry(e)), entries);
    FlatMapAll(e => RecordReasons(m, svc, ReadEntry(e)), entries, r => '\n' !in r);
    SplitWrittenFile(reasons);
    FlatMapSnoc(LineFlags, reasons, []);
    FlatMapCompose(e => RecordReasons(m, svc, ReadEntry(e)), LineFlags, e => Expected(m, svc, ReadEntry(e)), entries);
  }

  /** The report lines of one entry. */
  function RecordReasons(m: Matcher, svc: BibServices, r: BibRecord): seq<string> {
    if r.title == [] then [MissingTitleReason(r.id)]
    else if OnCrossref(m, svc, r) || OnArxiv(m, svc, r) then []
    else [NoMatchReason(r.id, r.title)]
  }

  lemma RecordReadsBack(m: Matcher, svc: BibServices, r: BibRecord)
    requires Reportable(r)
    ensures FlatMap(ReasonOf, RecordFlags(m, svc, r)) == RecordReasons(m, svc, r)
    ensures forall line :: line in RecordReasons(m, svc, r) ==> '\n' !in line
    ensures FlatMap(LineFlags, RecordReasons(m, svc, r)) == Expected(m, svc, r)
  {
    var flags := RecordFlags(m, svc, r);
    if flags != [] {
      assert FlatMap(ReasonOf, flags) == ReasonOf(flags[0]) + FlatMap(ReasonOf, []);
    }
    var reasons := RecordReasons(m, svc, r);
    if reasons != [] {
      var line := reasons[0];
      assert FlatMap(LineFlags, reasons) == LineFlags(line) + FlatMap(LineFlags, []);
      if r.title == [] {
        MissingTitleLine(r.id);
        StripStripped(line);
        MissingTitleRoundTrip(r.id);
      } else {
        NoMatchLine(r.id, r.title);
        StripStripped(line);
        NoMatchRoundTrip(r.id, r.title);
      }
    }
  }

  lemma MissingTitleLine(id: string)
    requires '\n' !in id
    ensures '\n' !in MissingTitleReason(id)
    ensures IsStripped(MissingTitleReason(id)) && MissingTitleReason(id) != []
  {
    var tail := "] Missing title in .bib";
    assert MissingTitleReason(id) == "[" + id + tail;
    assert forall k :: 0 <= k < |tail| ==> tail[k] != '\n';
  }

  lemma NoMatchLine(id: string, title: string)
    requires '\n' !in id && '\n' !in title
    ensures '\n' !in NoMatchReason(id, title)
    ensures IsStripped(NoMatchReason(id, title)) && NoMatchReason(id, title) != []
  {
    assert forall k :: 0 <= k < |NoMatchGap| ==> NoMatchGap[k] != '\n';
    assert NoMatchReason(id, title) == "[" + id + "]" + NoMatchGap + "'" + title + "'";
  }

  // ---------------------------------------------------------------------
  // The proceedings stages: cvf_openreview.py and final_filter.py

  /** A flagged entry with no title to search for: none was parsed, or it
      stripped to nothing (`if not ref_title`). */
  predicate Untitled(f: Flag) {
    f.title.None? || f.title.value == []
  }

  predicate OnCvf(m: Matcher, svc: ProceedingsServices, t: string) {
    TitleFound(m, t, svc.cvf(t))
  }

  predicate OnNeurips(m: Matcher, svc: ProceedingsServices, t: string) {
    TitleFound(m, t, svc.neurips(t))
  }

  predicate OnOpenReview(m: Matcher, svc: ProceedingsServices, t: string) {
    TitleFound(m, t, svc.openreview(t))
  }

  predicate OnScholar(m: Matcher, svc: ProceedingsServices, t: string) {
    ScholarFound(m, t, svc.scholar(t))
  }

  /** Found on one of the three proceedings sites. */
  predicate OnProceedings(m: Matcher, svc: ProceedingsServices, t: string) {
    OnCvf(m, svc, t) || OnNeurips(m, svc, t) || OnOpenReview(m, svc, t)
  }

  /** The bad-reference messages of cvf_openreview.py for one entry. */
  function ThreeStageMessages(m: Matcher, svc: ProceedingsServices, f: Flag): seq<string> {
    if Untitled(f) then [f.id + ": Missing or unparseable title in flagged_references."]
    else if OnProceedings(m, svc, f.title.value) then []
    else [f.id + ": Not found on CVF / NeurIPS / OpenReview => '" + f.title.value + "'"]
  }

  /** The lookups of cvf_openreview.py for one entry: CVF, then NeurIPS,
      then OpenReview, stopping at the first that finds the title. */
  function ThreeStageQueries(m: Matcher, svc: ProceedingsServices, f: Flag): seq<Query> {
    if Untitled(f) then []
    else
      var t := f.title.value;
      [CvfQuery(t)] +
      (if OnCvf(m, svc, t) then []
       else [NeurIpsQuery(t)] + (if OnNeurips(m, svc, t) then [] else [OpenReviewQuery(t)]))
  }

  /** The bad-reference messages of final_filter.py for one entry. */
  function FourStageMessages(m: Matcher, svc: ProceedingsServices, f: Flag): seq<string> {
    if Untitled(f) then [f.id + ": missing or unparseable title"]
    else if OnProceedings(m, svc, f.title.value) || OnScholar(m, svc, f.title.value) then []
    else [f.id + ": Not found on CVF / NeurIPS / OpenReview / Google Scholar => '" + f.title.value + "'"]
  }

  /** The lookups of final_filter.py for one entry. */
  function FourStageQueries(m: Matcher, svc: ProceedingsServices, f: Flag): seq<Query> {
    if Untitled(f) then []
    else
      var t := f.title.value;
      var afterOpenReview := if OnOpenReview(m, svc, t) then [] else [ScholarQuery(t)];
      var afterNeurips := if OnNeurips(m, svc, t) then [] else [OpenReviewQuery(t)] + afterOpenReview;
      var afterCvf := if OnCvf(m, svc, t) then [] else [NeurIpsQuery(t)] + afterNeurips;
      [CvfQuery(t)] + afterCvf
  }

  /** The `main` of cvf_openreview.py on the lines of the flagged file: the
      bad references, the text of the bad-references file and the lookups. */
  method CvfOpenReviewMain(m: Matcher, svc: ProceedingsServices, lines: seq<string>)
    returns (badReferences: seq<string>, badFile: string, ghost queries: seq<Query>)
    ensures badReferences == FlatMap(f => ThreeStageMessages(m, svc, f), LoadFlagged(lines))
    ensures queries == FlatMap(f => ThreeStageQueries(m, svc, f), LoadFlagged(lines))
    ensures badFile == WrittenFile(badReferences)
  {
    var flaggedEntries := LoadFlaggedReferences(lines);
    badReferences := [];
    queries := [];
    for k := 0 to |flaggedEntries|
      invariant badReferences == FlatMap(f => ThreeStageMessages(m, svc, f), flaggedEntries[..k])
      invariant queries == FlatMap(f => ThreeStageQueries(m, svc, f), flaggedEntries[..k])
    {
      ThreeStageStep(m, svc, flaggedEntries, k);
      var messages;
      ghost var asked;
      messages, asked := ThreeStageEntry(m, svc, flaggedEntries[k]);
      badReferences := badReferences + messages;
      queries := queries + asked;
    }
    assert flaggedEntries[..|flaggedEntries|] == flaggedEntries;
    badFile := WriteReasons(badReferences);
  }

  /** The loop body of cvf_openreview.py's `main` for one flagged entry. */
  method ThreeStageEntry(m: Matcher, svc: ProceedingsServices, entry: Flag)
    returns (messages: seq<string>, ghost asked: seq<Query>)
    ensures messages == ThreeStageMessages(m, svc, entry)
    ensures asked == ThreeStageQueries(m, svc, entry)
  {
    var refId, refTitle := entry.id, entry.title;
    if refTitle.None? || refTitle.value == [] {
      var msg := refId + ": Missing or unparseable title in flagged_references.";
      return [msg], [];
    }
    var t := refTitle.value;
    ghost var examined;
    var found;
    found, examined := SearchTitles(m, t, svc.cvf(t));
    asked := [CvfQuery(t)];
    if !found {
      found, examined := SearchTitles(m, t, svc.neurips(t));
      asked := asked + [NeurIpsQuery(t)];
    }
    if !found {
      found, examined := SearchTitles(m, t, svc.openreview(t));
      asked := asked + [OpenReviewQuery(t)];
    }
    messages := [];
    if !found {
      var msg := refId + ": Not found on CVF / NeurIPS / OpenReview => '" + t + "'";
      messages := [msg];
    }
  }

  /** The `main` of final_filter.py on the lines of the flagged file. */
  method FinalFilterMain(m: Matcher, svc: ProceedingsServices, lines: seq<string>)
    returns (badReferences: seq<string>, badFile: string, ghost queries: seq<Query>)
    ensures badReferences == FlatMap(f => FourStageMessages(m, svc, f), LoadFlagged(lines))
    ensures queries == FlatMap(f => FourStageQueries(m, svc, f), LoadFlagged(lines))
    ensures badFile == WrittenFile(badReferences)
  {
    var flaggedEntries := LoadFlaggedReferences(lines);
    badReferences := [];
    queries := [];
    for k := 0 to |flaggedEntries|
      invariant badReferences == FlatMap(f => FourStageMessages(m, svc, f), flaggedEntries[..k])
      invariant queries == FlatMap(f => FourStageQueries(m, svc, f), flaggedEntries[..k])
    {
      FourStageStep(m, svc, flaggedEntries, k);
      var messages;
      ghost var asked;
      messages, asked := FourStageEntry(m, svc, flaggedEntries[k]);
      badReferences := badReferences + messages;
      queries := queries + asked;
    }
    assert flaggedEntries[..|flaggedEntries|] == flaggedEntries;
    badFile := WriteReasons(badReferences);
  }

  /** The loop body of final_filter.py's `main` for one flagged entry, with
      its `continue` at the first service that finds the title. */
  method FourStageEntry(m: Matcher, svc: ProceedingsServices, entry: Flag)
    returns (messages: seq<string>, ghost asked: seq<Query>)
    ensures messages == FourStageMessages(m, svc, entry)
    ensures asked == FourStageQueries(m, svc, entry)
  {
    var refId, refTitle := entry.id, entry.title;
    if refTitle.None? || refTitle.value == [] {
      var msg := refId + ": missing or unparseable title";
      return [msg], [];
    }
    var t := refTitle.value;
    ghost var examined;
    var found;
    found, examined := SearchTitles(m, t, svc.cvf(t));
    asked := [CvfQuery(t)];
    if found {
      return [], asked;
    }
    found, examined := SearchTitles(m, t, svc.neurips(t));
    asked := asked + [NeurIpsQuery(t)];
    if found {
      return [], asked;
    }
    found, examined := SearchTitles(m, t, svc.openreview(t));
    asked := asked + [OpenReviewQuery(t)];
    if found {
      return [], asked;
    }
    found, examined := SearchGoogleScholar(m, t, svc.scholar(t));
    asked := asked + [ScholarQuery(t)];
    if found {
      return [], asked;
    }
    var msg := refId + ": Not found on CVF / NeurIPS / OpenReview / Google Scholar => '" + t + "'";
    return [msg], asked;
  }

  lemma ThreeStageStep(m: Matcher, svc: ProceedingsServices, flags: seq<Flag>, k: nat)
    requires k < |flags|
    ensures FlatMap(f => ThreeStageMessages(m, svc, f), flags[..k + 1])
            == FlatMap(f => ThreeStageMessages(m, svc, f), flags[..k]) + ThreeStageMessages(m, svc, flags[k])
    ensures FlatMap(f => ThreeStageQueries(m, svc, f), flags[..k + 1])
            == FlatMap(f => ThreeStageQueries(m, svc, f), flags[..k]) + ThreeStageQueries(m, svc, flags[k])
  {
    FlatMapStep(f => ThreeStageMessages(m, svc, f), flags, k);
    FlatMapStep(f => ThreeStageQueries(m, svc, f), flags, k);
  }

  lemma FourStageStep(m: Matcher, svc: ProceedingsServices, flags: seq<Flag>, k: nat)
    requires k < |flags|
    ensures FlatMap(f => FourStageMessages(m, svc, f), flags[..k + 1])
            == FlatMap(f => FourStageMessages(m, svc, f), flags[..k]) + FourStageMessages(m, svc, flags[k])
    ensures FlatMap(f => FourStageQueries(m, svc, f), flags[..k + 1])
            == FlatMap(f => FourStageQueries(m, svc, f), flags[..k]) + FourStageQueries(m, svc, flags[k])
  {
    FlatMapStep(f => FourStageMessages(m, svc, f), flags, k);
    FlatMapStep(f => FourStageQueries(m, svc, f), flags, k);
  }

  /** An entry is reported by cvf_openreview.py exactly when it has no
      title or none of the three sites finds it, with one message. */
  lemma ThreeStageReportsIff(m: Matcher, svc: ProceedingsServices, f: Flag)
    ensures |ThreeStageMessages(m, svc, f)| <= 1
    ensures ThreeStageMessages(m, svc, f) != [] <==> (Untitled(f) || !OnProceedings(m, svc, f.title.value))
  {
  }

  /** final_filter.py asks the same services as cvf_openreview.py, in the
      same order, and then Google Scholar exactly when the other three all
      failed. */
  lemma FourStageExtendsThreeStage(m: Matcher, svc: ProceedingsServices, f: Flag)
    ensures FourStageQueries(m, svc, f) == ThreeStageQueries(m, svc, f) +
      (if Untitled(f) || OnProceedings(m, svc, f.title.value) then [] else [ScholarQuery(f.title.value)])
  {
  }

  /** Google Scholar can only rescue entries: what final_filter.py reports
      was reported by cvf_openreview.py too, and an entry only the latter
      reports is one Google Scholar found. */
  lemma FourStageReportsFewer(m: Matcher, svc: ProceedingsServices, f: Flag)
    ensures FourStageMessages(m, svc, f) != [] ==> ThreeStageMessages(m, svc, f) != []
    ensures ThreeStageMessages(m, svc, f) != [] && FourStageMessages(m, svc, f) == [] ==>
      !Untitled(f) && OnScholar(m, svc, f.title.value)
  {
  }

  /** At most one bad reference per flagged entry, in either script. */
  lemma BadReferencesBounded(m: Matcher, svc: ProceedingsServices, flags: seq<Flag>)
    ensures |FlatMap(f => ThreeStageMessages(m, svc, f), flags)| <= |flags|
    ensures |FlatMap(f => FourStageMessages(m, svc, f), flags)| <= |flags|
  {
    FlatMapAtMostOne(f => ThreeStageMessages(m, svc, f), flags);
    FlatMapAtMostOne(f => FourStageMessages(m, svc, f), flags);
  }

  /** The first two stages end to end: an entry Crossref or arXiv matched
      never reaches the bad references; every other entry reaches
      cvf_openreview.py with its id and title as they were in the .bib. */
  lemma PipelineBadReferences(m: Matcher, bib: BibServices, svc: ProceedingsServices, entries: seq<Entry>)
    requires forall e :: e in entries ==> Reportable(ReadEntry(e))
    ensures FlatMap(f => ThreeStageMessages(m, svc, f),
                    LoadFlagged(Split(WrittenFile(Reasons(CheckAll(m, bib, entries))), "\n")))
            == FlatMap(e => RecordBadReferences(m, bib, svc, ReadEntry(e)), entries)
  {
    ReportRoundTrip(m, bib, entries);
    forall e | e in entries
      ensures FlatMap(f => ThreeStageMessages(m, svc, f), Expected(m, bib, ReadEntry(e)))
              == RecordBadReferences(m, bib, svc, ReadEntry(e))
    {
      RecordPipeline(m, bib, svc, ReadEntry(e));
    }
    FlatMapCompose(e => Expected(m, bib, ReadEntry(e)), f => ThreeStageMessages(m, svc, f),
                   e => RecordBadReferences(m, bib, svc, ReadEntry(e)), entries);
  }

  /** What cvf_openreview.py reports for a .bib entry after
      `check_bibliography`. */
  function RecordBadReferences(m: Matcher, bib: BibServices, svc: ProceedingsServices, r: BibRecord): seq<string> {
    if r.title == [] then [r.id + ": Missing or unparseable title in flagged_references."]
    else if OnCrossref(m, bib, r) || OnArxiv(m, bib, r) then []
    else ThreeStageMessages(m, svc, Flag(r.id, Some(r.title)))
  }

  lemma RecordPipeline(m: Matcher, bib: BibServices, svc: ProceedingsServices, r: BibRecord)
    ensures FlatMap(f => ThreeStageMessages(m, svc, f), Expected(m, bib, r)) == RecordBadReferences(m, bib, svc, r)
  {
    var flags := Expected(m, bib, r);
    if flags != [] {
      assert FlatMap(f => ThreeStageMessages(m, svc, f), flags)
             == ThreeStageMessages(m, svc, flags[0]) + FlatMap(f => ThreeStageMessages(m, svc, f), []);
    }
  }
}
