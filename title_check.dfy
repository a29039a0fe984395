/** The two title checkers: check_semantic.py compares a bibliography's
    titles with the arXiv titles of the identifiers it finds and confirms
    every titled entry on Semantic Scholar, logging the suspicious ones;
    bs_check.py only compares with arXiv, and reports every difference.

    The arXiv page fetch and the Semantic Scholar request are parameters:
    `fetchTitle(id)` is the stripped `citation_title` of the arXiv page (None
    when the request fails or the tag is missing), and `lookup(title)` the
    titles of the search results ("" for a result without one; [] when the
    request or the JSON decoding fails). */
module TitleCheck {
  import opened Text
  import opened Fuzzy
  import opened ArxivId
  import opened Flagged

  datatype Services = Services(fetchTitle: string -> Option<string>, lookup: string -> seq<string>)

  /** `if official_title:` */
  predicate Fetched(t: Option<string>) {
    t.Some? && t.value != []
  }

  /** The two titles differ once lower-cased and stripped. */
  predicate TitlesDiffer(official: string, title: string) {
    Strip(Lower(official)) != Strip(Lower(title))
  }

  /** `entry.get('id')` as printed: bibtexparser keeps the citation key
      under "ID", so this is "None" unless a field named `id` exists. */
  function KeyText(entry: Entry): string {
    Get(entry, "id", "None")
  }

  // ---------------------------------------------------------------------
  // check_semantic.py

  /** The similarity test `similarity(a, b) >= percent / 100` in whole
      numbers. */
  predicate Similar(m: Matcher, a: string, b: string, percent: nat) {
    |a| + |b| == 0 || 200 * m(a, b) >= percent * (|a| + |b|)
  }

  /** The whole-number test is the ratio test. */
  lemma SimilarIsRatio(m: Matcher, a: string, b: string, percent: nat)
    requires percent <= 100
    ensures Similar(m, a, b, percent) <==> Ratio(m, a, b) >= percent as real
  {
    if |a| + |b| > 0 {
      RatioAtLeast(m, a, b, percent);
    }
  }

  /** `semantic_scholar_search`: nothing is asked for an empty title. */
  function SemanticScholarSearch(title: string, lookup: string -> seq<string>): (r: seq<string>)
    ensures title == [] ==> r == []
  {
    if title == [] then [] else lookup(title)
  }

  /** Some search result is similar enough to the title. */
  predicate PaperExists(m: Matcher, title: string, percent: nat, lookup: string -> seq<string>) {
    var results := SemanticScholarSearch(title, lookup);
    exists i :: 0 <= i < |results| && Similar(m, Lower(results[i]), Lower(title), percent)
  }

  /** `check_paper_existence`: the results in order, stopping at the first
      one similar enough. */
  method CheckPaperExistence(m: Matcher, title: string, percent: nat, lookup: string -> seq<string>)
    returns (found: bool)
    ensures found == PaperExists(m, title, percent, lookup)
  {
    var results := SemanticScholarSearch(title, lookup);
    if results == [] {
      return false;
    }
    var i := 0;
    while i < |results|
      invariant i <= |results|
      invariant forall k :: 0 <= k < i ==> !Similar(m, Lower(results[k]), Lower(title), percent)
    {
      if Similar(m, Lower(results[i]), Lower(title), percent) {
        return true;
      }
      i := i + 1;
    }
    return false;
  }

  /** The existence threshold `main` passes. */
  const ExistencePercent: nat := 75

  const MismatchTag: string := "[Title Mismatch]"
  const ExistenceTag: string := "[Existence Warning]"

  function MismatchMessage(key: string, title: string, official: string): string {
    MismatchTag + " Entry key: " + key + "\n" +
    "  ► BibTeX title: " + title + "\n" +
    "  ► ArXiv title:  " + official + "\n"
  }

  function ExistenceMessage(title: string, key: string): string {
    ExistenceTag + " Could not confirm paper '" + title + "' (key: " + key + ") " +
    "on Semantic Scholar.\n" +
    "  -> Possibly not indexed or the title differs significantly.\n"
  }

  /** What `main` reads from an entry: the printed key, the raw title and
      the detected arXiv identifier. */
  datatype Checked = Checked(key: string, title: string, arxivId: Option<string>)

  function ReadChecked(entry: Entry): Checked {
    Checked(KeyText(entry), Get(entry, "title", ""), DetectedId(entry))
  }

  /** The entry's arXiv title is fetched, the entry has a title, and the
      two differ. */
  predicate Mismatch(svc: Services, c: Checked) {
    c.arxivId.Some? && Fetched(svc.fetchTitle(c.arxivId.value)) &&
    c.title != [] && TitlesDiffer(svc.fetchTitle(c.arxivId.value).value, c.title)
  }

  /** The entry has a non-blank title that Semantic Scholar does not
      confirm. */
  predicate Unconfirmed(m: Matcher, svc: Services, c: Checked) {
    Strip(c.title) != [] && !PaperExists(m, c.title, ExistencePercent, svc.lookup)
  }

  /** The messages one entry adds to `bad_entries`. */
  function Reports(m: Matcher, svc: Services, c: Checked): seq<string> {
    (if Mismatch(svc, c) then [MismatchMessage(c.key, c.title, svc.fetchTitle(c.arxivId.value).value)] else []) +
    (if Unconfirmed(m, svc, c) then [ExistenceMessage(c.title, c.key)] else [])
  }

  predicate SemanticMismatch(svc: Services, entry: Entry) {
    Mismatch(svc, ReadChecked(entry))
  }

  function SemanticReports(m: Matcher, svc: Services, entry: Entry): seq<string> {
    Reports(m, svc, ReadChecked(entry))
  }

  /** Some entry before `n` has a mismatch. */
  predicate AnyMismatch(svc: Services, entries: seq<Entry>, n: nat)
    requires n <= |entries|
  {
    exists k :: 0 <= k < n && SemanticMismatch(svc, entries[k])
  }

  lemma AnyMismatchStep(svc: Services, entries: seq<Entry>, n: nat)
    requires n < |entries|
    ensures AnyMismatch(svc, entries, n + 1) == (AnyMismatch(svc, entries, n) || SemanticMismatch(svc, entries[n]))
  {
  }

  /** What check_semantic.py's `main` leaves behind. */
  datatype SemanticOutcome = SemanticOutcome(mismatchFound: bool, badEntries: seq<string>, logFile: Option<string>)

  /** The outcome for a list of entries. */
  function SemanticRun(m: Matcher, svc: Services, entries: seq<Entry>): SemanticOutcome {
    var bad := FlatMap(e => SemanticReports(m, svc, e), entries);
    SemanticOutcome(
      AnyMismatch(svc, entries, |entries|),
      bad,
      if bad == [] then None else Some(WrittenFile(bad)))
  }

  /** The checks of one entry of check_semantic.py's `main`, lines 150-203. */
  method CheckSemanticEntry(m: Matcher, svc: Services, entry: Entry) returns (mismatch: bool, reports: seq<string>)
    ensures mismatch == SemanticMismatch(svc, entry)
    ensures reports == SemanticReports(m, svc, entry)
  {
    var key := KeyText(entry);
    var title := Get(entry, "title", "");
    var arxivId := DetectArxivId(entry);
    mismatch, reports := CheckRecord(m, svc, Checked(key, title, arxivId));
  }

  /** Lines 173-203, once the identifier is known. */
  method CheckRecord(m: Matcher, svc: Services, c: Checked) returns (mismatch: bool, reports: seq<string>)
    ensures mismatch == Mismatch(svc, c)
    ensures reports == Reports(m, svc, c)
  {
    mismatch := false;
    var mismatchReport: seq<string> := [];
    if c.arxivId.Some? {
      var officialTitle := svc.fetchTitle(c.arxivId.value);
      if Fetched(officialTitle) {
        if c.title != [] && TitlesDiffer(officialTitle.value, c.title) {
          mismatch := true;
          mismatchReport := [MismatchMessage(c.key, c.title, officialTitle.value)];
        }
      }
    }
    var existenceReport: seq<string> := [];
    if Strip(c.title) != [] {
      var found := CheckPaperExistence(m, c.title, ExistencePercent, svc.lookup);
      if !found {
        existenceReport := [ExistenceMessage(c.title, c.key)];
      }
    }
    reports := mismatchReport + existenceReport;
  }

  /** check_semantic.py's `main` over the loaded entries; the log file is
      written only when some message was recorded. */
  method CheckSemanticMain(m: Matcher, svc: Services, entries: seq<Entry>) returns (outcome: SemanticOutcome)
    ensures outcome == SemanticRun(m, svc, entries)
  {
    if entries == [] {
      return SemanticOutcome(false, [], None);
    }
    var mismatchFound := false;
    var badEntries: seq<string> := [];
    for i := 0 to |entries|
      invariant mismatchFound == AnyMismatch(svc, entries, i)
      invariant badEntries == FlatMap(e => SemanticReports(m, svc, e), entries[..i])
    {
      var mismatch, reports := CheckSemanticEntry(m, svc, entries[i]);
      AnyMismatchStep(svc, entries, i);
      if mismatch {
        mismatchFound := true;
      }
      FlatMapStep(e => SemanticReports(m, svc, e), entries, i);
      badEntries := badEntries + reports;
    }
    assert entries[..|entries|] == entries;
    var logFile := if badEntries == [] then None else Some(WrittenFile(badEntries));
    return SemanticOutcome(mismatchFound, badEntries, logFile);
  }

  /** An existence check passes exactly when some result's lower-cased
      title has ratio 75 or more against the lower-cased title; an empty
      title never passes. */
  lemma PaperExistsIff(m: Matcher, title: string, lookup: string -> seq<string>)
    ensures PaperExists(m, title, ExistencePercent, lookup) <==>
      title != [] && exists i :: (0 <= i < |lookup(title)| &&
        Ratio(m, Lower(lookup(title)[i]), Lower(title)) >= 75.0)
  {
    if title != [] {
      var results := lookup(title);
      if PaperExists(m, title, ExistencePercent, lookup) {
        var i :| 0 <= i < |results| && Similar(m, Lower(results[i]), Lower(title), ExistencePercent);
        SimilarIsRatio(m, Lower(results[i]), Lower(title), ExistencePercent);
      }
      forall i | 0 <= i < |results| && Ratio(m, Lower(results[i]), Lower(title)) >= 75.0
        ensures PaperExists(m, title, ExistencePercent, lookup)
      {
        SimilarIsRatio(m, Lower(results[i]), Lower(title), ExistencePercent);
      }
    }
  }

  /** An entry with a blank title gets no existence check and no
      existence message: the Semantic Scholar answers do not matter. */
  lemma BlankTitleNotLookedUp(m: Matcher, svc: Services, lookup: string -> seq<string>, c: Checked)
    requires Strip(c.title) == []
    ensures Reports(m, svc, c) == Reports(m, svc.(lookup := lookup), c)
    ensures !Unconfirmed(m, svc, c)
  {
  }

  /** At most two messages per entry, and the entry has a mismatch
      exactly when its first message is a title mismatch. */
  lemma ReportsShape(m: Matcher, svc: Services, c: Checked)
    ensures |Reports(m, svc, c)| <= 2
    ensures Mismatch(svc, c) <==> Reports(m, svc, c) != [] && Reports(m, svc, c)[0][..|MismatchTag|] == MismatchTag
  {
    var reports := Reports(m, svc, c);
    if Mismatch(svc, c) {
      MismatchTagged(c.key, c.title, svc.fetchTitle(c.arxivId.value).value);
    } else if reports != [] {
      ExistenceNotMismatch(c.title, c.key);
    }
  }

  lemma MismatchTagged(key: string, title: string, official: string)
    ensures MismatchMessage(key, title, official)[..|MismatchTag|] == MismatchTag
  {
    var msg := MismatchMessage(key, title, official);
    var rest := msg[|MismatchTag|..];
    assert msg == MismatchTag + rest;
  }

  lemma ExistenceNotMismatch(title: string, key: string)
    ensures ExistenceMessage(title, key)[..|MismatchTag|] != MismatchTag
  {
    var msg := ExistenceMessage(title, key);
    assert msg[1] == ExistenceTag[1];
    assert msg[..|MismatchTag|][1] != MismatchTag[1];
  }

  // ---------------------------------------------------------------------
  // bs_check.py

  /** What bs_check.py prints for an entry. */
  datatype BsReport =
    | FetchWarning(key: string, arxivId: string)
    | TitleMismatch(key: string, title: string, official: string)

  /** The reports of one entry: nothing without an identifier, a warning
      when the title cannot be fetched, otherwise a mismatch whenever the
      titles differ, even when the bib title is empty. */
  function BsRecordReports(fetchTitle: string -> Option<string>, c: Checked): seq<BsReport> {
    match c.arxivId
    case None => []
    case Some(id) =>
      var official := fetchTitle(id);
      if !Fetched(official) then [FetchWarning(c.key, id)]
      else if TitlesDiffer(official.value, c.title) then [TitleMismatch(c.key, c.title, official.value)]
      else []
  }

  /** The arXiv identifiers whose pages are fetched for one entry. */
  function Fetches(c: Checked): seq<string> {
    match c.arxivId
    case None => []
    case Some(id) => [id]
  }

  function BsReports(fetchTitle: string -> Option<string>, entry: Entry): seq<BsReport> {
    BsRecordReports(fetchTitle, ReadChecked(entry))
  }

  function BsFetches(entry: Entry): seq<string> {
    Fetches(ReadChecked(entry))
  }

  /** Some report is a title mismatch. */
  predicate HasMismatch(reports: seq<BsReport>) {
    exists k :: 0 <= k < |reports| && reports[k].TitleMismatch?
  }

  lemma HasMismatchAppend(a: seq<BsReport>, b: seq<BsReport>)
    requires |b| <= 1
    ensures HasMismatch(a + b) == (HasMismatch(a) || (b != [] && b[0].TitleMismatch?))
  {
    if HasMismatch(a) {
      var k :| 0 <= k < |a| && a[k].TitleMismatch?;
      assert (a + b)[k] == a[k];
    }
    if b != [] && b[0].TitleMismatch? {
      assert (a + b)[|a|] == b[0];
    }
  }

  /** One pass of bs_check.py's loop, lines 85-129. */
  method BsCheckEntry(fetchTitle: string -> Option<string>, entry: Entry)
    returns (reports: seq<BsReport>, ghost fetched: seq<string>)
    ensures reports == BsReports(fetchTitle, entry) && fetched == BsFetches(entry)
  {
    var key := KeyText(entry);
    var title := Get(entry, "title", "");
    var arxivId := DetectArxivId(entry);
    reports, fetched := BsCheckRecord(fetchTitle, Checked(key, title, arxivId));
  }

  /** Lines 112-129, once the identifier is known. */
  method BsCheckRecord(fetchTitle: string -> Option<string>, c: Checked)
    returns (reports: seq<BsReport>, ghost fetched: seq<string>)
    ensures reports == BsRecordReports(fetchTitle, c) && fetched == Fetches(c)
  {
    reports := [];
    fetched := [];
    if c.arxivId.None? {
      return;
    }
    var officialTitle := fetchTitle(c.arxivId.value);
    fetched := [c.arxivId.value];
    if !Fetched(officialTitle) {
      reports := [FetchWarning(c.key, c.arxivId.value)];
      return;
    }
    if TitlesDiffer(officialTitle.value, c.title) {
      reports := [TitleMismatch(c.key, c.title, officialTitle.value)];
    }
  }

  /** bs_check.py's `main`: the reports in entry order, the identifiers
      fetched, and `mismatch_found`. */
  method BsCheckMain(fetchTitle: string -> Option<string>, entries: seq<Entry>)
    returns (reports: seq<BsReport>, mismatchFound: bool, ghost fetched: seq<string>)
    ensures reports == FlatMap(e => BsReports(fetchTitle, e), entries)
    ensures fetched == FlatMap(BsFetches, entries)
    ensures mismatchFound == HasMismatch(reports)
  {
    reports := [];
    mismatchFound := false;
    fetched := [];
    if entries == [] {
      return;
    }
    for i := 0 to |entries|
      invariant reports == FlatMap(e => BsReports(fetchTitle, e), entries[..i])
      invariant fetched == FlatMap(BsFetches, entries[..i])
      invariant mismatchFound == HasMismatch(reports)
    {
      var more, moreFetched := BsCheckEntry(fetchTitle, entries[i]);
      FlatMapStep(e => BsReports(fetchTitle, e), entries, i);
      FlatMapStep(BsFetches, entries, i);
      BsReportsAtMostOne(fetchTitle, ReadChecked(entries[i]));
      HasMismatchAppend(reports, more);
      if more != [] && more[0].TitleMismatch? {
        mismatchFound := true;
      }
      reports := reports + more;
      fetched := fetched + moreFetched;
    }
    assert entries[..|entries|] == entries;
  }

  /** An entry without an arXiv identifier is skipped with no fetch; a
      failed fetch gives one warning and no comparison; every entry gives
      at most one report. */
  lemma BsReportsAtMostOne(fetchTitle: string -> Option<string>, c: Checked)
    ensures c.arxivId.None? ==> BsRecordReports(fetchTitle, c) == [] && Fetches(c) == []
    ensures c.arxivId.Some? && !Fetched(fetchTitle(c.arxivId.value)) ==>
      BsRecordReports(fetchTitle, c) == [FetchWarning(c.key, c.arxivId.value)]
    ensures |BsRecordReports(fetchTitle, c)| <= 1 && |Fetches(c)| <= 1
  {
  }

  /** The two checkers agree on every entry with a title: bs_check.py
      reports a mismatch exactly when check_semantic.py records one. */
  lemma CheckersAgreeWithTitle(svc: Services, c: Checked)
    requires c.title != []
    ensures Mismatch(svc, c) <==> exists r :: r in BsRecordReports(svc.fetchTitle, c) && r.TitleMismatch?
  {
    var reports := BsRecordReports(svc.fetchTitle, c);
    if Mismatch(svc, c) {
      assert reports[0] in reports;
    }
  }

  /** Without a title they part ways: an identifier whose fetched title is
      not blank gives a mismatch in bs_check.py and none in
      check_semantic.py. */
  lemma CheckersDifferWithoutTitle(svc: Services, c: Checked)
    requires c.title == [] && c.arxivId.Some? && svc.fetchTitle(c.arxivId.value).Some?
    requires Strip(svc.fetchTitle(c.arxivId.value).value) != []
    ensures !Mismatch(svc, c)
    ensures BsRecordReports(svc.fetchTitle, c) == [TitleMismatch(c.key, "", svc.fetchTitle(c.arxivId.value).value)]
  {
    var official := svc.fetchTitle(c.arxivId.value).value;
    LowerStripCommute(official);
    assert Lower(Strip(official)) != [];
    assert Strip(Lower("")) == [];
  }
}
