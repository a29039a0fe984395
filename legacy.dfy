/** The earlier Google Scholar pass (old_validate.py, kept verbatim as
    scholarly_v1.py): the same resume loop as validate.py, but the official
    BibTeX replaces the entry outright, the partial data overwrites fields,
    and the variable `merged` of the partial path outlives its iteration. */
module Legacy {
  import opened Text
  import opened Merge
  import opened Checkpoint

  /** The partial data written over a copy of the entry: title, author
      (a list joined with " and ") and year whenever present, and the venue
      as booktitle or journal by the conference tokens. */
  function OverwriteMerge(entry: Entry, partial: PartialBib): Entry
    requires StringsOutsideAuthor(partial)
  {
    var m1 := if "title" in partial then entry["title" := partial["title"].s] else entry;
    var m2 := if "author" in partial then m1["author" := AuthorText(partial["author"])] else m1;
    var m3 := if "year" in partial then m2["year" := partial["year"].s] else m2;
    if "venue" in partial then
      var v := partial["venue"].s;
      if IsConferenceVenue(v) then m3["booktitle" := v] else m3["journal" := v]
    else m3
  }

  /** The fields the overwrite merge may write for the partial data. */
  function Written(partial: PartialBib): set<string> {
    (if "title" in partial then {"title"} else {}) +
    (if "author" in partial then {"author"} else {}) +
    (if "year" in partial then {"year"} else {}) +
    (if "venue" in partial then
       if partial["venue"].Str? && IsConferenceVenue(partial["venue"].s) then {"booktitle"} else {"journal"}
     else {})
  }

  /** Every present field is written, even over a non-empty original and
      even with an empty value; nothing else changes. */
  lemma OverwriteMergeMeaning(entry: Entry, partial: PartialBib)
    requires StringsOutsideAuthor(partial)
    ensures var r := OverwriteMerge(entry, partial);
      && r.Keys == entry.Keys + Written(partial)
      && (forall f :: f in entry && f !in Written(partial) ==> r[f] == entry[f])
      && ("title" in partial ==> r["title"] == partial["title"].s)
      && ("author" in partial ==> r["author"] == AuthorText(partial["author"]))
      && ("year" in partial ==> r["year"] == partial["year"].s)
      && ("venue" in partial && IsConferenceVenue(partial["venue"].s) ==> r["booktitle"] == partial["venue"].s)
      && ("venue" in partial && !IsConferenceVenue(partial["venue"].s) ==> r["journal"] == partial["venue"].s)
  {
  }

  /** Unlike `merge_partial_pub_data`, the overwrite merge replaces a
      title the original already has. */
  lemma OverwriteReplacesTitle(entry: Entry, t: string)
    requires Get(entry, "title", "") != [] && t != [] && t != entry["title"]
    ensures OverwriteMerge(entry, map["title" := Str(t)])["title"] == t
    ensures PartialMerge(entry, map["title" := Str(t)], PossibleFields) == Some(entry)
  {
    PartialMergeUnrolled(entry, map["title" := Str(t)]);
  }

  /** A run of the loop, with the `merged` left over from the last
      partial-data iteration (None while it was never bound). */
  datatype LegacyState = LegacyState(run: RunState, merged: Option<Entry>)

  /** The entries one processed entry appends, the `merged` it leaves
      behind, or None when line 233 reads an unbound `merged`. */
  function Appended(entry: Entry, id: string, outcome: SearchOutcome, merged: Option<Entry>): Option<(seq<Entry>, Option<Entry>)>
    requires !outcome.SearchRaised? && WellShaped(outcome)
  {
    match outcome
    case NoMatch => Some(([entry], merged))
    case Official(parsed) =>
      var newEntry := ParseOfficialBibtex(parsed, id, Get(entry, "ENTRYTYPE", "misc"));
      Some(([if newEntry != map[] then newEntry else entry], merged))
    case Partial(bib) =>
      if bib != map[] then
        var m := OverwriteMerge(entry, bib);
        Some(([m, m], Some(m)))
      else match merged
        case None => None
        case Some(stale) => Some(([entry, stale], merged))
  }

  /** One iteration of the loop of old_validate.py's `main`. */
  function LegacyStep(s: LegacyState, idx: nat, entry: Entry, search: string -> SearchOutcome): LegacyState
    requires WellShaped(search(Strip(Get(entry, "title", ""))))
  {
    var r := s.run;
    var id := EntryKey(entry, idx);
    var title := Strip(Get(entry, "title", ""));
    if r.status != Running || id in r.processed then s
    else if title == [] then
      var es := r.entries + [entry];
      s.(run := RunState(r.processed + {id}, es, Running, r.writes + [es], r.searched))
    else
      var searched := r.searched + [title];
      var outcome := search(title);
      if outcome.SearchRaised? then s.(run := r.(status := Stopped, writes := r.writes + [r.entries], searched := searched))
      else match Appended(entry, id, outcome, s.merged)
        case None => s.(run := r.(entries := r.entries + [entry], status := Crashed, searched := searched))
        case Some(out) =>
          var es := r.entries + out.0;
          LegacyState(RunState(r.processed + {id}, es, Running, r.writes + [es], searched), out.1)
  }

  /** The state after the first `k` entries of the input. */
  function LegacyUpTo(s: LegacyState, original: seq<Entry>, k: nat, search: string -> SearchOutcome): LegacyState
    requires k <= |original| && forall t :: WellShaped(search(t))
  {
    if k == 0 then s else LegacyStep(LegacyUpTo(s, original, k - 1, search), k - 1, original[k - 1], search)
  }

  class LegacyRun {
    var processedIds: set<string>
    var entries: seq<Entry>
    var status: Status
    var merged: Option<Entry>
    ghost var writes: seq<seq<Entry>>
    ghost var searched: seq<string>

    ghost function State(): LegacyState
      reads this
    {
      LegacyState(RunState(processedIds, entries, status, writes, searched), merged)
    }

    constructor (existing: seq<Entry>)
      ensures State() == LegacyState(Resumed(existing), None)
    {
      var ids: set<string> := {};
      for i := 0 to |existing|
        invariant ids == set j | 0 <= j < i && "ID" in existing[j] :: existing[j]["ID"]
      {
        if "ID" in existing[i] {
          ids := ids + {existing[i]["ID"]};
        }
      }
      processedIds := ids;
      entries := existing;
      status := Running;
      merged := None;
      writes := [];
      searched := [];
    }

    method WriteBibToDisk()
      modifies this
      ensures State() == old(State()).(run := old(State().run).(writes := old(writes) + [entries]))
    {
      writes := writes + [entries];
    }

    /** The merge of lines 206-225, on a copy of the entry. */
    static method MergeOverwriting(entry: Entry, partialBib: PartialBib) returns (m: Entry)
      requires StringsOutsideAuthor(partialBib)
      ensures m == OverwriteMerge(entry, partialBib)
    {
      m := entry;
      if "title" in partialBib {
        m := m["title" := partialBib["title"].s];
      }
      if "author" in partialBib {
        var authors := AuthorText(partialBib["author"]);
        m := m["author" := authors];
      }
      if "year" in partialBib {
        m := m["year" := partialBib["year"].s];
      }
      if "venue" in partialBib {
        var v := partialBib["venue"].s;
        if IsConferenceVenue(v) {
          m := m["booktitle" := v];
        } else {
          m := m["journal" := v];
        }
      }
    }

    /** The body of the loop of `main` for the entry at `idx`. */
    method ProcessEntry(idx: nat, entry: Entry, search: string -> SearchOutcome)
      requires status == Running && WellShaped(search(Strip(Get(entry, "title", ""))))
      modifies this
      ensures State() == LegacyStep(old(State()), idx, entry, search)
    {
      var entryId := Get(entry, "ID", "UNKNOWN_" + NatToString(idx));
      if entryId in processedIds {
        return;
      }
      var title := Strip(Get(entry, "title", ""));
      if title == [] {
        entries := entries + [entry];
        processedIds := processedIds + {entryId};
        WriteBibToDisk();
        return;
      }
      var pub := search(title);
      searched := searched + [title];
      if pub.SearchRaised? {
        WriteBibToDisk();
        status := Stopped;
        return;
      }
      var out := AppendFor(entry, entryId, pub, merged);
      if out.None? {
        entries := entries + [entry];
        status := Crashed;
        return;
      }
      entries := entries + out.value.0;
      merged := out.value.1;
      processedIds := processedIds + {entryId};
      WriteBibToDisk();
    }

    /** Lines 175-233: the entries appended for a search result, and the
        `merged` left behind; None when `merged` is unbound at line 233. */
    static method AppendFor(entry: Entry, entryId: string, pub: SearchOutcome, merged: Option<Entry>)
      returns (out: Option<(seq<Entry>, Option<Entry>)>)
      requires !pub.SearchRaised? && WellShaped(pub)
      ensures out == Appended(entry, entryId, pub, merged)
    {
      match pub {
        case NoMatch =>
          out := Some(([entry], merged));
        case Official(parsed) =>
          var newEntry := ParseOfficialBibtex(parsed, entryId, Get(entry, "ENTRYTYPE", "misc"));
          if newEntry != map[] {
            out := Some(([newEntry], merged));
          } else {
            out := Some(([entry], merged));
          }
        case Partial(partialBib) =>
          var current := merged;
          var kept: Entry;
          if partialBib != map[] {
            var m := MergeOverwriting(entry, partialBib);
            current := Some(m);
            kept := m;
          } else {
            kept := entry;
          }
          if current.None? {
            return None;
          }
          out := Some(([kept, current.value], current));
      }
    }

    /** The loop of `main` over the input entries, until it ends or stops. */
    method Run(original: seq<Entry>, search: string -> SearchOutcome)
      requires status == Running && forall t :: WellShaped(search(t))
      modifies this
      ensures State() == LegacyUpTo(old(State()), original, |original|, search)
    {
      ghost var start := State();
      var idx := 0;
      while idx < |original| && status == Running
        invariant idx <= |original|
        invariant State() == LegacyUpTo(start, original, idx, search)
      {
        ProcessEntry(idx, original[idx], search);
        idx := idx + 1;
      }
      if idx < |original| {
        LegacyStaysEnded(start, original, idx, |original|, search);
      }
    }
  }

  /** Once stopped or crashed, no later entry changes anything. */
  lemma {:induction false} LegacyStaysEnded(s: LegacyState, original: seq<Entry>, k: nat, n: nat, search: string -> SearchOutcome)
    requires k <= n <= |original| && forall t :: WellShaped(search(t))
    requires LegacyUpTo(s, original, k, search).run.status != Running
    ensures LegacyUpTo(s, original, n, search) == LegacyUpTo(s, original, k, search)
    decreases n - k
  {
    if k < n {
      LegacyStaysEnded(s, original, k, n - 1, search);
      LegacyEndedStep(LegacyUpTo(s, original, n - 1, search), n - 1, original[n - 1], search);
    }
  }

  lemma LegacyEndedStep(s: LegacyState, idx: nat, entry: Entry, search: string -> SearchOutcome)
    requires s.run.status != Running && WellShaped(search(Strip(Get(entry, "title", ""))))
    ensures LegacyStep(s, idx, entry, search) == s
  {
  }

  /** The official BibTeX replaces the entry: none of the original's fields
      survive except through the forced key (`UNKNOWN_idx` when the entry
      had none) and type. */
  lemma OfficialReplaces(s: LegacyState, idx: nat, entry: Entry, search: string -> SearchOutcome, official: Entry)
    requires s.run.status == Running && EntryKey(entry, idx) !in s.run.processed
    requires var title := Strip(Get(entry, "title", "")); title != [] && search(title) == Official(Parsed([official]))
    ensures var t := LegacyStep(s, idx, entry, search).run;
      && t.status == Running
      && t.entries == s.run.entries + [ParseOfficialBibtex(Parsed([official]), EntryKey(entry, idx), Get(entry, "ENTRYTYPE", "misc"))]
      && t.entries[|s.run.entries|].Keys == official.Keys + {"ID", "ENTRYTYPE"}
      && t.entries[|s.run.entries|]["ID"] == EntryKey(entry, idx)
  {
    var id := EntryKey(entry, idx);
    var newEntry := ParseOfficialBibtex(Parsed([official]), id, Get(entry, "ENTRYTYPE", "misc"));
    ParseOfficialBibtexMeaning(Parsed([official]), id, Get(entry, "ENTRYTYPE", "misc"));
    var title := Strip(Get(entry, "title", ""));
    assert Appended(entry, id, search(title), s.merged) == Some(([newEntry], s.merged));
  }

  /** Line 233 appends `merged` a second time after line 227 did: every
      entry merged from partial data lands twice in the output. */
  lemma PartialAppendedTwice(s: LegacyState, idx: nat, entry: Entry, search: string -> SearchOutcome)
    requires s.run.status == Running && EntryKey(entry, idx) !in s.run.processed
    requires var title := Strip(Get(entry, "title", ""));
      (title != [] && WellShaped(search(title)) && search(title).Partial? && search(title).bib != map[])
    ensures var title := Strip(Get(entry, "title", ""));
      var m := OverwriteMerge(entry, search(title).bib);
      var t := LegacyStep(s, idx, entry, search);
      t.run.entries == s.run.entries + [m, m] && t.merged == Some(m) && t.run.status == Running
  {
  }

  /** With no partial data, line 233 appends the `merged` left over from an
      earlier entry after the kept original: two entries are written, the
      second one belonging to a different reference. */
  lemma StaleMergedAppended(s: LegacyState, idx: nat, entry: Entry, search: string -> SearchOutcome, stale: Entry)
    requires s.run.status == Running && EntryKey(entry, idx) !in s.run.processed && s.merged == Some(stale)
    requires var title := Strip(Get(entry, "title", "")); title != [] && search(title) == Partial(map[])
    ensures var t := LegacyStep(s, idx, entry, search);
      t.run.entries == s.run.entries + [entry, stale] && t.run.writes == s.run.writes + [t.run.entries] &&
      t.run.status == Running
  {
  }

  /** With no partial data and no earlier partial merge, line 233 reads an
      unbound `merged` and the run dies without writing this entry. */
  lemma UnboundMergedCrashes(s: LegacyState, idx: nat, entry: Entry, search: string -> SearchOutcome)
    requires s.run.status == Running && EntryKey(entry, idx) !in s.run.processed && s.merged == None
    requires var title := Strip(Get(entry, "title", "")); title != [] && search(title) == Partial(map[])
    ensures var t := LegacyStep(s, idx, entry, search);
      t.run.status == Crashed && t.run.writes == s.run.writes && t.run.processed == s.run.processed
  {
  }

  /** What lines 206-233 evidently intend: the merged entry, or the kept
      original, appended once. */
  function IntendedAppended(entry: Entry, id: string, outcome: SearchOutcome): seq<Entry>
    requires !outcome.SearchRaised? && WellShaped(outcome)
  {
    match outcome
    case NoMatch => [entry]
    case Official(parsed) =>
      var newEntry := ParseOfficialBibtex(parsed, id, Get(entry, "ENTRYTYPE", "misc"));
      [if newEntry != map[] then newEntry else entry]
    case Partial(bib) => [if bib != map[] then OverwriteMerge(entry, bib) else entry]
  }

  /** The intended loop body appends exactly one entry for every entry it
      processes, and for partial data that entry is the merge of this
      entry's own data. */
  lemma IntendedAppendsOne(entry: Entry, id: string, outcome: SearchOutcome)
    requires !outcome.SearchRaised? && WellShaped(outcome)
    ensures |IntendedAppended(entry, id, outcome)| == 1
    ensures outcome.Partial? && outcome.bib != map[] ==>
      IntendedAppended(entry, id, outcome)[0] == OverwriteMerge(entry, outcome.bib)
    ensures outcome.Partial? && outcome.bib == map[] ==> IntendedAppended(entry, id, outcome)[0] == entry
    ensures !outcome.Partial? ==> Appended(entry, id, outcome, None) == Some((IntendedAppended(entry, id, outcome), None))
  {
  }
}
