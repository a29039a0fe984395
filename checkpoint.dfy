/** The resume loop of validate.py's `main`: entries already in the output
    file are skipped, every other entry is looked up on Google Scholar,
    merged, appended to the corrected list, marked processed, and the whole
    list is written to disk before the next entry begins. A failed search
    writes what there is and stops the run. */
module Checkpoint {
  import opened Text
  import opened Merge

  /** What `scholarly.search_single_pub(title, filled=True)` gave: no
      publication, one with official BibTeX (and what bibtexparser made of
      it), one with only the partial `bib` data ({} when it has none), or an
      exception (blocked, or any other). */
  datatype SearchOutcome =
    | NoMatch
    | Official(parsed: ParseOutcome)
    | Partial(bib: PartialBib)
    | SearchRaised

  /** Only the author of the partial data may come as a list. */
  predicate WellShaped(o: SearchOutcome) {
    o.Partial? ==> StringsOutsideAuthor(o.bib)
  }

  /** Running; stopped by `sys.exit(1)` after a failed search; or ended by
      the AttributeError of `merge_partial_pub_data`. */
  datatype Status = Running | Stopped | Crashed

  /** The state of a run: `processed_ids`, `corrected_db.entries`, the
      status, every list written to disk, and every title searched. */
  datatype RunState = RunState(
    processed: set<string>,
    entries: seq<Entry>,
    status: Status,
    writes: seq<seq<Entry>>,
    searched: seq<string>)

  /** `{e["ID"] for e in existing_db.entries if "ID" in e}` */
  function ExistingIds(existing: seq<Entry>): set<string> {
    set i | 0 <= i < |existing| && "ID" in existing[i] :: existing[i]["ID"]
  }

  /** The state before the first entry: the existing output loaded back. */
  function Resumed(existing: seq<Entry>): RunState {
    RunState(ExistingIds(existing), existing, Running, [], [])
  }

  /** `entry.get("ID", f"UNKNOWN_{idx}")` */
  function EntryKey(entry: Entry, idx: nat): string {
    Get(entry, "ID", "UNKNOWN_" + NatToString(idx))
  }

  /** The entry appended for a search outcome other than an exception;
      None when the partial merge raises. */
  function Corrected(entry: Entry, idx: nat, outcome: SearchOutcome): Option<Entry>
    requires !outcome.SearchRaised?
  {
    match outcome
    case NoMatch => Some(entry)
    case Official(parsed) =>
      var officialBib := ParseOfficialBibtex(parsed, EntryKey(entry, idx), Get(entry, "ENTRYTYPE", "misc"));
      if officialBib != map[] then Some(Preserving(entry, officialBib)) else Some(entry)
    case Partial(bib) =>
      if bib != map[] then PartialMerge(entry, bib, PossibleFields) else Some(entry)
  }

  /** One iteration of the loop of `main`. */
  function Step(s: RunState, idx: nat, entry: Entry, search: string -> SearchOutcome): RunState {
    var id := EntryKey(entry, idx);
    var title := Strip(Get(entry, "title", ""));
    if s.status != Running || id in s.processed then s
    else if title == [] then
      var es := s.entries + [entry];
      RunState(s.processed + {id}, es, Running, s.writes + [es], s.searched)
    else
      var searched := s.searched + [title];
      var outcome := search(title);
      if outcome.SearchRaised? then s.(status := Stopped, writes := s.writes + [s.entries], searched := searched)
      else match Corrected(entry, idx, outcome)
        case None => s.(status := Crashed, searched := searched)
        case Some(c) =>
          var es := s.entries + [c];
          RunState(s.processed + {id}, es, Running, s.writes + [es], searched)
  }

  /** The state after the first `k` entries of the input. */
  function RunUpTo(s: RunState, original: seq<Entry>, k: nat, search: string -> SearchOutcome): RunState
    requires k <= |original|
  {
    if k == 0 then s else Step(RunUpTo(s, original, k - 1, search), k - 1, original[k - 1], search)
  }

  /** A property that every step keeps, once it holds after `k` entries,
      holds after any later number of entries. */
  lemma {:induction false} RunKeeps(s: RunState, original: seq<Entry>, k: nat, n: nat, search: string -> SearchOutcome, p: RunState -> bool)
    requires k <= n <= |original| && p(RunUpTo(s, original, k, search))
    requires forall u, i, e :: p(u) ==> p(Step(u, i, e, search))
    ensures p(RunUpTo(s, original, n, search))
  {
    if k < n {
      RunKeeps(s, original, k, n - 1, search, p);
      var u := RunUpTo(s, original, n - 1, search);
      assert p(Step(u, n - 1, original[n - 1], search));
    }
  }

  /** The run over the whole input. */
  function RunAll(s: RunState, original: seq<Entry>, search: string -> SearchOutcome): RunState {
    RunUpTo(s, original, |original|, search)
  }

  /** What the loop appends once a search has answered: the original
      entry, the official BibTeX merged into it, or the partial data merged
      into it; None when the partial merge raises. */
  method CorrectEntry(idx: nat, entry: Entry, pub: SearchOutcome) returns (appended: Option<Entry>)
    requires !pub.SearchRaised? && WellShaped(pub)
    ensures appended == Corrected(entry, idx, pub)
  {
    var entryId := Get(entry, "ID", "UNKNOWN_" + NatToString(idx));
    var entryType := Get(entry, "ENTRYTYPE", "misc");
    match pub {
      case NoMatch =>
        appended := Some(entry);
      case Official(parsed) =>
        var officialBib := ParseOfficialBibtex(parsed, entryId, entryType);
        if officialBib != map[] {
          var merged := MergeEntriesPreservingOriginal(entry, officialBib);
          appended := Some(merged);
        } else {
          appended := Some(entry);
        }
      case Partial(partialBib) =>
        if partialBib != map[] {
          appended := MergePartialPubData(entry, partialBib);
        } else {
          appended := Some(entry);
        }
    }
  }

  class ValidateRun {
    var processedIds: set<string>
    var entries: seq<Entry>
    var status: Status
    ghost var writes: seq<seq<Entry>>
    ghost var searched: seq<string>

    ghost function State(): RunState
      reads this
    {
      RunState(processedIds, entries, status, writes, searched)
    }

    /** `load_existing_output_db` and the set of already processed ids. */
    constructor (existing: seq<Entry>)
      ensures State() == Resumed(existing)
    {
      var ids: set<string> := {};
      for i := 0 to |existing|
        invariant ids == set j | 0 <= j < i && "ID" in existing[j] :: existing[j]["ID"]
      {
        if "ID" in existing[i] {
          ids := ids + {existing[i]["ID"]};
        }
      }
      processedIds := ids;
      entries := existing;
      status := Running;
      writes := [];
      searched := [];
    }

    /** `write_bib_to_disk(corrected_db, args.output)` */
    method WriteBibToDisk()
      modifies this
      ensures State() == old(State()).(writes := old(writes) + [entries])
    {
      writes := writes + [entries];
    }

    /** The body of the loop of `main` for the entry at `idx`. */
    method ProcessEntry(idx: nat, entry: Entry, search: string -> SearchOutcome)
      requires status == Running && WellShaped(search(Strip(Get(entry, "title", ""))))
      modifies this
      ensures State() == Step(old(State()), idx, entry, search)
    {
      var entryId := Get(entry, "ID", "UNKNOWN_" + NatToString(idx));
      if entryId in processedIds {
        return;
      }
      var title := Strip(Get(entry, "title", ""));
      if title == [] {
        entries := entries + [entry];
        processedIds := processedIds + {entryId};
        WriteBibToDisk();
        return;
      }
      var pub := search(title);
      searched := searched + [title];
      if pub.SearchRaised? {
        WriteBibToDisk();
        status := Stopped;
        return;
      }
      var appended := CorrectEntry(idx, entry, pub);
      if appended.None? {
        status := Crashed;
        return;
      }
      entries := entries + [appended.value];
      processedIds := processedIds + {entryId};
      WriteBibToDisk();
    }

    /** The loop of `main` over the input entries, until it ends or stops. */
    method Run(original: seq<Entry>, search: string -> SearchOutcome)
      requires status == Running && forall t :: WellShaped(search(t))
      modifies this
      ensures State() == RunAll(old(State()), original, search)
    {
      ghost var start := State();
      var idx := 0;
      while idx < |original| && status == Running
        invariant idx <= |original|
        invariant State() == RunUpTo(start, original, idx, search)
      {
        ProcessEntry(idx, original[idx], search);
        idx := idx + 1;
      }
      if idx < |original| {
        StaysEnded(start, original, idx, |original|, search);
      }
    }
  }

  /** Once stopped or crashed, no later entry changes anything. */
  lemma StaysEnded(s: RunState, original: seq<Entry>, k: nat, n: nat, search: string -> SearchOutcome)
    requires k <= n <= |original| && RunUpTo(s, original, k, search).status != Running
    ensures RunUpTo(s, original, n, search) == RunUpTo(s, original, k, search)
  {
    var ended := RunUpTo(s, original, k, search);
    forall u, i, e | u == ended ensures Step(u, i, e, search) == ended {
      EndedStep(u, i, e, search);
    }
    RunKeeps(s, original, k, n, search, u => u == ended);
  }

  lemma EndedStep(s: RunState, idx: nat, entry: Entry, search: string -> SearchOutcome)
    requires s.status != Running
    ensures Step(s, idx, entry, search) == s
  {
  }

  /** An entry whose id is already processed is skipped: no search, no
      write, nothing appended. */
  lemma SkipsProcessed(s: RunState, idx: nat, entry: Entry, search: string -> SearchOutcome)
    requires EntryKey(entry, idx) in s.processed
    ensures Step(s, idx, entry, search) == s
  {
  }

  /** An entry that is not skipped and does not stop the run appends
      exactly one entry, adds its id to the processed set, and writes the
      whole list; an entry with a title is searched once, by that title. */
  lemma StepAppendsOne(s: RunState, idx: nat, entry: Entry, search: string -> SearchOutcome)
    requires s.status == Running && EntryKey(entry, idx) !in s.processed
    requires Step(s, idx, entry, search).status == Running
    ensures var t := Step(s, idx, entry, search);
      && |t.entries| == |s.entries| + 1 && t.entries[..|s.entries|] == s.entries
      && t.processed == s.processed + {EntryKey(entry, idx)}
      && t.writes == s.writes + [t.entries]
      && t.searched == s.searched + (var title := Strip(Get(entry, "title", "")); if title == [] then [] else [title])
  {
    var t := Step(s, idx, entry, search);
    assert t.entries[..|s.entries|] == s.entries;
  }

  /** A failed search writes the list without the entry in flight and
      stops the run, with nothing marked processed. */
  lemma FailedSearchStops(s: RunState, idx: nat, entry: Entry, search: string -> SearchOutcome)
    requires s.status == Running && EntryKey(entry, idx) !in s.processed
    requires var title := Strip(Get(entry, "title", "")); title != [] && search(title).SearchRaised?
    ensures var t := Step(s, idx, entry, search);
      t.status == Stopped && t.entries == s.entries && t.processed == s.processed &&
      t.writes == s.writes + [s.entries]
  {
  }

  /** The appended entry keeps the original's ID field: ID is never taken
      from the official BibTeX or the partial data. */
  lemma CorrectedKeepsId(entry: Entry, idx: nat, outcome: SearchOutcome)
    requires !outcome.SearchRaised? && Corrected(entry, idx, outcome).Some?
    ensures var c := Corrected(entry, idx, outcome).value;
      ("ID" in c <==> "ID" in entry) && ("ID" in entry ==> c["ID"] == entry["ID"])
  {
    match outcome
    case NoMatch =>
    case Official(parsed) =>
      var officialBib := ParseOfficialBibtex(parsed, EntryKey(entry, idx), Get(entry, "ENTRYTYPE", "misc"));
      PreservingKeys(entry, officialBib);
    case Partial(bib) =>
      if bib != map[] {
        PartialPreservesOriginal(entry, bib);
      }
  }

  /** The entry a step appends carries the ID field of the input entry,
      so the next resumed run finds it among the processed ids. */
  lemma StepKeepsId(s: RunState, idx: nat, entry: Entry, search: string -> SearchOutcome)
    requires s.status == Running && EntryKey(entry, idx) !in s.processed && "ID" in entry
    requires Step(s, idx, entry, search).status == Running
    ensures var t := Step(s, idx, entry, search);
      |t.entries| == |s.entries| + 1 && "ID" in t.entries[|s.entries|] &&
      t.entries[|s.entries|]["ID"] == entry["ID"] &&
      entry["ID"] in ExistingIds(t.entries)
  {
    var e := StepAppendsCorrected(s, idx, entry, search);
    var title := Strip(Get(entry, "title", ""));
    if title != [] {
      CorrectedKeepsId(entry, idx, search(title));
    }
    IdAppended(s.entries, e, entry["ID"]);
  }

  /** What a step that goes on appends: the entry itself when it has no
      title, otherwise the corrected entry. */
  lemma StepAppendsCorrected(s: RunState, idx: nat, entry: Entry, search: string -> SearchOutcome) returns (e: Entry)
    requires s.status == Running && EntryKey(entry, idx) !in s.processed
    requires Step(s, idx, entry, search).status == Running
    ensures Step(s, idx, entry, search).entries == s.entries + [e]
    ensures var title := Strip(Get(entry, "title", ""));
      if title == [] then e == entry
      else !search(title).SearchRaised? && Corrected(entry, idx, search(title)) == Some(e)
  {
    var title := Strip(Get(entry, "title", ""));
    if title == [] {
      e := entry;
    } else {
      e := Corrected(entry, idx, search(title)).value;
    }
  }

  lemma IdAppended(prev: seq<Entry>, e: Entry, id: string)
    requires "ID" in e && e["ID"] == id
    ensures (prev + [e])[|prev|]["ID"] == id && id in ExistingIds(prev + [e])
  {
    assert (prev + [e])[|prev|] == e;
  }

  /** The last write holds the current list. */
  predicate WritesCurrent(s: RunState) {
    s.writes == [] || s.writes[|s.writes| - 1] == s.entries
  }

  /** `t` is `s` with entries appended, each with a new processed id. */
  predicate Grows(s: RunState, t: RunState) {
    && |s.entries| <= |t.entries| && t.entries[..|s.entries|] == s.entries
    && s.processed <= t.processed
    && |t.entries| - |s.entries| == |t.processed| - |s.processed|
  }

  lemma GrowsTransitive(s: RunState, u: RunState, t: RunState)
    requires Grows(s, u) && Grows(u, t)
    ensures Grows(s, t)
  {
    assert t.entries[..|s.entries|] == u.entries[..|s.entries|];
  }

  /** Whatever happens, the file on disk holds the list as it stands after
      each write, earlier results are never dropped, and every appended
      entry came with a new processed id: the entries appended and the ids
      added are as many. */
  lemma {:induction false} RunInvariant(s: RunState, original: seq<Entry>, k: nat, search: string -> SearchOutcome)
    requires k <= |original| && WritesCurrent(s)
    ensures WritesCurrent(RunUpTo(s, original, k, search)) && Grows(s, RunUpTo(s, original, k, search))
  {
    RunWritesCurrent(s, original, k, search);
    RunGrows(s, original, k, search);
  }

  lemma RunWritesCurrent(s: RunState, original: seq<Entry>, k: nat, search: string -> SearchOutcome)
    requires k <= |original| && WritesCurrent(s)
    ensures WritesCurrent(RunUpTo(s, original, k, search))
  {
    forall u, i, e | WritesCurrent(u) ensures WritesCurrent(Step(u, i, e, search)) {
      StepInvariant(u, i, e, search);
    }
    RunKeeps(s, original, 0, k, search, WritesCurrent);
  }

  lemma RunGrows(s: RunState, original: seq<Entry>, k: nat, search: string -> SearchOutcome)
    requires k <= |original|
    ensures Grows(s, RunUpTo(s, original, k, search))
  {
    forall u, i, e | Grows(s, u) ensures Grows(s, Step(u, i, e, search)) {
      StepGrows(u, i, e, search);
      GrowsTransitive(s, u, Step(u, i, e, search));
    }
    GrowsReflexive(s);
    RunKeeps(s, original, 0, k, search, t => Grows(s, t));
  }

  lemma GrowsReflexive(s: RunState)
    ensures Grows(s, s)
  {
    assert s.entries[..|s.entries|] == s.entries;
  }

  /** One step keeps the disk current. */
  lemma StepInvariant(s: RunState, idx: nat, entry: Entry, search: string -> SearchOutcome)
    requires WritesCurrent(s)
    ensures WritesCurrent(Step(s, idx, entry, search))
  {
    var t := Step(s, idx, entry, search);
    if s.status == Running && EntryKey(entry, idx) !in s.processed && t.status == Running {
      StepAppendsOne(s, idx, entry, search);
    } else {
      StepAppendsNothing(s, idx, entry, search);
    }
  }

  /** One step only ever appends, and appends an entry exactly when it
      adds a new processed id. */
  lemma StepGrows(s: RunState, idx: nat, entry: Entry, search: string -> SearchOutcome)
    ensures Grows(s, Step(s, idx, entry, search))
  {
    var t := Step(s, idx, entry, search);
    if s.status == Running && EntryKey(entry, idx) !in s.processed && t.status == Running {
      StepAppendsOne(s, idx, entry, search);
      AddNewElement(s.processed, EntryKey(entry, idx));
    } else {
      StepAppendsNothing(s, idx, entry, search);
      assert t.entries[..|s.entries|] == s.entries;
    }
  }

  lemma AddNewElement(ids: set<string>, id: string)
    requires id !in ids
    ensures |ids + {id}| == |ids| + 1
  {
  }

  /** A step that is skipped, or that ends the run, appends nothing and
      marks nothing processed. */
  lemma StepAppendsNothing(s: RunState, idx: nat, entry: Entry, search: string -> SearchOutcome)
    requires !(s.status == Running && EntryKey(entry, idx) !in s.processed && Step(s, idx, entry, search).status == Running)
    ensures Step(s, idx, entry, search).entries == s.entries
    ensures Step(s, idx, entry, search).processed == s.processed
  {
    if s.status == Running && EntryKey(entry, idx) !in s.processed {
      var title := Strip(Get(entry, "title", ""));
      assert title != [];
      if !search(title).SearchRaised? {
        assert Corrected(entry, idx, search(title)).None?;
      }
    }
  }
}
