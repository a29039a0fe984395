/** The loop body of old_validate.py with its append done once, as
    validate.py does, against the body as written. */
module LegacyCorrected {
  import opened Text
  import opened Merge
  import opened Checkpoint
  import opened Legacy

  /** The loop body with the append of lines 206-233 done once, as
      intended: old_validate.py's step with `IntendedAppended` in place of
      `Appended`. */
  function IntendedStep(r: RunState, idx: nat, entry: Entry, search: string -> SearchOutcome): RunState
    requires WellShaped(search(Strip(Get(entry, "title", ""))))
  {
    var id := EntryKey(entry, idx);
    var title := Strip(Get(entry, "title", ""));
    if r.status != Running || id in r.processed then r
    else if title == [] then
      var es := r.entries + [entry];
      RunState(r.processed + {id}, es, Running, r.writes + [es], r.searched)
    else
      var searched := r.searched + [title];
      var outcome := search(title);
      if outcome.SearchRaised? then r.(status := Stopped, writes := r.writes + [r.entries], searched := searched)
      else
        var es := r.entries + IntendedAppended(entry, id, outcome);
        RunState(r.processed + {id}, es, Running, r.writes + [es], searched)
  }

  /** The intended step only appends, one entry per newly processed id,
      the invariant validate.py's loop keeps. */
  lemma IntendedStepGrows(r: RunState, idx: nat, entry: Entry, search: string -> SearchOutcome)
    requires WellShaped(search(Strip(Get(entry, "title", ""))))
    ensures Grows(r, IntendedStep(r, idx, entry, search))
  {
    var title := Strip(Get(entry, "title", ""));
    var outcome := search(title);
    if r.status == Running && EntryKey(entry, idx) !in r.processed && title != [] && !outcome.SearchRaised? {
      IntendedAppendsOne(entry, EntryKey(entry, idx), outcome);
    }
  }

  /** As written, the step for non-empty partial data breaks that
      invariant: two entries are appended for one new id. */
  lemma AsWrittenBreaksGrows(s: LegacyState, idx: nat, entry: Entry, search: string -> SearchOutcome)
    requires s.run.status == Running && EntryKey(entry, idx) !in s.run.processed
    requires var title := Strip(Get(entry, "title", ""));
      (title != [] && WellShaped(search(title)) && search(title).Partial? && search(title).bib != map[])
    ensures !Grows(s.run, LegacyStep(s, idx, entry, search).run)
  {
    PartialAppendedTwice(s, idx, entry, search);
    var t := LegacyStep(s, idx, entry, search);
    assert t.run.processed == s.run.processed + {EntryKey(entry, idx)};
  }
}
