/** The merge engine of validate.py: the official BibTeX reduced to one
    entry with the original's key and type, the fill-missing merge of the
    official entry into the original, and the same for the partial `pub.bib`
    data of a Google Scholar result. The original always wins where it has
    a value; a differing official value is only reported. */
module Merge {
  import opened Text

  /** The special fields of a bibtexparser entry, never taken from the
      official entry. */
  predicate Special(field: string) {
    field == "ID" || field == "ENTRYTYPE"
  }

  // ---------------------------------------------------------------------
  // parse_official_bibtex

  /** What `bibtexparser.loads` made of the official BibTeX text. */
  datatype ParseOutcome = ParseRaised | Parsed(entries: seq<Entry>)

  /** `parse_official_bibtex`: the first parsed entry (or an empty one)
      with the original key and type forced in; {} when the parser raised. */
  function ParseOfficialBibtex(parsed: ParseOutcome, originalId: string, originalType: string): Entry
  {
    match parsed
    case ParseRaised => map[]
    case Parsed(entries) =>
      var newEntry := if entries != [] then entries[0] else map[];
      newEntry["ID" := originalId]["ENTRYTYPE" := originalType]
  }

  /** The parsed entry is empty exactly when the parser raised; otherwise it
      carries the original key and type, and every other field of the first
      parsed entry (none when nothing was parsed). */
  lemma ParseOfficialBibtexMeaning(parsed: ParseOutcome, originalId: string, originalType: string)
    ensures var r := ParseOfficialBibtex(parsed, originalId, originalType);
      && (r == map[] <==> parsed.ParseRaised?)
      && (parsed.Parsed? ==> "ID" in r && r["ID"] == originalId)
      && (parsed.Parsed? ==> "ENTRYTYPE" in r && r["ENTRYTYPE"] == originalType)
      && (parsed.Parsed? && parsed.entries == [] ==> r.Keys == {"ID", "ENTRYTYPE"})
      && (parsed.Parsed? && parsed.entries != [] ==>
           r.Keys == parsed.entries[0].Keys + {"ID", "ENTRYTYPE"} &&
           forall f :: f in parsed.entries[0] && !Special(f) ==> r[f] == parsed.entries[0][f])
  {
    if parsed.Parsed? {
      assert "ID" in ParseOfficialBibtex(parsed, originalId, originalType);
    }
  }

  // ---------------------------------------------------------------------
  // merge_entries_preserving_original

  /** The official value of `field` goes into the merge: a field other than
      ID and ENTRYTYPE, empty or absent in the original, non-empty in the
      official entry. */
  predicate Fills(original: Entry, official: Entry, field: string) {
    field in official && !Special(field) && Get(original, field, "") == [] && official[field] != []
  }

  /** The merge once the official fields in `done` have been visited. */
  function FillFields(original: Entry, official: Entry, done: set<string>): Entry {
    map f | f in original.Keys + done && (f in original || Fills(original, official, f)) ::
      if f in done && Fills(original, official, f) then official[f] else original[f]
  }

  /** The entry `merge_entries_preserving_original` returns. */
  function Preserving(original: Entry, official: Entry): Entry {
    FillFields(original, official, official.Keys)
  }

  /** `merge_entries_preserving_original`: a copy of the original, then one
      official field at a time. */
  method MergeEntriesPreservingOriginal(original: Entry, official: Entry) returns (merged: Entry)
    ensures merged == Preserving(original, official)
  {
    merged := original;
    var todo := official.Keys;
    FillNothing(original, official);
    while todo != {}
      invariant todo <= official.Keys
      invariant merged == FillFields(original, official, official.Keys - todo)
      decreases |todo|
    {
      var field :| field in todo;
      FillNext(original, official, todo, field);
      merged := MergeField(merged, field, official[field]);
      todo := todo - {field};
    }
    assert official.Keys - todo == official.Keys;
  }

  lemma FillNothing(original: Entry, official: Entry)
    ensures FillFields(original, official, official.Keys - official.Keys) == original
  {
    assert official.Keys - official.Keys == {};
  }

  /** `FillOne` with the fields visited given by those still to visit. */
  lemma FillNext(original: Entry, official: Entry, todo: set<string>, field: string)
    requires field in todo && todo <= official.Keys
    ensures var before := FillFields(original, official, official.Keys - todo);
      FillFields(original, official, official.Keys - (todo - {field})) ==
        if !Special(field) && Get(before, field, "") == [] && official[field] != []
        then before[field := official[field]] else before
  {
    assert official.Keys - (todo - {field}) == (official.Keys - todo) + {field};
    FillOne(original, official, official.Keys - todo, field);
  }

  /** One iteration of the loop of `merge_entries_preserving_original`:
      ID and ENTRYTYPE are skipped, a missing or empty field is filled, a
      present one is kept (a differing official value is only reported). */
  method MergeField(merged: Entry, field: string, offValue: string) returns (next: Entry)
    ensures next == if !Special(field) && Get(merged, field, "") == [] && offValue != []
                    then merged[field := offValue] else merged
  {
    next := merged;
    if field == "ID" || field == "ENTRYTYPE" {
      return;
    }
    var origValue := Get(merged, field, "");
    if origValue == [] && offValue != [] {
      next := merged[field := offValue];
    }
  }

  /** Visiting one more official field is one iteration of the loop. */
  lemma FillOne(original: Entry, official: Entry, done: set<string>, field: string)
    requires field in official && field !in done
    ensures var before := FillFields(original, official, done);
      FillFields(original, official, done + {field}) ==
        if !Special(field) && Get(before, field, "") == [] && official[field] != []
        then before[field := official[field]] else before
  {
    var before := FillFields(original, official, done);
    assert Get(before, field, "") == Get(original, field, "");
  }

  /** Every field the original has a value for keeps that value. */
  lemma PreservesOriginal(original: Entry, official: Entry, field: string)
    requires field in original && original[field] != []
    ensures field in Preserving(original, official)
    ensures Preserving(original, official)[field] == original[field]
  {
  }

  /** A field missing or empty in the original takes the official value
      when that is non-empty, except ID and ENTRYTYPE. */
  lemma FillsMissing(original: Entry, official: Entry, field: string)
    requires field in official && official[field] != [] && !Special(field)
    requires Get(original, field, "") == []
    ensures field in Preserving(original, official)
    ensures Preserving(original, official)[field] == official[field]
  {
  }

  /** The merged keys are the original's and the official non-empty ones,
      ID and ENTRYTYPE aside; ID and ENTRYTYPE stay the original's. */
  lemma PreservingKeys(original: Entry, official: Entry)
    ensures Preserving(original, official).Keys ==
      original.Keys + set f | f in official && !Special(f) && official[f] != []
    ensures forall f :: Special(f) ==>
      (f in Preserving(original, official) <==> f in original) &&
      (f in original ==> Preserving(original, official)[f] == original[f])
  {
    var r := Preserving(original, official);
    var extra := set f | f in official && !Special(f) && official[f] != [];
    forall f | f in extra ensures f in r {
      if f !in original {
        assert Fills(original, official, f);
      }
    }
  }

  /** Merging the same official entry again changes nothing. */
  lemma PreservingIdempotent(original: Entry, official: Entry)
    ensures Preserving(Preserving(original, official), official) == Preserving(original, official)
  {
    var once := Preserving(original, official);
    forall f | f in official ensures !Fills(once, official, f) {
    }
    assert Preserving(once, official).Keys == once.Keys;
  }

  // ---------------------------------------------------------------------
  // merge_partial_pub_data

  /** A value of the partial `pub.bib` data: a string, or a list of author
      names. */
  datatype PubValue = Str(s: string) | NameList(names: seq<string>)

  type PartialBib = map<string, PubValue>

  /** `not pub_val` */
  predicate Falsy(v: PubValue) {
    v == Str([]) || v == NameList([])
  }

  /** `partial_bib.get(field, "")` */
  function PubGet(partial: PartialBib, field: string): PubValue {
    if field in partial then partial[field] else Str([])
  }

  /** Only the author may come as a list. */
  predicate StringsOutsideAuthor(partial: PartialBib) {
    forall f :: f in partial && f != "author" ==> partial[f].Str?
  }

  /** The fields `merge_partial_pub_data` reads, in order. */
  const PossibleFields: seq<string> := ["title", "author", "year", "venue", "abstract"]

  const VenueTokens: seq<string> := ["conf", "conference", "proc", "workshop"]

  /** The venue names a conference when its lower-cased form contains one
      of the tokens. */
  predicate IsConferenceVenue(venue: string) {
    exists i :: 0 <= i < |VenueTokens| && Contains(Lower(venue), VenueTokens[i])
  }

  /** "conference" adds nothing: it contains "conf". */
  lemma ConferenceVenueTokens(venue: string)
    ensures IsConferenceVenue(venue) <==>
      Contains(Lower(venue), "conf") || Contains(Lower(venue), "proc") || Contains(Lower(venue), "workshop")
  {
    var low := Lower(venue);
    assert VenueTokens[0] == "conf" && VenueTokens[1] == "conference";
    assert VenueTokens[2] == "proc" && VenueTokens[3] == "workshop";
    if Contains(low, "conference") {
      var i: nat :| i <= |low| && OccursAt(low, "conference", i);
      assert low[i..i + 4] == low[i..i + 10][..4];
      assert OccursAt(low, "conf", i);
    }
  }

  /** `merged.get("booktitle") or merged.get("journal") or ""` */
  function OriginalVenue(merged: Entry): string {
    if Get(merged, "booktitle", "") != [] then merged["booktitle"]
    else if Get(merged, "journal", "") != [] then merged["journal"]
    else []
  }

  /** A list of authors is joined with " and ". */
  function AuthorText(v: PubValue): string {
    match v
    case Str(s) => s
    case NameList(names) => Join(names, " and ")
  }

  /** The fields one step of the loop may write. */
  function Targets(field: string): set<string> {
    if field == "venue" then {"booktitle", "journal"} else {field}
  }

  /** One iteration of the loop of `merge_partial_pub_data`; None when it
      raises, which happens when `.strip()` is called on a list of authors
      because the original already has authors. A list in any other field
      cannot be stored in an entry of strings and also gives None here;
      `MergePartialPubData` excludes that case with `StringsOutsideAuthor`. */
  function PartialStep(merged: Entry, field: string, v: PubValue): Option<Entry> {
    if Falsy(v) then Some(merged)
    else if field == "venue" then
      if OriginalVenue(merged) == [] then
        if v.NameList? then None
        else if IsConferenceVenue(v.s) then Some(merged["booktitle" := v.s])
        else Some(merged["journal" := v.s])
      else if v.NameList? then None
      else Some(merged)
    else if field == "author" then
      if Get(merged, "author", "") == [] then Some(merged["author" := AuthorText(v)])
      else if v.NameList? then None
      else Some(merged)
    else if Get(merged, field, "") == [] then
      if v.NameList? then None else Some(merged[field := v.s])
    else if v.NameList? then None
    else Some(merged)
  }

  /** The loop over `fields`, stopping at the first step that raises. */
  function PartialMerge(merged: Entry, partial: PartialBib, fields: seq<string>): Option<Entry>
    decreases |fields|
  {
    if fields == [] then Some(merged)
    else match PartialStep(merged, fields[0], PubGet(partial, fields[0]))
      case None => None
      case Some(next) => PartialMerge(next, partial, fields[1..])
  }

  /** `merge_partial_pub_data`; None stands for the AttributeError it
      raises. */
  method MergePartialPubData(original: Entry, partialBib: PartialBib) returns (merged: Option<Entry>)
    requires StringsOutsideAuthor(partialBib)
    ensures merged == PartialMerge(original, partialBib, PossibleFields)
  {
    var current := original;
    var possibleFields := PossibleFields;
    for k := 0 to |possibleFields|
      invariant PartialMerge(original, partialBib, PossibleFields) == PartialMerge(current, partialBib, possibleFields[k..])
    {
      var field := possibleFields[k];
      assert possibleFields[k..][1..] == possibleFields[k + 1..];
      var pubVal := PubGet(partialBib, field);
      if Falsy(pubVal) {
        continue;
      }
      if field == "venue" {
        var originalVenue := OriginalVenue(current);
        if originalVenue == [] {
          if IsConferenceVenue(pubVal.s) {
            current := current["booktitle" := pubVal.s];
          } else {
            current := current["journal" := pubVal.s];
          }
        }
      } else if field == "author" {
        var origAuthors := Get(current, "author", "");
        if origAuthors == [] {
          var joined := AuthorText(pubVal);
          current := current["author" := joined];
        } else if pubVal.NameList? {
          return None;
        }
      } else {
        var originalVal := Get(current, field, "");
        if originalVal == [] {
          current := current[field := pubVal.s];
        }
      }
    }
    return Some(current);
  }

  /** A step writes only its targets, and only where the entry was empty. */
  lemma StepFrame(merged: Entry, field: string, v: PubValue)
    requires PartialStep(merged, field, v).Some?
    ensures var next := PartialStep(merged, field, v).value;
      && (forall g :: g in merged ==> g in next)
      && (forall g :: g in next && g !in merged ==> g in Targets(field))
      && (forall g :: g in merged && (g !in Targets(field) || merged[g] != []) ==> next[g] == merged[g])
  {
  }

  /** The fields the whole loop may write. */
  function AllTargets(fields: seq<string>): set<string>
    decreases |fields|
  {
    if fields == [] then {} else Targets(fields[0]) + AllTargets(fields[1..])
  }

  /** The merge keeps every key of the original, adds only the fields it
      may write, and changes a value only where the original had none and
      the field is one it may write. */
  lemma {:induction false} PartialFrame(merged: Entry, partial: PartialBib, fields: seq<string>)
    requires PartialMerge(merged, partial, fields).Some?
    ensures var r := PartialMerge(merged, partial, fields).value;
      && (forall g :: g in merged ==> g in r)
      && (forall g :: g in r && g !in merged ==> g in AllTargets(fields))
      && (forall g :: g in merged && (g !in AllTargets(fields) || merged[g] != []) ==> r[g] == merged[g])
    decreases |fields|
  {
    if fields != [] {
      var next := PartialStep(merged, fields[0], PubGet(partial, fields[0])).value;
      StepFrame(merged, fields[0], PubGet(partial, fields[0]));
      PartialFrame(next, partial, fields[1..]);
    }
  }

  lemma PossibleTargets()
    ensures AllTargets(PossibleFields) == {"title", "author", "year", "booktitle", "journal", "abstract"}
  {
    assert PossibleFields[1..] == ["author", "year", "venue", "abstract"];
    assert PossibleFields[2..] == ["year", "venue", "abstract"];
    assert PossibleFields[3..] == ["venue", "abstract"];
    assert PossibleFields[4..] == ["abstract"];
    assert PossibleFields[5..] == [];
  }

  /** `merge_partial_pub_data` never writes a "venue" key, an ID or an
      entry type, keeps every non-empty field of the original, and adds
      only title, author, year, booktitle, journal or abstract. */
  lemma PartialPreservesOriginal(original: Entry, partial: PartialBib)
    requires PartialMerge(original, partial, PossibleFields).Some?
    ensures var r := PartialMerge(original, partial, PossibleFields).value;
      && (forall g :: g in original && original[g] != [] ==> g in r && r[g] == original[g])
      && (forall g :: g in r && g !in original ==> g in {"title", "author", "year", "booktitle", "journal", "abstract"})
      && (forall g :: g in {"venue", "ID", "ENTRYTYPE"} ==> (g in r <==> g in original) && (g in original ==> r[g] == original[g]))
  {
    PartialFrame(original, partial, PossibleFields);
    PossibleTargets();
  }

  /** The data is read only through the five possible fields. */
  lemma {:induction false} PartialReadsOnlyFields(merged: Entry, p1: PartialBib, p2: PartialBib, fields: seq<string>)
    requires forall i :: 0 <= i < |fields| ==> PubGet(p1, fields[i]) == PubGet(p2, fields[i])
    ensures PartialMerge(merged, p1, fields) == PartialMerge(merged, p2, fields)
    decreases |fields|
  {
    if fields != [] {
      assert PubGet(p1, fields[0]) == PubGet(p2, fields[0]);
      match PartialStep(merged, fields[0], PubGet(p1, fields[0]))
      case None =>
      case Some(next) =>
        PartialReadsOnlyFields(next, p1, p2, fields[1..]);
    }
  }

  /** One more step after a result that may already have raised. */
  function Then(o: Option<Entry>, partial: PartialBib, field: string): Option<Entry> {
    match o
    case None => None
    case Some(m) => PartialStep(m, field, PubGet(partial, field))
  }

  /** The loop of `merge_partial_pub_data` written out field by field. */
  lemma PartialMergeUnrolled(original: Entry, partial: PartialBib)
    ensures PartialMerge(original, partial, PossibleFields) ==
      Then(Then(Then(Then(Then(Some(original), partial, "title"), partial, "author"),
        partial, "year"), partial, "venue"), partial, "abstract")
  {
    var fs := PossibleFields;
    assert fs[1..] == ["author", "year", "venue", "abstract"];
    assert fs[2..] == ["year", "venue", "abstract"];
    assert fs[3..] == ["venue", "abstract"];
    assert fs[4..] == ["abstract"];
    assert fs[5..] == [];
  }

  /** A step on a string value never raises, except for a list of authors
      over existing authors. */
  lemma StepRaises(m: Entry, field: string, v: PubValue)
    requires field != "author" ==> v.Str?
    ensures PartialStep(m, field, v).None? <==>
      field == "author" && v.NameList? && v.names != [] && Get(m, "author", "") != []
  {
  }

  /** The partial merge raises exactly when the data lists authors and the
      original already has some. */
  lemma PartialRaisesIff(original: Entry, partial: PartialBib)
    requires StringsOutsideAuthor(partial)
    ensures PartialMerge(original, partial, PossibleFields).None? <==>
      (var a := PubGet(partial, "author");
       a.NameList? && a.names != [] && Get(original, "author", "") != [])
  {
    PartialMergeUnrolled(original, partial);
    var m1 := PartialStep(original, "title", PubGet(partial, "title"));
    StepRaises(original, "title", PubGet(partial, "title"));
    StepFrame(original, "title", PubGet(partial, "title"));
    assert Get(m1.value, "author", "") == Get(original, "author", "");
    StepRaises(m1.value, "author", PubGet(partial, "author"));
    var m2 := PartialStep(m1.value, "author", PubGet(partial, "author"));
    if m2.Some? {
      StepRaises(m2.value, "year", PubGet(partial, "year"));
      var m3 := PartialStep(m2.value, "year", PubGet(partial, "year"));
      StepRaises(m3.value, "venue", PubGet(partial, "venue"));
      var m4 := PartialStep(m3.value, "venue", PubGet(partial, "venue"));
      StepRaises(m4.value, "abstract", PubGet(partial, "abstract"));
    }
  }

  /** The entries after each step of a merge that does not raise. */
  lemma PartialSteps(original: Entry, partial: PartialBib)
    returns (m1: Entry, m2: Entry, m3: Entry, m4: Entry, r: Entry)
    requires PartialMerge(original, partial, PossibleFields).Some?
    ensures PartialStep(original, "title", PubGet(partial, "title")) == Some(m1)
    ensures PartialStep(m1, "author", PubGet(partial, "author")) == Some(m2)
    ensures PartialStep(m2, "year", PubGet(partial, "year")) == Some(m3)
    ensures PartialStep(m3, "venue", PubGet(partial, "venue")) == Some(m4)
    ensures PartialStep(m4, "abstract", PubGet(partial, "abstract")) == Some(r)
    ensures r == PartialMerge(original, partial, PossibleFields).value
  {
    PartialMergeUnrolled(original, partial);
    m1 := PartialStep(original, "title", PubGet(partial, "title")).value;
    m2 := PartialStep(m1, "author", PubGet(partial, "author")).value;
    m3 := PartialStep(m2, "year", PubGet(partial, "year")).value;
    m4 := PartialStep(m3, "venue", PubGet(partial, "venue")).value;
    r := PartialStep(m4, "abstract", PubGet(partial, "abstract")).value;
  }

  /** A step leaves the fields outside its targets as they were. */
  lemma StepKeeps(m: Entry, field: string, v: PubValue, g: string)
    requires PartialStep(m, field, v).Some? && g !in Targets(field)
    ensures Get(PartialStep(m, field, v).value, g, "") == Get(m, g, "")
  {
    StepFrame(m, field, v);
  }

  /** A list of authors, or an author string, fills an original without
      authors (a list joined with " and "). */
  lemma PartialFillsAuthor(original: Entry, partial: PartialBib)
    requires StringsOutsideAuthor(partial)
    requires Get(original, "author", "") == [] && !Falsy(PubGet(partial, "author"))
    ensures PartialMerge(original, partial, PossibleFields).Some?
    ensures Get(PartialMerge(original, partial, PossibleFields).value, "author", "") == AuthorText(PubGet(partial, "author"))
  {
    PartialRaisesIff(original, partial);
    var m1, m2, m3, m4, r := PartialSteps(original, partial);
    StepKeeps(original, "title", PubGet(partial, "title"), "author");
    StepKeeps(m2, "year", PubGet(partial, "year"), "author");
    StepKeeps(m3, "venue", PubGet(partial, "venue"), "author");
    StepKeeps(m4, "abstract", PubGet(partial, "abstract"), "author");
  }

  /** Title, year and abstract: a missing or empty original field takes the
      non-empty partial value. */
  lemma PartialFillsField(original: Entry, partial: PartialBib, field: string, value: string)
    requires StringsOutsideAuthor(partial) && PartialMerge(original, partial, PossibleFields).Some?
    requires field in {"title", "year", "abstract"}
    requires Get(original, field, "") == [] && PubGet(partial, field) == Str(value) && value != []
    ensures Get(PartialMerge(original, partial, PossibleFields).value, field, "") == value
  {
    var m1, m2, m3, m4, r := PartialSteps(original, partial);
    if field == "title" {
      StepFrame(m1, "author", PubGet(partial, "author"));
      StepFrame(m2, "year", PubGet(partial, "year"));
      StepFrame(m3, "venue", PubGet(partial, "venue"));
      StepFrame(m4, "abstract", PubGet(partial, "abstract"));
    } else if field == "year" {
      StepKeeps(original, "title", PubGet(partial, "title"), field);
      StepKeeps(m1, "author", PubGet(partial, "author"), field);
      StepFrame(m3, "venue", PubGet(partial, "venue"));
      StepFrame(m4, "abstract", PubGet(partial, "abstract"));
    } else {
      StepKeeps(original, "title", PubGet(partial, "title"), field);
      StepKeeps(m1, "author", PubGet(partial, "author"), field);
      StepKeeps(m2, "year", PubGet(partial, "year"), field);
      StepKeeps(m3, "venue", PubGet(partial, "venue"), field);
    }
  }

  /** The venue goes to booktitle when it names a conference, otherwise to
      journal, and only when the original has neither; otherwise booktitle
      and journal stay as they were. */
  lemma PartialVenue(original: Entry, partial: PartialBib)
    requires StringsOutsideAuthor(partial) && PartialMerge(original, partial, PossibleFields).Some?
    ensures var r := PartialMerge(original, partial, PossibleFields).value;
      var v := PubGet(partial, "venue");
      if OriginalVenue(original) == [] && !Falsy(v) then
        if IsConferenceVenue(v.s) then Get(r, "booktitle", "") == v.s && Get(r, "journal", "") == Get(original, "journal", "")
        else Get(r, "journal", "") == v.s && Get(r, "booktitle", "") == Get(original, "booktitle", "")
      else Get(r, "booktitle", "") == Get(original, "booktitle", "") && Get(r, "journal", "") == Get(original, "journal", "")
  {
    var m1, m2, m3, m4, r := PartialSteps(original, partial);
    StepKeeps(original, "title", PubGet(partial, "title"), "booktitle");
    StepKeeps(m1, "author", PubGet(partial, "author"), "booktitle");
    StepKeeps(m2, "year", PubGet(partial, "year"), "booktitle");
    StepKeeps(m4, "abstract", PubGet(partial, "abstract"), "booktitle");
    StepKeeps(original, "title", PubGet(partial, "title"), "journal");
    StepKeeps(m1, "author", PubGet(partial, "author"), "journal");
    StepKeeps(m2, "year", PubGet(partial, "year"), "journal");
    StepKeeps(m4, "abstract", PubGet(partial, "abstract"), "journal");
    assert OriginalVenue(m3) == OriginalVenue(original);
  }
}
