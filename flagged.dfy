/** The flagged-references report: the lines `check_bibliography` writes
    (crossref_arxiv.py) and the `load_flagged_references` parser that reads
    them back (cvf_openreview.py and final_filter.py carry the same one).

    The parser applies the pattern
      ^\[(?P<id>[^\]]+)\].+['"](?P<title>[^'"]+)['"].*
    and otherwise falls back to the first `[id]` anywhere in the line. The
    match is written out as the search a backtracking regex engine makes:
    the id runs to the first ']', and the greedy `.+` makes the title's
    opening quote the rightmost one that can start a quoted run. */
module Flagged {
  import opened Text

  predicate IsQuote(c: char) {
    c == '\'' || c == '"'
  }

  predicate NoQuotes(s: string) {
    forall i :: 0 <= i < |s| ==> !IsQuote(s[i])
  }

  /** `f"[{entry_id}] Missing title in .bib"` */
  function MissingTitleReason(id: string): string {
    "[" + id + "] Missing title in .bib"
  }

  const NoMatchGap := " No match in Crossref or ArXiv for "

  /** `f"[{entry_id}] No match in Crossref or ArXiv for '{bib_title}'"` */
  function NoMatchReason(id: string, title: string): string {
    "[" + id + "]" + NoMatchGap + "'" + title + "'"
  }

  /** The first index at or after `from` holding `c`. */
  function FindChar(s: string, c: char, from: nat): (r: Option<nat>)
    ensures r.Some? ==> from <= r.value < |s| && s[r.value] == c
    ensures r.Some? ==> forall i :: from <= i < r.value ==> s[i] != c
    ensures r.None? ==> forall i :: from <= i < |s| ==> s[i] != c
    decreases |s| - from
  {
    if from >= |s| then None
    else if s[from] == c then Some(from)
    else FindChar(s, c, from + 1)
  }

  /** The first quote character at or after `from`. */
  function FindQuote(s: string, from: nat): (r: Option<nat>)
    ensures r.Some? ==> from <= r.value < |s| && IsQuote(s[r.value])
    ensures r.Some? ==> forall i :: from <= i < r.value ==> !IsQuote(s[i])
    ensures r.None? ==> forall i :: from <= i < |s| ==> !IsQuote(s[i])
    decreases |s| - from
  {
    if from >= |s| then None
    else if IsQuote(s[from]) then Some(from)
    else FindQuote(s, from + 1)
  }

  /** With the id closed by the ']' at `j`, the pattern can put the title's
      opening quote at `p`: `.+` covers `line[j+1..p]` (at least one
      character, no newline), a quote at `p`, a non-quote after it, and a
      closing quote further on. */
  predicate IsOpening(line: string, j: nat, p: nat) {
    && j + 2 <= p && p + 1 < |line|
    && IsQuote(line[p]) && !IsQuote(line[p + 1])
    && FindQuote(line, p + 1).Some?
    && '\n' !in line[j + 1..p]
  }

  /** The greedy `.+` tries the opening positions from the right. */
  function OpeningFrom(line: string, j: nat, p: int): (r: Option<nat>)
    ensures r.Some? ==> r.value <= p && IsOpening(line, j, r.value)
    ensures r.Some? ==> forall q :: r.value < q <= p ==> !IsOpening(line, j, q)
    ensures r.None? ==> forall q :: 0 <= q <= p ==> !IsOpening(line, j, q)
    decreases p
  {
    if p < (j + 2) as int then None
    else if IsOpening(line, j, p) then Some(p)
    else OpeningFrom(line, j, p - 1)
  }

  /** `re.search(r"\[(?P<id>[^\]]+)\]", line)` from position `i` on: the
      leftmost '[' followed by at least one non-']' and then a ']'. */
  function BracketFrom(line: string, i: nat): (r: Option<string>)
    ensures r.Some? ==> r.value != [] && ']' !in r.value
    decreases |line| - i
  {
    if i + 1 >= |line| then None
    else if line[i] == '[' && line[i + 1] != ']' && FindChar(line, ']', i + 1).Some? then
      var k := FindChar(line, ']', i + 1).value;
      Some(line[i + 1..k])
    else BracketFrom(line, i + 1)
  }

  /** `\[([^\]]+)\]` matches at `k`: a '[', at least one character other
      than ']', then a ']'. */
  predicate BracketAt(line: string, k: nat) {
    k + 1 < |line| && line[k] == '[' && line[k + 1] != ']' && FindChar(line, ']', k + 1).Some?
  }

  /** The fallback search finds nothing exactly when the pattern matches
      nowhere from `i` on; otherwise it gives the group of the leftmost
      match, the text up to the first ']' after its '['. */
  lemma BracketFromMeaning(line: string, i: nat)
    ensures BracketFrom(line, i).None? <==> forall k :: i <= k ==> !BracketAt(line, k)
    ensures BracketFrom(line, i).Some? ==> exists k :: (i <= k && BracketAt(line, k) &&
      (forall k' :: i <= k' < k ==> !BracketAt(line, k')) &&
      BracketFrom(line, i).value == line[k + 1..FindChar(line, ']', k + 1).value])
  {
    BracketFromNone(line, i);
    if BracketFrom(line, i).Some? {
      var k := BracketFromLeftmost(line, i);
    }
  }

  lemma {:induction false} BracketFromNone(line: string, i: nat)
    ensures BracketFrom(line, i).None? <==> forall k :: i <= k ==> !BracketAt(line, k)
    decreases |line| - i
  {
    if i + 1 < |line| && !BracketAt(line, i) {
      BracketFromNone(line, i + 1);
    }
  }

  lemma {:induction false} BracketFromLeftmost(line: string, i: nat) returns (k: nat)
    requires BracketFrom(line, i).Some?
    ensures i <= k && BracketAt(line, k) && forall k' :: i <= k' < k ==> !BracketAt(line, k')
    ensures BracketFrom(line, i).value == line[k + 1..FindChar(line, ']', k + 1).value]
    decreases |line| - i
  {
    if BracketAt(line, i) {
      k := i;
    } else {
      k := BracketFromLeftmost(line, i + 1);
    }
  }

  /** What the parser keeps of one stripped, non-blank line: the reference
      id and, when the pattern matched, the quoted title. */
  datatype Flag = Flag(id: string, title: Option<string>)

  /** The pattern match: `Some((id, title))` with the raw groups. */
  function MatchLine(line: string): Option<(string, string)> {
    if |line| == 0 || line[0] != '[' then None
    else match FindChar(line, ']', 1)
      case None => None
      case Some(j) =>
        if j < 2 then None
        else match OpeningFrom(line, j, |line| - 2)
          case None => None
          case Some(p) =>
            var q := FindQuote(line, p + 1).value;
            Some((line[1..j], line[p + 1..q]))
  }

  /** The per-line parse of `load_flagged_references`: both groups are
      stripped; without a match the id comes from the first bracket pair,
      or is "UNKNOWN", and the title is None. */
  /** A matched id is non-empty and holds no ']'; a matched title is
      non-empty and holds no quote. */
  lemma MatchLineShape(line: string)
    requires MatchLine(line).Some?
    ensures MatchLine(line).value.0 != [] && ']' !in MatchLine(line).value.0
    ensures MatchLine(line).value.1 != [] && NoQuotes(MatchLine(line).value.1)
  {
    var j := FindChar(line, ']', 1).value;
    var p := OpeningFrom(line, j, |line| - 2).value;
    var q := FindQuote(line, p + 1).value;
    var id := line[1..j];
    forall k | 0 <= k < |id| ensures id[k] != ']' {
      assert id[k] == line[1 + k];
    }
    var title := line[p + 1..q];
    forall k | 0 <= k < |title| ensures !IsQuote(title[k]) {
      assert title[k] == line[p + 1 + k];
    }
  }

  function ParseLine(line: string): (f: Flag)
    ensures ']' !in f.id
    ensures f.title.Some? ==> NoQuotes(f.title.value) && IsStripped(f.title.value)
  {
    match MatchLine(line)
    case Some((id, title)) =>
      MatchLineShape(line);
      StripKeepsAbsent(id, ']');
      StripKeepsNoQuotes(title);
      Flag(Strip(id), Some(Strip(title)))
    case None =>
      match BracketFrom(line, 0)
      case Some(id) =>
        StripKeepsAbsent(id, ']');
        Flag(Strip(id), None)
      case None => Flag("UNKNOWN", None)
  }

  /** `Strip(s)` is the slice `s[i..j]`. */
  lemma StripIsSlice(s: string) returns (i: nat, j: nat)
    ensures i <= j <= |s| && Strip(s) == s[i..j]
  {
    var l := StripLeft(s);
    var r := StripRight(l);
    i := |s| - |l|;
    j := i + |r|;
    assert l == s[i..];
    assert r == l[..|r|];
    assert l[..|r|] == s[i..j];
  }

  lemma StripKeepsAbsent(s: string, c: char)
    requires c !in s
    ensures c !in Strip(s)
  {
    var i, j := StripIsSlice(s);
    assert forall k :: 0 <= k < j - i ==> s[i..j][k] == s[i + k];
  }

  lemma StripKeepsNoQuotes(s: string)
    requires NoQuotes(s)
    ensures NoQuotes(Strip(s))
  {
    var i, j := StripIsSlice(s);
    assert forall k :: 0 <= k < j - i ==> s[i..j][k] == s[i + k];
  }

  /** In "[" + id + rest with no ']' in id and rest starting with ']', the
      id is closed right after it. */
  lemma IdCloses(line: string, id: string, rest: string)
    requires line == "[" + id + rest && ']' !in id && rest != [] && rest[0] == ']'
    ensures FindChar(line, ']', 1) == Some(|id| + 1) && line[1..|id| + 1] == id
  {
    assert forall i :: 1 <= i < |id| + 1 ==> line[i] == id[i - 1];
    assert line[|id| + 1] == ']';
  }

  /** A run with no quotes followed by a final quote: that quote is the
      first one after the run starts. */
  lemma ClosingQuote(line: string, from: nat, run: string)
    requires from + |run| + 1 == |line| && line[from..|line| - 1] == run
    requires NoQuotes(run) && IsQuote(line[|line| - 1])
    ensures FindQuote(line, from) == Some(|line| - 1)
  {
    forall i | from <= i < |line| - 1 ensures !IsQuote(line[i]) {
      assert line[i] == run[i - from];
    }
  }

  /** The pattern match of a "No match" line: the id, and the title between
      the last pair of quotes. */
  lemma NoMatchMatches(id: string, title: string)
    requires id != [] && ']' !in id
    requires title != [] && NoQuotes(title)
    ensures MatchLine(NoMatchReason(id, title)) == Some((id, title))
  {
    var line := NoMatchReason(id, title);
    var j := |id| + 1;
    var p := j + |NoMatchGap| + 1;
    NoMatchId(id, title);
    NoMatchTail(id, title);
    QuotedTail(line, j, p, title);
    MatchLineIs(line, j, p, |line| - 1);
  }

  lemma NoMatchId(id: string, title: string)
    requires ']' !in id
    ensures var line := NoMatchReason(id, title);
      line[0] == '[' && FindChar(line, ']', 1) == Some(|id| + 1) && line[1..|id| + 1] == id
  {
    var rest := "]" + NoMatchGap + "'" + title + "'";
    assert NoMatchReason(id, title) == "[" + id + rest;
    IdCloses(NoMatchReason(id, title), id, rest);
  }

  lemma NoMatchTail(id: string, title: string)
    ensures var line := NoMatchReason(id, title);
      var j := |id| + 1;
      var p := j + |NoMatchGap| + 1;
      && j + 2 <= p && p + |title| + 2 == |line| && '\n' !in line[j + 1..p]
      && IsQuote(line[p]) && IsQuote(line[|line| - 1]) && line[p + 1..|line| - 1] == title
  {
    var line := NoMatchReason(id, title);
    var j := |id| + 1;
    var p := j + |NoMatchGap| + 1;
    assert line == "[" + id + "]" + NoMatchGap + "'" + title + "'";
    assert line[j + 1..p] == NoMatchGap;
    assert forall k :: 0 <= k < |NoMatchGap| ==> NoMatchGap[k] != '\n';
    assert line[p] == '\'' && line[|line| - 1] == '\'';
    assert line[p + 1..|line| - 1] == title;
  }

  /** The match is decided by where the id closes, the opening quote and
      the closing quote. */
  lemma MatchLineIs(line: string, j: nat, p: nat, q: nat)
    requires |line| > 0 && line[0] == '[' && 2 <= j
    requires FindChar(line, ']', 1) == Some(j)
    requires OpeningFrom(line, j, |line| - 2) == Some(p)
    requires FindQuote(line, p + 1) == Some(q)
    ensures MatchLine(line) == Some((line[1..j], line[p + 1..q]))
  {
  }

  /** A line ending in a quote, a quote-free title and a quote: the quote
      before the title opens it and the last one closes it. */
  lemma QuotedTail(line: string, j: nat, p: nat, title: string)
    requires j + 2 <= p && p + |title| + 2 == |line| && '\n' !in line[j + 1..p]
    requires IsQuote(line[p]) && IsQuote(line[|line| - 1])
    requires line[p + 1..|line| - 1] == title && title != [] && NoQuotes(title)
    ensures OpeningFrom(line, j, |line| - 2) == Some(p)
    ensures FindQuote(line, p + 1) == Some(|line| - 1)
  {
    ClosingQuote(line, p + 1, title);
    assert line[p + 1] == title[0];
    assert IsOpening(line, j, p);
    forall q | p < q <= |line| - 2 ensures !IsOpening(line, j, q) {
      assert line[q] == title[q - p - 1];
    }
    OpeningIsUnique(line, j, p, |line| - 2);
  }

  /** A "No match" line reads back as the id and title it was written with. */
  lemma NoMatchRoundTrip(id: string, title: string)
    requires id != [] && IsStripped(id) && ']' !in id
    requires title != [] && IsStripped(title) && NoQuotes(title)
    ensures ParseLine(NoMatchReason(id, title)) == Flag(id, Some(title))
  {
    NoMatchMatches(id, title);
    StripStripped(id);
    StripStripped(title);
  }

  /** The rightmost opening is `p` when `p` is one and none lies between it
      and `hi`. */
  lemma OpeningIsUnique(line: string, j: nat, p: nat, hi: int)
    requires p <= hi && IsOpening(line, j, p)
    requires forall q :: p < q <= hi ==> !IsOpening(line, j, q)
    ensures OpeningFrom(line, j, hi) == Some(p)
  {
  }

  /** A "Missing title" line has no quoted run: it reads back as its id
      with no title. */
  lemma MissingTitleRoundTrip(id: string)
    requires id != [] && IsStripped(id) && ']' !in id
    ensures ParseLine(MissingTitleReason(id)) == Flag(id, None)
  {
    var line := MissingTitleReason(id);
    MissingTitleNoMatch(id);
    var rest := "] Missing title in .bib";
    assert line == "[" + id + rest;
    IdCloses(line, id, rest);
    assert line[0] == '[' && line[1] == id[0];
    StripStripped(id);
  }

  /** No quote follows the id of a "Missing title" line, so the pattern
      does not match it. */
  lemma MissingTitleNoMatch(id: string)
    requires id != [] && ']' !in id
    ensures MatchLine(MissingTitleReason(id)).None?
  {
    var line := MissingTitleReason(id);
    var rest := "] Missing title in .bib";
    assert line == "[" + id + rest;
    IdCloses(line, id, rest);
    var j := |id| + 1;
    assert line[j..] == rest;
    MissingTitleTailQuoteFree();
    forall q | 0 <= q <= |line| - 2 ensures !IsOpening(line, j, q) {
      if j + 2 <= q {
        assert line[q] == rest[q - j] && rest[q - j] in rest;
      }
    }
  }

  lemma MissingTitleTailQuoteFree()
    ensures '\'' !in "] Missing title in .bib" && '"' !in "] Missing title in .bib"
  {
  }

  /** With an empty id, the "Missing title" line yields "UNKNOWN". */
  lemma MissingTitleEmptyId()
    ensures ParseLine(MissingTitleReason("")) == Flag("UNKNOWN", None)
  {
    var line := MissingTitleReason("");
    assert line == "[] Missing title in .bib";
    assert FindChar(line, ']', 1) == Some(1);
    assert MatchLine(line).None?;
    assert forall i :: 1 <= i < |line| ==> line[i] != '[';
    NoBracketAfter(line, 1);
  }

  lemma {:induction false} NoBracketAfter(line: string, i: nat)
    requires forall k :: i <= k < |line| ==> line[k] != '['
    ensures BracketFrom(line, i).None?
    decreases |line| - i
  {
    if i + 1 < |line| {
      NoBracketAfter(line, i + 1);
    }
  }

  /** What one line of the file contributes: nothing when it is blank,
      otherwise the parse of the stripped line. */
  function LineFlags(line: string): (r: seq<Flag>)
    ensures |r| <= 1
    ensures r == [] <==> IsBlank(line)
  {
    var stripped := Strip(line);
    if stripped == [] then [] else [ParseLine(stripped)]
  }

  /** The results of `load_flagged_references`, blank lines skipped, in
      file order. */
  function LoadFlagged(lines: seq<string>): seq<Flag>
  {
    FlatMap(LineFlags, lines)
  }

  /** Lines that are all non-blank give one flag each, in order. */
  lemma LoadFlaggedNonBlank(lines: seq<string>)
    requires forall l :: l in lines ==> !IsBlank(l)
    ensures |LoadFlagged(lines)| == |lines|
    ensures forall i :: 0 <= i < |lines| ==> LoadFlagged(lines)[i] == ParseLine(Strip(lines[i]))
  {
    FlatMapSingletons(LineFlags, lines);
  }

  /** Blank lines contribute nothing. */
  lemma {:induction false} LoadFlaggedSkipsBlank(lines: seq<string>, blank: string)
    requires IsBlank(blank)
    ensures LoadFlagged(lines + [blank]) == LoadFlagged(lines)
  {
    FlatMapSnoc(LineFlags, lines, blank);
  }

  /** The loop of `load_flagged_references` over the lines of the file. */
  method LoadFlaggedReferences(lines: seq<string>) returns (flaggedEntries: seq<Flag>)
    ensures flaggedEntries == LoadFlagged(lines)
  {
    flaggedEntries := [];
    for k := 0 to |lines|
      invariant flaggedEntries == LoadFlagged(lines[..k])
    {
      LoadFlaggedStep(lines, k);
      var line := Strip(lines[k]);
      if line == [] {
        continue;
      }
      flaggedEntries := flaggedEntries + [ParseLine(line)];
    }
    assert lines[..|lines|] == lines;
  }

  lemma LoadFlaggedStep(lines: seq<string>, k: nat)
    requires k < |lines|
    ensures LoadFlagged(lines[..k + 1]) == LoadFlagged(lines[..k]) + LineFlags(lines[k])
  {
    FlatMapStep(LineFlags, lines, k);
  }

  /** `for reason in ...: fout.write(f"{reason}\n")` */
  function WrittenFile(reasons: seq<string>): string
  {
    FlatMap(WithNewline, reasons)
  }

  function WithNewline(reason: string): string {
    reason + "\n"
  }

  /** A line without a newline, then a newline, splits off as the first
      piece. */
  lemma SplitLine(r: string, rest: string)
    requires '\n' !in r
    ensures Split(r + "\n" + rest, "\n") == [r] + Split(rest, "\n")
  {
    var file := r + "\n" + rest;
    assert OccursAt(file, "\n", |r|);
    forall i: nat | i < |r| ensures !OccursAt(file, "\n", i) {
      assert file[i] == r[i];
      assert file[i..i + 1] == [file[i]];
    }
    assert IndexOf(file, "\n") == Some(|r|);
    assert file[..|r|] == r;
    assert file[|r| + 1..] == rest;
  }

  /** Iterating the lines of the written file gives back every reason, and
      then the empty text after the last newline. */
  lemma {:induction false} SplitWrittenFile(reasons: seq<string>)
    requires forall r :: r in reasons ==> '\n' !in r
    ensures Split(WrittenFile(reasons), "\n") == reasons + [[]]
  {
    var file := WrittenFile(reasons);
    if reasons == [] {
      assert IndexOf(file, "\n").None?;
    } else {
      var r := reasons[0];
      var rest := WrittenFile(reasons[1..]);
      assert file == r + "\n" + rest;
      assert r in reasons;
      SplitLine(r, rest);
      SplitWrittenFile(reasons[1..]);
      assert reasons == [r] + reasons[1..];
    }
  }
}
