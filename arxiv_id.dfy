/** Finding the arXiv identifier of a BibTeX entry (`parse_arxiv_id_from_text`
    and the detection step of `main` in check_semantic.py and bs_check.py,
    which are the same in both scripts).

    The two regular expressions `arxiv\.org/abs/([\w\.\-v]+)` and
    `arxiv\s*:\s*([\w\.\-v]+)`, searched case-insensitively, are written out
    as scans: `re.search` reports the match that starts leftmost, and the
    greedy identifier run takes every identifier character that follows. */
module ArxivId {
  import opened Text

  /** `[\w\.\-v]`, for ASCII text: a letter, a digit, '_', '.' or '-'. */
  predicate IsIdChar(c: char) {
    ('a' <= c <= 'z') || ('A' <= c <= 'Z') || ('0' <= c <= '9') || c == '_' || c == '.' || c == '-'
  }

  /** The end of the longest run of characters satisfying `IsIdChar` that
      starts at `j`. */
  function IdRunEnd(s: string, j: nat): (k: nat)
    requires j <= |s|
    ensures j <= k <= |s|
    decreases |s| - j
  {
    if j < |s| && IsIdChar(s[j]) then IdRunEnd(s, j + 1) else j
  }

  /** The run is made of identifier characters and cannot be extended. */
  lemma {:induction false} IdRunEndMeaning(s: string, j: nat)
    requires j <= |s|
    ensures forall i :: j <= i < IdRunEnd(s, j) ==> IsIdChar(s[i])
    ensures IdRunEnd(s, j) == |s| || !IsIdChar(s[IdRunEnd(s, j)])
    decreases |s| - j
  {
    if j < |s| && IsIdChar(s[j]) {
      IdRunEndMeaning(s, j + 1);
    }
  }

  /** The end of the longest run of whitespace that starts at `j`: `\s*`. */
  function SpaceRunEnd(s: string, j: nat): (k: nat)
    requires j <= |s|
    ensures j <= k <= |s|
    decreases |s| - j
  {
    if j < |s| && IsSpace(s[j]) then SpaceRunEnd(s, j + 1) else j
  }

  /** The two patterns, in the order they are tried. */
  datatype Pattern = AbsUrl | Colon

  const AbsPrefix: string := "arxiv.org/abs/"
  const ArxivWord: string := "arxiv"

  /** The case-insensitive literal `lit` (lower-case) starts at `i`. */
  predicate LiteralAt(s: string, lit: string, i: nat) {
    i + |lit| <= |s| && Lower(s[i..i + |lit|]) == lit
  }

  /** The identifier (group 1) of a match of the pattern starting at `i`,
      if one starts there. */
  function MatchAt(p: Pattern, s: string, i: nat): Option<string> {
    match p
    case AbsUrl =>
      if LiteralAt(s, AbsPrefix, i) then
        var k := IdRunEnd(s, i + |AbsPrefix|);
        if k > i + |AbsPrefix| then Some(s[i + |AbsPrefix|..k]) else None
      else None
    case Colon =>
      if LiteralAt(s, ArxivWord, i) then
        var a := SpaceRunEnd(s, i + |ArxivWord|);
        if a < |s| && s[a] == ':' then
          var b := SpaceRunEnd(s, a + 1);
          var k := IdRunEnd(s, b);
          if k > b then Some(s[b..k]) else None
        else None
      else None
  }

  /** `re.search`: the match that starts leftmost, at `i` or later. */
  function SearchFrom(p: Pattern, s: string, i: nat): Option<string>
    decreases |s| + 1 - i
  {
    if i > |s| then None
    else if MatchAt(p, s, i).Some? then MatchAt(p, s, i)
    else SearchFrom(p, s, i + 1)
  }

  /** The search finds something exactly when some position from `i` on
      matches, and then reports the leftmost such match. */
  lemma SearchFromMeaning(p: Pattern, s: string, i: nat)
    ensures SearchFrom(p, s, i).Some? <==> exists j :: i <= j <= |s| && MatchAt(p, s, j).Some?
    ensures SearchFrom(p, s, i).Some? ==> exists j :: (i <= j <= |s| && MatchAt(p, s, j) == SearchFrom(p, s, i) &&
      forall k :: i <= k < j ==> MatchAt(p, s, k).None?)
  {
    SearchNone(p, s, i);
    if SearchFrom(p, s, i).Some? {
      var j := SearchLeftmost(p, s, i);
    }
  }

  /** Nothing is found exactly when no position from `i` on matches. */
  lemma {:induction false} SearchNone(p: Pattern, s: string, i: nat)
    ensures SearchFrom(p, s, i).None? <==> forall j :: i <= j <= |s| ==> MatchAt(p, s, j).None?
    decreases |s| + 1 - i
  {
    if i <= |s| && MatchAt(p, s, i).None? {
      SearchNone(p, s, i + 1);
    }
  }

  /** The position of the match found, with no match before it. */
  lemma {:induction false} SearchLeftmost(p: Pattern, s: string, i: nat) returns (j: nat)
    requires SearchFrom(p, s, i).Some?
    ensures i <= j <= |s| && MatchAt(p, s, j) == SearchFrom(p, s, i)
    ensures forall k :: i <= k < j ==> MatchAt(p, s, k).None?
    decreases |s| + 1 - i
  {
    if MatchAt(p, s, i).Some? {
      j := i;
    } else {
      j := SearchLeftmost(p, s, i + 1);
    }
  }

  /** `parse_arxiv_id_from_text` */
  function ParseArxivIdFromText(value: string): Option<string> {
    var byUrl := SearchFrom(AbsUrl, value, 0);
    if byUrl.Some? then byUrl else SearchFrom(Colon, value, 0)
  }

  /** No identifier exactly when neither pattern matches anywhere. */
  lemma ParseNoneIff(value: string)
    ensures ParseArxivIdFromText(value).None? <==>
      forall j :: 0 <= j <= |value| ==> MatchAt(AbsUrl, value, j).None? && MatchAt(Colon, value, j).None?
  {
    SearchFromMeaning(AbsUrl, value, 0);
    SearchFromMeaning(Colon, value, 0);
  }

  /** `id` sits in `s` at `b` as a whole run of identifier characters. */
  predicate MaximalRunAt(s: string, id: string, b: nat) {
    b + |id| <= |s| && s[b..b + |id|] == id && (b + |id| == |s| || !IsIdChar(s[b + |id|]))
  }

  /** An identifier found is non-empty, made of identifier characters only,
      and the longest such run at its place in the text. */
  lemma ParseShape(value: string)
    requires ParseArxivIdFromText(value).Some?
    ensures var id := ParseArxivIdFromText(value).value;
      && id != [] && (forall c :: c in id ==> IsIdChar(c))
      && exists b: nat :: MaximalRunAt(value, id, b)
  {
    var byUrl := SearchFrom(AbsUrl, value, 0);
    SearchFromMeaning(AbsUrl, value, 0);
    SearchFromMeaning(Colon, value, 0);
    if byUrl.Some? {
      var j :| 0 <= j <= |value| && MatchAt(AbsUrl, value, j) == byUrl;
      MatchShape(AbsUrl, value, j);
    } else {
      var byColon := SearchFrom(Colon, value, 0);
      var j :| 0 <= j <= |value| && MatchAt(Colon, value, j) == byColon;
      MatchShape(Colon, value, j);
    }
  }

  /** A match is a maximal run of identifier characters in the text. */
  lemma MatchShape(p: Pattern, s: string, i: nat)
    requires MatchAt(p, s, i).Some?
    ensures MatchAt(p, s, i).value != [] && forall c :: c in MatchAt(p, s, i).value ==> IsIdChar(c)
    ensures exists b: nat :: MaximalRunAt(s, MatchAt(p, s, i).value, b)
  {
    match p
    case AbsUrl =>
      RunShape(s, i + |AbsPrefix|);
    case Colon =>
      var a := SpaceRunEnd(s, i + |ArxivWord|);
      RunShape(s, SpaceRunEnd(s, a + 1));
  }

  /** The run of identifier characters starting at `b`, when non-empty, is
      maximal there. */
  lemma RunShape(s: string, b: nat)
    requires b <= |s|
    ensures var id := s[b..IdRunEnd(s, b)];
      && (forall c :: c in id ==> IsIdChar(c))
      && MaximalRunAt(s, id, b)
  {
    var k := IdRunEnd(s, b);
    IdRunEndMeaning(s, b);
    var id := s[b..k];
    forall c | c in id ensures IsIdChar(c) {
      var n :| 0 <= n < |id| && id[n] == c;
      assert c == s[b + n];
    }
  }

  /** The URL form wins whenever it occurs, even after an `arXiv:` form,
      and then gives the identifier of its leftmost occurrence. */
  lemma UrlFormFirst(value: string, j: nat)
    requires j <= |value| && MatchAt(AbsUrl, value, j).Some?
    ensures ParseArxivIdFromText(value) == SearchFrom(AbsUrl, value, 0)
    ensures exists i :: (0 <= i <= j && ParseArxivIdFromText(value) == MatchAt(AbsUrl, value, i) &&
      forall k :: 0 <= k < i ==> MatchAt(AbsUrl, value, k).None?)
  {
    SearchFromMeaning(AbsUrl, value, 0);
  }

  /** The literals are matched without regard to case: a text and its
      lower-cased form have the same occurrences. */
  lemma LiteralIgnoresCase(s: string, lit: string, i: nat)
    requires i + |lit| <= |s|
    ensures LiteralAt(s, lit, i) <==> LiteralAt(Lower(s), lit, i)
  {
    assert Lower(s)[i..i + |lit|] == Lower(s[i..i + |lit|]);
    LowerIdempotent(s[i..i + |lit|]);
  }

  // ---------------------------------------------------------------------
  // The detection step of `main`

  /** `archiveprefix.lower() == 'arxiv' and eprint_val` */
  predicate HasEprint(entry: Entry) {
    Lower(Get(entry, "archiveprefix", "")) == ArxivWord && Get(entry, "eprint", "") != []
  }

  /** The fields scanned when there is no eprint, in order. */
  function ScannedFields(entry: Entry): seq<string> {
    [Get(entry, "booktitle", ""), Get(entry, "url", ""), Get(entry, "title", "")]
  }

  /** The first present value from index `i` on. */
  function FirstSome(results: seq<Option<string>>, i: nat): Option<string>
    requires i <= |results|
    decreases |results| - i
  {
    if i == |results| then None
    else if results[i].Some? then results[i]
    else FirstSome(results, i + 1)
  }

  /** What each scanned field yields, in order. */
  function ScanResults(entry: Entry): seq<Option<string>> {
    var fields := ScannedFields(entry);
    [ParseArxivIdFromText(fields[0]), ParseArxivIdFromText(fields[1]), ParseArxivIdFromText(fields[2])]
  }

  /** The arXiv identifier `main` goes on with, if any. */
  function DetectedId(entry: Entry): Option<string> {
    if HasEprint(entry) then Some(entry["eprint"]) else FirstSome(ScanResults(entry), 0)
  }

  /** Lines 159-171 of check_semantic.py (96-114 of bs_check.py): the eprint
      verbatim, or a scan of booktitle, url and title that stops at the
      first identifier. */
  method DetectArxivId(entry: Entry) returns (arxivId: Option<string>)
    ensures arxivId == DetectedId(entry)
  {
    var archiveprefix := Get(entry, "archiveprefix", "");
    var eprintVal := Get(entry, "eprint", "");
    if Lower(archiveprefix) == ArxivWord && eprintVal != [] {
      return Some(eprintVal);
    }
    arxivId := None;
    var fields := ScannedFields(entry);
    ghost var results := ScanResults(entry);
    var i := 0;
    while i < |fields|
      invariant i <= |fields| == |results|
      invariant FirstSome(results, 0) == FirstSome(results, i)
    {
      var possibleId := ParseArxivIdFromText(fields[i]);
      assert possibleId == results[i];
      if possibleId.Some? {
        arxivId := possibleId;
        break;
      }
      i := i + 1;
    }
  }

  /** A usable eprint pair is taken verbatim and the text fields are not
      consulted; otherwise the identifier is the one of the first of
      booktitle, url and title that has one. */
  lemma DetectedIdPrecedence(entry: Entry)
    ensures HasEprint(entry) ==> DetectedId(entry) == Some(entry["eprint"])
    ensures !HasEprint(entry) ==>
      (DetectedId(entry).None? <==> forall k :: 0 <= k < 3 ==> ScanResults(entry)[k].None?)
    ensures !HasEprint(entry) && DetectedId(entry).Some? ==>
      exists i :: (0 <= i < 3 && DetectedId(entry) == ScanResults(entry)[i] &&
        forall k :: 0 <= k < i ==> ScanResults(entry)[k].None?)
  {
    if !HasEprint(entry) {
      FirstSomeMeaning(ScanResults(entry), 0);
    }
  }

  /** The first value present decides. */
  lemma {:induction false} FirstSomeMeaning(results: seq<Option<string>>, i: nat)
    requires i <= |results|
    ensures FirstSome(results, i).None? <==> forall k :: i <= k < |results| ==> results[k].None?
    ensures FirstSome(results, i).Some? ==>
      exists j :: (i <= j < |results| && FirstSome(results, i) == results[j] &&
        forall k :: i <= k < j ==> results[k].None?)
    decreases |results| - i
  {
    if i < |results| {
      FirstSomeMeaning(results, i + 1);
    }
  }
}
