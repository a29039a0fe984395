/** Fuzzy title and author matching (crossref_arxiv.py lines 36-121, the
    `approximate_ratio` helpers of cvf_openreview.py and final_filter.py,
    and `similarity` of check_semantic.py).

    `difflib.SequenceMatcher` is not modelled: its total matched-block size
    is a parameter `m`, and its ratio is `2 * m(a, b) / (|a| + |b|)`, or 1
    when both strings are empty. Ratios are exact rationals (`real`). */
module Fuzzy {
  import opened Text

  /** The number of characters `SequenceMatcher(None, a, b)` finds in its
      matching blocks. */
  type Matcher = (string, string) -> nat

  /** TITLE_MATCH_THRESHOLD, AUTHOR_MATCH_THRESHOLD (percent) */
  const TitleThreshold: nat := 75
  const AuthorThreshold: nat := 75
  /** MIN_AUTHOR_OVERLAP_FRAC */
  const MinOverlapFraction: real := 0.6

  /** `fuzzy_ratio(a, b)`: the SequenceMatcher ratio times 100. */
  function Ratio(m: Matcher, a: string, b: string): (r: real)
    ensures r >= 0.0
    ensures |a| + |b| == 0 ==> r == 100.0
    ensures r > 0.0 <==> |a| + |b| == 0 || m(a, b) > 0
  {
    if |a| + |b| == 0 then 100.0 else (200 * m(a, b)) as real / (|a| + |b|) as real
  }

  /** A ratio threshold in percent is a comparison of whole numbers:
      `2M / L * 100 >= t` exactly when `200 M >= t L`. */
  lemma RatioAtLeast(m: Matcher, a: string, b: string, t: nat)
    requires |a| + |b| > 0
    ensures Ratio(m, a, b) >= t as real <==> 200 * m(a, b) >= t * (|a| + |b|)
  {
    var len := (|a| + |b|) as real;
    var r := Ratio(m, a, b);
    assert r * len == (200 * m(a, b)) as real;
    assert (t * (|a| + |b|)) as real == t as real * len;
  }

  /** `approximate_title_match`, in whole numbers: the lower-cased titles
      have ratio 75 or more when `8M >= 3(|a| + |b|)`. */
  function TitleMatches(m: Matcher, bibTitle: string, candidateTitle: string): bool
  {
    |bibTitle| + |candidateTitle| == 0
    || 8 * m(Lower(bibTitle), Lower(candidateTitle)) >= 3 * (|bibTitle| + |candidateTitle|)
  }

  /** The whole-number test is the source's test: the ratio of the
      lower-cased titles, times 100, is at least 75. */
  lemma TitleMatchesIsRatio(m: Matcher, bibTitle: string, candidateTitle: string)
    ensures TitleMatches(m, bibTitle, candidateTitle)
            <==> Ratio(m, Lower(bibTitle), Lower(candidateTitle)) >= TitleThreshold as real
  {
    var a, b := Lower(bibTitle), Lower(candidateTitle);
    if |a| + |b| > 0 {
      RatioAtLeast(m, a, b, TitleThreshold);
    }
  }

  /** The title test only sees lower-cased titles. */
  lemma TitleMatchIgnoresCase(m: Matcher, bibTitle: string, candidateTitle: string)
    ensures TitleMatches(m, bibTitle, candidateTitle) == TitleMatches(m, Lower(bibTitle), Lower(candidateTitle))
  {
    LowerIdempotent(bibTitle);
    LowerIdempotent(candidateTitle);
  }

  /** The last whitespace-separated word of a string that does not end in
      whitespace (`s.split()[-1]` for such a string). */
  function LastWord(s: string): (w: string)
    ensures |w| <= |s| && w == s[|s| - |w|..]
    ensures NoSpace(w)
    ensures |w| < |s| ==> IsSpace(s[|s| - |w| - 1])
  {
    if s == [] || IsSpace(s[|s| - 1]) then [] else LastWord(s[..|s| - 1]) + [s[|s| - 1]]
  }

  /** `parse_last_name`: blank gives ""; "Last, First" gives the stripped
      text before the first comma; "First ... Last" gives the last word;
      always lower-cased. */
  function ParseLastName(author: string): (r: string)
    ensures IsBlank(author) ==> r == []
  {
    var a := Strip(author);
    if a == [] then [] else LastNameOf(Lower(a))
  }

  /** The last name within a stripped, lower-cased, non-empty name. */
  function LastNameOf(lowered: string): string
  {
    match IndexOf(lowered, ",")
    case Some(k) => Strip(lowered[..k])
    case None => LastWord(lowered)
  }

  /** The last name is always lower-case. */
  lemma ParseLastNameLowerCase(author: string)
    ensures NoUpper(ParseLastName(author))
  {
    var a := Strip(author);
    if a != [] {
      LowerIdempotent(a);
      LastNameOfLowerCase(Lower(a));
    }
  }

  lemma LastNameOfLowerCase(lowered: string)
    requires NoUpper(lowered)
    ensures NoUpper(LastNameOf(lowered))
  {
    match IndexOf(lowered, ",")
    case Some(k) =>
      NoUpperSlice(lowered, 0, k);
      StripSlice(lowered[..k]);
      NoUpperSlice(lowered[..k], StripBounds(lowered[..k]).0, StripBounds(lowered[..k]).1);
    case None =>
      NoUpperSlice(lowered, |lowered| - |LastWord(lowered)|, |lowered|);
  }

  lemma NoUpperSlice(s: string, i: nat, j: nat)
    requires NoUpper(s) && i <= j <= |s|
    ensures NoUpper(s[i..j])
  {
    assert forall k :: i <= k < j ==> s[i..j][k - i] == s[k];
  }

  /** Where `strip()` cuts a string. */
  function StripBounds(s: string): (ij: (int, int))
    ensures 0 <= ij.0 <= ij.1 <= |s|
  {
    var l := StripLeft(s);
    (|s| - |l|, |s| - |l| + |StripRight(l)|)
  }

  lemma StripSlice(s: string)
    ensures Strip(s) == s[StripBounds(s).0..StripBounds(s).1]
  {
    var l := StripLeft(s);
    assert l == s[|s| - |l|..];
  }

  /** With a comma the last name is the stripped text before the first
      comma of the stripped, lower-cased name; it is comma-free. */
  lemma ParseLastNameInverted(author: string)
    requires ',' in author
    ensures ',' in Lower(Strip(author))
    ensures var a := Lower(Strip(author));
      forall k :: 0 <= k < |a| && a[k] == ',' && ',' !in a[..k] ==> ParseLastName(author) == Strip(a[..k])
    ensures ',' !in ParseLastName(author) && IsStripped(ParseLastName(author))
  {
    var a := Strip(author);
    StripKeepsNonSpace(author, ',');
    LowerKeepsComma(a);
    LastNameOfComma(Lower(a));
    forall k | 0 <= k < |Lower(a)| && Lower(a)[k] == ',' && ',' !in Lower(a)[..k]
      ensures ParseLastName(author) == Strip(Lower(a)[..k])
    {
      FirstComma(Lower(a), k);
    }
  }

  /** The first comma of `s` is where `find` stops. */
  lemma FirstComma(s: string, k: nat)
    requires k < |s| && s[k] == ',' && ',' !in s[..k]
    ensures IndexOf(s, ",") == Some(k)
  {
    assert OccursAt(s, ",", k);
    assert forall i :: 0 <= i < k ==> s[..k][i] == s[i];
  }

  lemma LastNameOfComma(lowered: string)
    requires ',' in lowered
    ensures ',' !in LastNameOf(lowered) && IsStripped(LastNameOf(lowered))
  {
    var i :| 0 <= i < |lowered| && lowered[i] == ',';
    assert OccursAt(lowered, ",", i);
    var k := IndexOf(lowered, ",").value;
    assert ',' !in lowered[..k] by {
      forall j | 0 <= j < k ensures lowered[j] != ',' {
        assert !OccursAt(lowered, ",", j);
      }
    }
    StripIsInfix(lowered[..k]);
  }

  /** Without a comma, the last name is the last word of the lower-cased,
      stripped name. */
  lemma ParseLastNameNoComma(author: string)
    requires !IsBlank(author) && ',' !in author
    ensures ParseLastName(author) == LastWord(Lower(Strip(author)))
  {
    var a := Strip(author);
    StripKeepsNonSpace(author, ',');
    LowerKeepsComma(a);
    NoCommaNotContains(Lower(a));
  }

  lemma NoCommaNotContains(s: string)
    requires ',' !in s
    ensures !Contains(s, ",")
  {
    forall i: nat | i <= |s| ensures !OccursAt(s, ",", i) {
      if i < |s| {
        assert s[i] != ',';
      }
    }
  }

  /** Without a comma, the last name of a non-blank name is a non-empty
      suffix of the lower-cased, stripped name with no whitespace. */
  lemma ParseLastNamePlain(author: string)
    requires !IsBlank(author) && ',' !in author
    ensures var r := ParseLastName(author);
      && r != [] && NoSpace(r)
      && r == Lower(Strip(author))[|Strip(author)| - |r|..]
  {
    ParseLastNameNoComma(author);
    var t := Strip(author);
    LowerKeepsSpace(t, |t| - 1);
    LastWordNonEmpty(Lower(t));
  }

  lemma LastWordNonEmpty(s: string)
    requires s != [] && !IsSpace(s[|s| - 1])
    ensures LastWord(s) != []
  {
  }

  lemma StripKeepsNonSpace(s: string, c: char)
    requires !IsSpace(c)
    ensures c in Strip(s) <==> c in s
  {
    var l := StripLeft(s);
    assert c in l <==> c in s;
  }

  lemma LowerKeepsComma(s: string)
    ensures ',' in Lower(s) <==> ',' in s
  {
    if ',' in s {
      var i :| 0 <= i < |s| && s[i] == ',';
      assert Lower(s)[i] == ',';
    }
  }

  /** A "Last, First" name gives back its (lower-cased) last name. */
  lemma {:induction false} LastNameOfInvertedName(last: string, first: string)
    requires IsStripped(last) && ',' !in last
    ensures ParseLastName(last + ", " + first) == Lower(last)
  {
    var author := last + ", " + first;
    assert author[..|last| + 1] == last + ",";
    StripKeepsPrefix(author, |last| + 1);
    CommaAfterLast(Strip(author), last);
    StripStripped(last);
    LowerStripCommute(last);
  }

  /** Once lower-cased, a text that starts with a comma-free `last` and a
      comma has its first comma right after `last`. */
  lemma CommaAfterLast(a: string, last: string)
    requires |last| < |a| && a[..|last| + 1] == last + "," && ',' !in last
    ensures IndexOf(Lower(a), ",") == Some(|last|)
    ensures Lower(a)[..|last|] == Lower(last)
  {
    var lowered := Lower(a);
    assert a[|last|] == ',';
    assert OccursAt(lowered, ",", |last|);
    forall i: nat | i < |last| ensures !OccursAt(lowered, ",", i) {
      assert a[i] == last[i];
      assert lowered[i..i + 1] == [lowered[i]];
    }
    assert forall i :: 0 <= i < |last| ==> a[i] == last[i];
  }

  /** A stripped string that starts with `n` characters, the first of them not
      whitespace and a later one not whitespace, keeps them when stripped. */
  lemma StripKeepsPrefix(s: string, n: nat)
    requires 0 < n <= |s| && !IsSpace(s[0]) && !IsSpace(s[n - 1])
    ensures |Strip(s)| >= n && Strip(s)[..n] == s[..n]
  {
    assert StripLeft(s) == s;
  }

  /** A "First Last" name gives back its (lower-cased) last word. */
  lemma LastNameOfPlainName(first: string, last: string)
    requires last != [] && NoSpace(last)
    requires ',' !in first && ',' !in last
    ensures ParseLastName(first + " " + last) == Lower(last)
  {
    var author := first + " " + last;
    assert author[|author| - (|last| + 1)] == ' ';
    assert author[|author| - |last|..] == last;
    assert ',' !in author;
    assert !IsBlank(author) by {
      StripKeepsWord(author, last);
    }
    ParseLastNameNoComma(author);
    LastWordOfStripped(author, last);
  }

  /** Lower-casing and stripping a text that ends in whitespace and then a
      word leaves that word, lower-cased, as the last word. */
  lemma LastWordOfStripped(s: string, w: string)
    requires w != [] && |w| < |s| && s[|s| - |w|..] == w && s[|s| - |w| - 1] == ' '
    requires NoSpace(w)
    ensures LastWord(Lower(Strip(s))) == Lower(w)
  {
    StripKeepsWord(s, w);
    LastWordOfLowered(Strip(s), w);
  }

  lemma LastWordOfLowered(t: string, w: string)
    requires EndsInWord(t, w) && NoSpace(w)
    ensures LastWord(Lower(t)) == Lower(w)
  {
    LowerSuffix(t, w);
    if |w| < |t| {
      LowerKeepsSpace(t, |t| - |w| - 1);
    }
    LowerKeepsNoSpace(w);
    LastWordOfSuffix(Lower(t), Lower(w));
  }

  lemma StripIsInfix(s: string)
    ensures forall c :: c in Strip(s) ==> c in s
  {
    var l := StripLeft(s);
    assert forall c :: c in l ==> c in s;
  }

  /** The last word of `s` is `w` when `s` is `w` or ends in whitespace
      followed by `w`. */
  lemma {:induction false} LastWordOfSuffix(s: string, w: string)
    requires |w| <= |s| && s[|s| - |w|..] == w
    requires |w| < |s| ==> IsSpace(s[|s| - |w| - 1])
    requires NoSpace(w)
    ensures LastWord(s) == w
    decreases |w|
  {
    if w != [] {
      var s' := s[..|s| - 1];
      assert s'[|s'| - |w[..|w| - 1]|..] == w[..|w| - 1];
      LastWordOfSuffix(s', w[..|w| - 1]);
      assert s[|s| - 1] == w[|w| - 1];
    }
  }

  /** `[parse_last_name(x) for x in authors if x.strip()]` */
  function LastNames(authors: seq<string>): (r: seq<string>)
    ensures |r| <= |authors|
    ensures r == [] <==> forall a :: a in authors ==> IsBlank(a)
  {
    if authors == [] then []
    else (if IsBlank(authors[0]) then [] else [ParseLastName(authors[0])]) + LastNames(authors[1..])
  }

  /** The best candidate seen so far while scanning for one name: its score
      and its index, -1 while none has scored above 0. */
  datatype Pick = Pick(score: real, index: int)

  /** The inner loop of `authors_overlap_fuzzy` after looking at
      `found[..n]`: unused indices only, and a strictly higher score
      replaces the pick. */
  function BestPick(m: Matcher, name: string, found: seq<string>, used: set<int>, n: nat): Pick
    requires n <= |found|
  {
    if n == 0 then Pick(0.0, -1)
    else
      var p := BestPick(m, name, found, used, n - 1);
      if n - 1 in used then p
      else
        var score := Ratio(m, name, found[n - 1]);
        if score > p.score then Pick(score, n - 1) else p
  }

  /** The pick is the lowest-index unused candidate with the highest score,
      and only a score above 0 is ever picked. */
  lemma {:induction false} BestPickIsFirstMaximum(m: Matcher, name: string, found: seq<string>, used: set<int>, n: nat)
    requires n <= |found|
    ensures var p := BestPick(m, name, found, used, n);
      && (p.index == -1 <==> p.score == 0.0)
      && (p.index == -1 ==> forall j :: 0 <= j < n && j !in used ==> Ratio(m, name, found[j]) == 0.0)
      && (p.index != -1 ==>
            && 0 <= p.index < n && p.index !in used
            && p.score == Ratio(m, name, found[p.index])
            && (forall j :: 0 <= j < n && j !in used ==> Ratio(m, name, found[j]) <= p.score)
            && (forall j :: 0 <= j < p.index && j !in used ==> Ratio(m, name, found[j]) < p.score))
  {
    if n > 0 {
      BestPickIsFirstMaximum(m, name, found, used, n - 1);
    }
  }

  /** The outcome of the outer loop: the matched count and the candidate
      indices consumed. */
  datatype Assignment = Assignment(matched: nat, used: set<int>)

  /** One round of the outer loop of `authors_overlap_fuzzy`: the name takes
      its best unused candidate when that scores 75 or more. */
  function Extend(m: Matcher, a: Assignment, name: string, found: seq<string>): Assignment
  {
    var p := BestPick(m, name, found, a.used, |found|);
    if p.score >= AuthorThreshold as real then Assignment(a.matched + 1, a.used + {p.index})
    else a
  }

  /** Greedy one-to-one assignment of the bibliography names, in order. */
  function Greedy(m: Matcher, bib: seq<string>, found: seq<string>): Assignment
  {
    if bib == [] then Assignment(0, {})
    else Extend(m, Greedy(m, bib[..|bib| - 1], found), bib[|bib| - 1], found)
  }

  /** Every candidate index is consumed at most once, so the matched count is
      at most the number of names on either side. */
  lemma {:induction false} GreedyConsumesOnce(m: Matcher, bib: seq<string>, found: seq<string>)
    ensures var a := Greedy(m, bib, found);
      && a.matched == |a.used|
      && (forall j :: j in a.used ==> 0 <= j < |found|)
      && a.matched <= |bib| && a.matched <= |found|
  {
    if bib != [] {
      var prev := bib[..|bib| - 1];
      GreedyConsumesOnce(m, prev, found);
      var a := Greedy(m, prev, found);
      BestPickIsFirstMaximum(m, bib[|bib| - 1], found, a.used, |found|);
    }
    var a := Greedy(m, bib, found);
    BoundedSetSize(a.used, |found|);
  }

  lemma {:induction false} BoundedSetSize(s: set<int>, n: nat)
    requires forall j :: j in s ==> 0 <= j < n
    ensures |s| <= n
  {
    if n > 0 {
      BoundedSetSize(s - {n - 1}, n - 1);
    } else {
      assert forall j :: j !in s;
      assert s == {};
    }
  }

  /** `matched / total >= 0.6` in whole numbers. */
  lemma FractionAtLeast(matched: nat, total: nat)
    requires total > 0
    ensures (matched as real) / (total as real) >= MinOverlapFraction <==> 5 * matched >= 3 * total
  {
    var q := (matched as real) / (total as real);
    assert q * (total as real) == matched as real;
    assert (5 * matched) as real == 5.0 * q * (total as real);
  }

  /** `authors_overlap_fuzzy`: true when the bibliography lists no non-blank
      author, otherwise when at least 3 in 5 of its last names are matched. */
  function AuthorsOverlap(m: Matcher, bibAuthors: seq<string>, foundAuthors: seq<string>): (ok: bool)
    ensures (forall a :: a in bibAuthors ==> IsBlank(a)) ==> ok
  {
    var bibLast := LastNames(bibAuthors);
    bibLast == [] || 5 * Greedy(m, bibLast, LastNames(foundAuthors)).matched >= 3 * |bibLast|
  }

  /** The whole-number test is the fraction test of the source:
      matched / total >= 0.6. */
  lemma AuthorsOverlapIsFraction(m: Matcher, bibAuthors: seq<string>, foundAuthors: seq<string>)
    ensures var bibLast := LastNames(bibAuthors);
      bibLast != [] ==>
        (AuthorsOverlap(m, bibAuthors, foundAuthors)
         <==> (Greedy(m, bibLast, LastNames(foundAuthors)).matched as real) / (|bibLast| as real) >= MinOverlapFraction)
  {
    var bibLast := LastNames(bibAuthors);
    if bibLast != [] {
      FractionAtLeast(Greedy(m, bibLast, LastNames(foundAuthors)).matched, |bibLast|);
    }
  }

  /** The inner loop of `authors_overlap_fuzzy`: scan the unused candidates,
      keeping the first one with the strictly highest score. */
  method BestUnused(m: Matcher, bln: string, foundLast: seq<string>, usedFoundIdx: set<int>)
    returns (bestScore: real, bestIdx: int)
    ensures Pick(bestScore, bestIdx) == BestPick(m, bln, foundLast, usedFoundIdx, |foundLast|)
  {
    bestScore := 0.0;
    bestIdx := -1;
    for i := 0 to |foundLast|
      invariant BestPick(m, bln, foundLast, usedFoundIdx, i) == Pick(bestScore, bestIdx)
    {
      if i in usedFoundIdx {
        continue;
      }
      var score := Ratio(m, bln, foundLast[i]);
      if score > bestScore {
        bestScore := score;
        bestIdx := i;
      }
    }
  }

  /** The outer loop of `authors_overlap_fuzzy`, with `matched_count` and
      `used_found_idx` as local state. */
  method MatchNames(m: Matcher, bibLast: seq<string>, foundLast: seq<string>)
    returns (matchedCount: nat, usedFoundIdx: set<int>)
    ensures Assignment(matchedCount, usedFoundIdx) == Greedy(m, bibLast, foundLast)
  {
    matchedCount := 0;
    usedFoundIdx := {};
    for k := 0 to |bibLast|
      invariant Greedy(m, bibLast[..k], foundLast) == Assignment(matchedCount, usedFoundIdx)
    {
      var bln := bibLast[k];
      var bestScore, bestIdx := BestUnused(m, bln, foundLast, usedFoundIdx);
      assert bibLast[..k + 1][..k] == bibLast[..k];
      if bestScore >= AuthorThreshold as real {
        matchedCount := matchedCount + 1;
        usedFoundIdx := usedFoundIdx + {bestIdx};
      }
    }
    assert bibLast[..|bibLast|] == bibLast;
  }

  /** `authors_overlap_fuzzy` */
  method AuthorsOverlapFuzzy(m: Matcher, bibAuthors: seq<string>, foundAuthors: seq<string>) returns (ok: bool)
    ensures ok == AuthorsOverlap(m, bibAuthors, foundAuthors)
  {
    var bibLast := LastNames(bibAuthors);
    var foundLast := LastNames(foundAuthors);
    if bibLast == [] {
      return true;
    }
    var matchedCount, usedFoundIdx := MatchNames(m, bibLast, foundLast);
    FractionAtLeast(matchedCount, |bibLast|);
    ok := (matchedCount as real) / (|bibLast| as real) >= MinOverlapFraction;
  }
}
