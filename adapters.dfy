/** The candidate loops of the search adapters. Each web service is an
    oracle: the HTTP request, HTML scraping, Atom XML and JSON decoding are
    not modelled, only what the adapter does with the candidates it gets. */
module Adapters {
  import opened Text
  import opened Fuzzy

  /** What a search request gives back: `Unavailable` stands for a non-200
      status or an exception while fetching or decoding, after which the
      adapter answers false; otherwise the candidates in the service's order. */
  datatype Response<T> = Unavailable | Results(items: seq<T>)

  /** A candidate publication as the crossref/arXiv adapters see it. */
  datatype Candidate = Candidate(title: string, authors: seq<string>)

  /** One entry of a Crossref item's `author` list. */
  datatype NamePart = NamePart(given: string, family: string)

  /** A Crossref item: its `title` list and its `author` list. */
  datatype CrossrefItem = CrossrefItem(titles: seq<string>, authors: seq<NamePart>)

  /** An Atom entry of the arXiv API: the text of its title element, if any,
      and the text of each author's name element, if any. */
  datatype ArxivEntry = ArxivEntry(title: Option<string>, authorNames: seq<Option<string>>)

  /** `(given + " " + family).strip()` for every author, keeping the
      non-empty ones. */
  function CrossrefAuthors(parts: seq<NamePart>): (r: seq<string>)
    ensures |r| <= |parts|
    ensures forall x :: x in r ==> x != [] && IsStripped(x)
  {
    if parts == [] then []
    else
      var full := Strip(parts[0].given + " " + parts[0].family);
      var rest := CrossrefAuthors(parts[1..]);
      if full == [] then rest else [full] + rest
  }

  /** The first title of a Crossref item, or "" when it has none. */
  function CrossrefCandidate(it: CrossrefItem): (c: Candidate)
    ensures it.titles != [] ==> c.title == it.titles[0]
    ensures it.titles == [] ==> c.title == []
    ensures forall x :: x in c.authors ==> x != [] && IsStripped(x)
  {
    Candidate(if it.titles == [] then [] else it.titles[0], CrossrefAuthors(it.authors))
  }

  /** The stripped names of the authors that have a name element. */
  function ArxivAuthors(names: seq<Option<string>>): (r: seq<string>)
    ensures |r| <= |names|
    ensures forall x :: x in r ==> IsStripped(x)
  {
    if names == [] then []
    else
      (if names[0].Some? then [Strip(names[0].value)] else []) + ArxivAuthors(names[1..])
  }

  /** The stripped title of an Atom entry, or "" when it has no title element. */
  function ArxivCandidate(e: ArxivEntry): (c: Candidate)
    ensures IsStripped(c.title)
    ensures e.title.None? ==> c.title == []
    ensures forall x :: x in c.authors ==> IsStripped(x)
  {
    Candidate(if e.title.Some? then Strip(e.title.value) else [], ArxivAuthors(e.authorNames))
  }

  /** A candidate is accepted when its title matches and then its authors
      overlap enough. */
  predicate Accepts(m: Matcher, bibTitle: string, bibAuthors: seq<string>, c: Candidate) {
    TitleMatches(m, bibTitle, c.title) && AuthorsOverlap(m, bibAuthors, c.authors)
  }

  /** `find_on_crossref` / `find_on_arxiv` answer true exactly when the
      service answered and one of its candidates is accepted. */
  predicate Found<T>(m: Matcher, bibTitle: string, bibAuthors: seq<string>,
                     resp: Response<T>, candidate: T -> Candidate) {
    resp.Results? && exists i :: 0 <= i < |resp.items| && Accepts(m, bibTitle, bibAuthors, candidate(resp.items[i]))
  }

  /** Some candidate among `cands` is accepted. */
  predicate AnyAccepted(m: Matcher, bibTitle: string, bibAuthors: seq<string>, cands: seq<Candidate>)
    decreases |cands|
  {
    cands != [] &&
    (AnyAccepted(m, bibTitle, bibAuthors, cands[..|cands| - 1]) || Accepts(m, bibTitle, bibAuthors, cands[|cands| - 1]))
  }

  /** An accepted candidate at `i` makes the search succeed. */
  lemma {:induction false} AcceptedAt(m: Matcher, bibTitle: string, bibAuthors: seq<string>, cands: seq<Candidate>, i: nat)
    requires i < |cands| && Accepts(m, bibTitle, bibAuthors, cands[i])
    ensures AnyAccepted(m, bibTitle, bibAuthors, cands)
    decreases |cands|
  {
    if i < |cands| - 1 {
      var front := cands[..|cands| - 1];
      assert front[i] == cands[i];
      AcceptedAt(m, bibTitle, bibAuthors, front, i);
    }
  }

  /** A successful search has an accepted candidate. */
  lemma {:induction false} AnyAcceptedWitness(m: Matcher, bibTitle: string, bibAuthors: seq<string>, cands: seq<Candidate>)
    returns (i: nat)
    requires AnyAccepted(m, bibTitle, bibAuthors, cands)
    ensures i < |cands| && Accepts(m, bibTitle, bibAuthors, cands[i])
    decreases |cands|
  {
    var front := cands[..|cands| - 1];
    if Accepts(m, bibTitle, bibAuthors, cands[|cands| - 1]) {
      i := |cands| - 1;
    } else {
      i := AnyAcceptedWitness(m, bibTitle, bibAuthors, front);
      assert cands[i] == front[i];
    }
  }

  lemma AnyAcceptedStep(m: Matcher, bibTitle: string, bibAuthors: seq<string>, cands: seq<Candidate>, k: nat)
    requires k < |cands|
    ensures AnyAccepted(m, bibTitle, bibAuthors, cands[..k + 1]) ==
      (AnyAccepted(m, bibTitle, bibAuthors, cands[..k]) || Accepts(m, bibTitle, bibAuthors, cands[k]))
  {
    assert cands[..k + 1][..k] == cands[..k];
  }

  /** The candidate loop of `find_on_crossref` and `find_on_arxiv`, over
      the candidates in the service's order: the title test first, the
      author test only for a matching title, and a return at the first
      accepted candidate. `examined` counts the candidates looked at. */
  method FindMatch(m: Matcher, bibTitle: string, bibAuthors: seq<string>, cands: seq<Candidate>)
    returns (found: bool, ghost examined: nat)
    ensures found == AnyAccepted(m, bibTitle, bibAuthors, cands)
    ensures examined <= |cands| && (!found ==> examined == |cands|)
    ensures found ==> 0 < examined && Accepts(m, bibTitle, bibAuthors, cands[examined - 1])
    ensures found ==> !AnyAccepted(m, bibTitle, bibAuthors, cands[..examined - 1])
  {
    examined := 0;
    for idx := 0 to |cands|
      invariant examined == idx
      invariant !AnyAccepted(m, bibTitle, bibAuthors, cands[..idx])
    {
      var c := cands[idx];
      examined := idx + 1;
      AnyAcceptedStep(m, bibTitle, bibAuthors, cands, idx);
      if TitleMatches(m, bibTitle, c.title) {
        var ok := AuthorsOverlapFuzzy(m, bibAuthors, c.authors);
        if ok {
          AnyAcceptedPrefix(m, bibTitle, bibAuthors, cands, idx + 1);
          return true, examined;
        }
      }
    }
    assert cands[..|cands|] == cands;
    return false, examined;
  }

  /** Acceptance within a prefix is acceptance within the whole. */
  lemma AnyAcceptedPrefix(m: Matcher, bibTitle: string, bibAuthors: seq<string>, cands: seq<Candidate>, k: nat)
    requires k <= |cands| && AnyAccepted(m, bibTitle, bibAuthors, cands[..k])
    ensures AnyAccepted(m, bibTitle, bibAuthors, cands)
  {
    var i := AnyAcceptedWitness(m, bibTitle, bibAuthors, cands[..k]);
    assert cands[i] == cands[..k][i];
    AcceptedAt(m, bibTitle, bibAuthors, cands, i);
  }

  /** The search over converted candidates decides `Found`. */
  lemma FoundByCandidates<T>(m: Matcher, bibTitle: string, bibAuthors: seq<string>, items: seq<T>,
                             candidate: T -> Candidate, cands: seq<Candidate>)
    requires |cands| == |items| && forall i :: 0 <= i < |items| ==> cands[i] == candidate(items[i])
    ensures AnyAccepted(m, bibTitle, bibAuthors, cands) == Found(m, bibTitle, bibAuthors, Results(items), candidate)
  {
    if AnyAccepted(m, bibTitle, bibAuthors, cands) {
      var i := AnyAcceptedWitness(m, bibTitle, bibAuthors, cands);
      assert Accepts(m, bibTitle, bibAuthors, candidate(items[i]));
    } else {
      forall i | 0 <= i < |items|
        ensures !Accepts(m, bibTitle, bibAuthors, candidate(items[i]))
      {
        if Accepts(m, bibTitle, bibAuthors, candidate(items[i])) {
          AcceptedAt(m, bibTitle, bibAuthors, cands, i);
        }
      }
    }
  }

  /** `find_on_crossref`: false for a failed request or an empty list,
      otherwise the candidate loop over the items. */
  method FindOnCrossref(m: Matcher, bibTitle: string, bibAuthors: seq<string>, resp: Response<CrossrefItem>)
    returns (found: bool)
    ensures found == Found(m, bibTitle, bibAuthors, resp, CrossrefCandidate)
  {
    if resp.Unavailable? || resp.items == [] {
      return false;
    }
    var items := resp.items;
    var cands := seq(|items|, i requires 0 <= i < |items| => CrossrefCandidate(items[i]));
    ghost var examined;
    found, examined := FindMatch(m, bibTitle, bibAuthors, cands);
    FoundByCandidates(m, bibTitle, bibAuthors, items, CrossrefCandidate, cands);
  }

  /** `find_on_arxiv`: the same over the Atom entries. */
  method FindOnArxiv(m: Matcher, bibTitle: string, bibAuthors: seq<string>, resp: Response<ArxivEntry>)
    returns (found: bool)
    ensures found == Found(m, bibTitle, bibAuthors, resp, ArxivCandidate)
  {
    if resp.Unavailable? || resp.items == [] {
      return false;
    }
    var items := resp.items;
    var cands := seq(|items|, i requires 0 <= i < |items| => ArxivCandidate(items[i]));
    ghost var examined;
    found, examined := FindMatch(m, bibTitle, bibAuthors, cands);
    FoundByCandidates(m, bibTitle, bibAuthors, items, ArxivCandidate, cands);
  }

  /** `search_cvf`, `search_neurips` and `search_openreview` answer true
      exactly when the service answered and one of its titles reaches the
      case-insensitive ratio 75. */
  predicate TitleFound(m: Matcher, title: string, resp: Response<string>) {
    resp.Results? && exists i :: 0 <= i < |resp.items| && TitleMatches(m, title, resp.items[i])
  }

  /** The candidate loop shared by `search_cvf`, `search_neurips` and
      `search_openreview`: return at the first title whose ratio reaches 75. */
  method SearchTitles(m: Matcher, title: string, resp: Response<string>)
    returns (found: bool, ghost examined: nat)
    ensures found == TitleFound(m, title, resp)
    ensures resp.Results? ==> examined <= |resp.items|
    ensures found ==> 0 < examined && TitleMatches(m, title, resp.items[examined - 1])
    ensures found ==> forall i :: 0 <= i < examined - 1 ==> !TitleMatches(m, title, resp.items[i])
  {
    examined := 0;
    if resp.Unavailable? || resp.items == [] {
      return false, 0;
    }
    var results := resp.items;
    for k := 0 to |results|
      invariant examined == k
      invariant forall i :: 0 <= i < k ==> !TitleMatches(m, title, results[i])
    {
      var foundTitle := results[k];
      examined := k + 1;
      if TitleMatches(m, title, foundTitle) {
        return true, examined;
      }
    }
    return false, examined;
  }

  /** A value inside a Google Scholar result: a string, a dictionary, a
      falsy non-string (None, 0, an empty list) or any other object. */
  datatype Value = Str(s: string) | Dict(fields: map<string, Value>) | Falsy | Other

  /** Python truthiness of a value. */
  predicate Truthy(v: Value) {
    match v
    case Str(s) => s != []
    case Dict(f) => f != map[]
    case Falsy => false
    case Other => true
  }

  /** The `bib` attribute of an object result: missing, or present with or
      without a `title` attribute. */
  datatype BibAttribute = NoBib | Bib(title: Option<Value>)

  /** One step of the `scholarly` generator: a dictionary result, an object
      result, or an exception raised while fetching the next result. */
  datatype ScholarItem = DictResult(fields: map<string, Value>) | ObjectResult(bib: BibAttribute) | FetchFailure

  /** `scholarly.search_pubs(title)` either raises or yields results. */
  datatype ScholarResults = SearchRaised | Yielded(items: seq<ScholarItem>)

  /** `search_google_scholar` examines at most this many results. */
  const ScholarMaxResults: nat := 5

  /** The title `approximate_ratio` can score, or None when extracting or
      lower-casing it raises (a missing `bib` attribute, a non-string title,
      a failed fetch). */
  function ScholarTitle(item: ScholarItem): (t: Option<string>)
    ensures item.FetchFailure? || item == ObjectResult(NoBib) ==> t.None?
    ensures item.ObjectResult? && item.bib.Bib? && item.bib.title.None? ==> t == Some([])
  {
    match item
    case FetchFailure => None
    case DictResult(f) =>
      var v := if "bib" in f && f["bib"].Dict? then
                 (if "title" in f["bib"].fields then f["bib"].fields["title"] else Str([]))
               else if "title" in f then f["title"] else Str([]);
      if v.Str? then Some(v.s) else None
    case ObjectResult(NoBib) => None
    case ObjectResult(Bib(title)) =>
      var v := title.GetOr(Str([]));
      if !Truthy(v) then Some([]) else if v.Str? then Some(v.s) else None
  }

  /** The verdict of scanning these results in order: true at the first
      scorable title that matches, false at the first one that raises or
      when they run out. */
  function ScanScholar(m: Matcher, title: string, items: seq<ScholarItem>): bool
  {
    if items == [] then false
    else match ScholarTitle(items[0])
      case None => false
      case Some(t) => TitleMatches(m, title, t) || ScanScholar(m, title, items[1..])
  }

  /** `search_google_scholar`: only the first five results count. */
  function ScholarFound(m: Matcher, title: string, results: ScholarResults): bool
  {
    results.Yielded? &&
    ScanScholar(m, title, if |results.items| <= ScholarMaxResults then results.items else results.items[..ScholarMaxResults])
  }

  /** The scan accepts exactly when some result matches and every result
      before it has a title that can be scored. */
  lemma {:induction false} ScanScholarMeaning(m: Matcher, title: string, items: seq<ScholarItem>)
    ensures ScanScholar(m, title, items) <==>
      exists i :: 0 <= i < |items| && ScholarTitle(items[i]).Some?
        && TitleMatches(m, title, ScholarTitle(items[i]).value)
        && forall j :: 0 <= j < i ==> ScholarTitle(items[j]).Some?
  {
    if items != [] {
      ScanScholarMeaning(m, title, items[1..]);
      var t := ScholarTitle(items[0]);
      if ScanScholar(m, title, items) && !TitleMatches(m, title, t.value) {
        var i :| 0 <= i < |items[1..]| && ScholarTitle(items[1..][i]).Some?
          && TitleMatches(m, title, ScholarTitle(items[1..][i]).value)
          && forall j :: 0 <= j < i ==> ScholarTitle(items[1..][j]).Some?;
        assert forall j :: 1 <= j < i + 1 ==> items[j] == items[1..][j - 1];
        assert ScholarTitle(items[i + 1]).Some? && TitleMatches(m, title, ScholarTitle(items[i + 1]).value);
      }
      if !ScanScholar(m, title, items) {
        forall i | 0 <= i < |items| && ScholarTitle(items[i]).Some?
            && TitleMatches(m, title, ScholarTitle(items[i]).value)
          ensures exists j :: 0 <= j < i && ScholarTitle(items[j]).None?
        {
          if i > 0 && t.Some? {
            assert items[1..][i - 1] == items[i];
            var j :| 0 <= j < i - 1 && ScholarTitle(items[1..][j]).None?;
            assert items[j + 1] == items[1..][j];
          }
        }
      }
    }
  }

  /** Results after the fifth never change the verdict. */
  lemma ScholarIgnoresLaterResults(m: Matcher, title: string, items: seq<ScholarItem>, more: seq<ScholarItem>)
    requires |items| >= ScholarMaxResults
    ensures ScholarFound(m, title, Yielded(items + more)) == ScholarFound(m, title, Yielded(items))
  {
    if more == [] {
      assert items + more == items;
    } else {
      assert (items + more)[..ScholarMaxResults] == items[..ScholarMaxResults];
    }
  }

  /** The loop of `search_google_scholar`, with its `count` and the break
      after the fifth result. */
  method SearchGoogleScholar(m: Matcher, title: string, results: ScholarResults)
    returns (found: bool, ghost examined: nat)
    ensures found == ScholarFound(m, title, results)
    ensures examined <= ScholarMaxResults
    ensures results.Yielded? ==> examined <= |results.items|
  {
    examined := 0;
    if results.SearchRaised? {
      return false, 0;
    }
    var searchResults := results.items;
    ghost var capped := if |searchResults| <= ScholarMaxResults then searchResults
                        else searchResults[..ScholarMaxResults];
    var count := 0;
    while count < |searchResults|
      invariant count <= |capped|
      invariant count <= |searchResults|
      invariant examined == count
      invariant count < ScholarMaxResults
      invariant ScanScholar(m, title, capped) == ScanScholar(m, title, capped[count..])
      decreases |searchResults| - count
    {
      var result := searchResults[count];
      assert result == capped[count];
      count := count + 1;
      examined := count;
      var pubTitle := ScholarTitle(result);
      if pubTitle.None? {
        return false, examined;
      }
      if TitleMatches(m, title, pubTitle.value) {
        return true, examined;
      }
      assert capped[count - 1..][1..] == capped[count..];
      if count >= ScholarMaxResults {
        break;
      }
    }
    assert capped[count..] == [];
    return false, examined;
  }
}
