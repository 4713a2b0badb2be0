/** `CiteSeerMiner`: looks a paper title up in the CiteSeer index, accepts
    the first search result when the first halves of the two titles agree,
    and collects the author lists of at most two of the documents that cite
    it. */
module CiteSeer {
  import opened Wrappers
  import opened PyStr
  import opened Pages
  import opened Cache

  const CiteSeerDomain := "http://citeseer.ist.psu.edu"
  const DocumentLinkPartial := "/viewdoc/"
  /** Citing documents read per resolved title. */
  const CitingCap := 2
  /** Characters of the collapsed author line dropped before splitting. */
  const AuthorLabelLength := 2

  /** `CITESEER_SEARCH_LINK` filled with an already quoted title. */
  function SearchLink(quotedTitle: string): (url: string)
    ensures IsPrefix(CiteSeerDomain, url)
  {
    CiteSeerDomain + "/search?q=title%3A%28" + quotedTitle + "%29&sort=cite&t=doc"
  }

  /** What `mine` gives back: an exception that escaped it, `None`, or the
      list of citing authors. */
  datatype Resolution = Crashed | NotFound | Found(authors: seq<string>)

  // ---------------------------------------------------------------------------
  // Title matching

  /** `search_title[:len(title)/2] == title[:len(title)/2]`: the half length
      comes from the query title alone. */
  function HalfPrefixMatch(query: string, candidate: string): (r: bool)
    ensures r <==> |candidate| >= |query| / 2 && candidate[..|query| / 2] == query[..|query| / 2]
  {
    PySlice(candidate, 0, |query| / 2) == PySlice(query, 0, |query| / 2)
  }

  /** Every title matches itself. */
  lemma MatchesItself(title: string)
    ensures HalfPrefixMatch(title, title)
  {
  }

  /** A query of zero or one character accepts any candidate. */
  lemma ShortQueryMatchesAll(query: string, candidate: string)
    requires |query| <= 1
    ensures HalfPrefixMatch(query, candidate)
  {
  }

  /** A candidate that extends the query (a longer subtitle) is accepted. */
  lemma ExtensionMatches(query: string, candidate: string)
    requires IsPrefix(query, candidate)
    ensures HalfPrefixMatch(query, candidate)
  {
    var n := |query| / 2;
    assert candidate[..n] == candidate[..|query|][..n];
  }

  /** A candidate cut down to at least half of the query is still accepted. */
  lemma TruncationMatches(query: string, candidate: string)
    requires IsPrefix(candidate, query) && |candidate| >= |query| / 2
    ensures HalfPrefixMatch(query, candidate)
  {
    var n := |query| / 2;
    assert query[..n] == query[..|candidate|][..n];
  }

  /** The relation is not symmetric: only the query's length matters. */
  lemma MatchIsNotSymmetric()
    ensures HalfPrefixMatch("ab", "abcdef") && !HalfPrefixMatch("abcdef", "ab")
  {
    assert "abcdef"[..1] == "ab"[..1];
  }

  /** A longer title with the same first half is accepted, an unrelated one
      rejected. */
  lemma MatchExamples()
    ensures HalfPrefixMatch("distributed consensus protocol", "distributed consensus protocol for x")
    ensures !HalfPrefixMatch("distributed consensus protocol", "something else entirely")
  {
    ExtensionMatches("distributed consensus protocol", "distributed consensus protocol for x");
    var q, c := "distributed consensus protocol", "something else entirely";
    assert c[0] != q[0];
  }

  /** `_extract_paper_url` on a parsed search page: the candidate title is
      stripped, lower-cased and transliterated before the comparison, and a
      missing result or `href` (an exception in `miner.py`) yields `None`. */
  function PaperUrl(query: string, hit: Option<SearchHit>, translit: string -> string): (r: Option<string>)
    ensures hit.None? ==> r.None?
    ensures hit.Some? ==>
              (r.Some? <==> hit.value.href.Some? && HalfPrefixMatch(query, translit(Lower(Strip(hit.value.text)))))
    ensures r.Some? ==> r.value == CiteSeerDomain + hit.value.href.value
  {
    match hit
    case None => None
    case Some(link) =>
      if HalfPrefixMatch(query, translit(Lower(Strip(link.text)))) then
        match link.href
        case None => None
        case Some(h) => Some(CiteSeerDomain + h)
      else None
  }

  // ---------------------------------------------------------------------------
  // Citing documents

  function Prefixed(hrefs: seq<string>): (r: seq<string>)
    ensures |r| == |hrefs| && forall i :: 0 <= i < |hrefs| ==> r[i] == CiteSeerDomain + hrefs[i]
  {
    seq(|hrefs|, i requires 0 <= i < |hrefs| => CiteSeerDomain + hrefs[i])
  }

  predicate IsDocumentLink(url: string) {
    Contains(url, DocumentLinkPartial)
  }

  /** `_extract_citation_urls` on a parsed document page: every anchor of
      the citations block, prefixed with the domain, kept when it points at
      a document; `None` when the block or an `href` is missing. */
  function CitationUrls(anchors: Option<seq<Option<string>>>): (r: Option<seq<string>>)
    ensures r.Some? <==> anchors.Some? && forall i :: 0 <= i < |anchors.value| ==> anchors.value[i].Some?
    ensures r.Some? ==> forall u :: u in r.value ==> IsPrefix(CiteSeerDomain, u) && IsDocumentLink(u)
  {
    if anchors.None? then None
    else match AllSome(anchors.value)
      case None => None
      case Some(hrefs) => Some(Filter(Prefixed(hrefs), IsDocumentLink))
  }

  /** The only slashes of the domain are the two of its scheme, and
      neither is followed by a `v`. */
  lemma DomainSlashes()
    ensures forall k :: 0 <= k < |CiteSeerDomain| && CiteSeerDomain[k] == '/' ==>
              k + 1 < |CiteSeerDomain| && CiteSeerDomain[k + 1] != 'v'
  {
    var host := "citeseer.ist.psu.edu";
    assert CiteSeerDomain == "http://" + host;
    assert '/' !in host;
    forall k | 0 <= k < |CiteSeerDomain| && CiteSeerDomain[k] == '/'
      ensures k + 1 < |CiteSeerDomain| && CiteSeerDomain[k + 1] != 'v'
    {
      assert k == 5 || k == 6;
    }
  }

  /** A `/viewdoc/` in a prefixed URL lies wholly after the domain. */
  lemma MatchAfterDomain(href: string, i: int)
    requires OccursAt(CiteSeerDomain + href, DocumentLinkPartial, i)
    ensures i >= |CiteSeerDomain|
  {
    var d, u, pat := CiteSeerDomain, CiteSeerDomain + href, DocumentLinkPartial;
    assert u[i] == '/' && u[i + 1] == 'v' by {
      assert pat[0] == '/' && pat[1] == 'v';
      assert u[i..i + |pat|][0] == u[i] && u[i..i + |pat|][1] == u[i + 1];
    }
    DomainSlashes();
  }

  /** The domain cannot complete a partial `/viewdoc/` at its end, so the
      prefixed URL is a document link exactly when the `href` is one. */
  lemma {:induction false} DomainIsNeutral(href: string)
    ensures IsDocumentLink(CiteSeerDomain + href) <==> Contains(href, DocumentLinkPartial)
  {
    var d, u, pat := CiteSeerDomain, CiteSeerDomain + href, DocumentLinkPartial;
    ContainsAt(u, pat);
    ContainsAt(href, pat);
    if i :| OccursAt(href, pat, i) {
      assert u[|d| + i..|d| + i + |pat|] == href[i..i + |pat|];
      assert OccursAt(u, pat, |d| + i);
    }
    forall i | OccursAt(u, pat, i)
      ensures Contains(href, pat)
    {
      MatchAfterDomain(href, i);
      assert href[i - |d|..i - |d| + |pat|] == u[i..i + |pat|];
      assert OccursAt(href, pat, i - |d|);
    }
  }

  /** A citation URL is kept exactly when its `href` contains `/viewdoc/`,
      as often as it is listed, and the kept ones stay in page order. */
  lemma CitationUrlsKept(hrefs: seq<string>, h: string)
    requires h in hrefs
    ensures var r := CitationUrls(Some(seq(|hrefs|, i requires 0 <= i < |hrefs| => Some(hrefs[i]))));
            && r.Some?
            && (CiteSeerDomain + h in r.value <==> Contains(h, DocumentLinkPartial))
            && Subsequence(r.value, Prefixed(hrefs))
            && multiset(r.value)[CiteSeerDomain + h] ==
                 if Contains(h, DocumentLinkPartial) then multiset(Prefixed(hrefs))[CiteSeerDomain + h] else 0
  {
    var anchors := seq(|hrefs|, i requires 0 <= i < |hrefs| => Some(hrefs[i]));
    var all := AllSome(anchors);
    assert all.value == hrefs;
    DomainIsNeutral(h);
    FilterMultiplicity(Prefixed(hrefs), IsDocumentLink);
    var k :| 0 <= k < |hrefs| && hrefs[k] == h;
    assert Prefixed(hrefs)[k] == CiteSeerDomain + h;
  }

  /** Author-line text: whitespace collapsed, then the label's two
      characters dropped. */
  function AuthorLine(text: string): string {
    Drop(Collapse(text), AuthorLabelLength)
  }

  function StripAll(parts: seq<string>): (r: seq<string>)
    ensures |r| == |parts| && forall i :: 0 <= i < |parts| ==> r[i] == Strip(parts[i])
  {
    seq(|parts|, i requires 0 <= i < |parts| => Strip(parts[i]))
  }

  /** Stripping comma-free pieces leaves comma-free names without
      surrounding whitespace. */
  lemma StripAllClean(parts: seq<string>)
    requires forall p :: p in parts ==> ',' !in p
    ensures forall a :: a in StripAll(parts) ==> ',' !in a && (|a| > 0 ==> !IsSpace(a[0]) && !IsSpace(a[|a| - 1]))
  {
    var r := StripAll(parts);
    forall a | a in r ensures ',' !in a && (|a| > 0 ==> !IsSpace(a[0]) && !IsSpace(a[|a| - 1])) {
      var i :| 0 <= i < |r| && r[i] == a;
      assert parts[i] in parts && a == Strip(parts[i]);
    }
  }

  /** The parsing half of `_extract_citation_from_url`: a missing author
      block gives an empty group; otherwise one name per comma-separated
      piece, each with its surrounding whitespace removed. */
  function ParseAuthors(node: Option<string>, translit: string -> string): (r: seq<string>)
    ensures node.None? ==> r == []
    ensures node.Some? ==> |r| == Count(AuthorLine(translit(node.value)), ',') + 1
    ensures forall a :: a in r ==> ',' !in a && (|a| > 0 ==> !IsSpace(a[0]) && !IsSpace(a[|a| - 1]))
    ensures node.Some? ==> var parts := Split(AuthorLine(translit(node.value)), ',');
                           forall i :: 0 <= i < |r| ==> r[i] == Strip(parts[i])
  {
    match node
    case None => []
    case Some(text) =>
      var parts := Split(AuthorLine(translit(text)), ',');
      StripAllClean(parts);
      StripAll(parts)
  }

  lemma DropPrefix<T>(p: seq<T>, s: seq<T>)
    ensures (p + s)[|p|..] == s
  {
  }

  lemma HeadTail<T>(s: seq<T>)
    requires |s| > 0
    ensures [s[0]] + s[1..] == s
  {
  }

  /** Two words with one space between them are already collapsed. */
  lemma CollapseTwoWords(u: string, v: string)
    requires |u| > 0 && forall c :: c in u ==> !IsSpace(c)
    requires |v| > 0 && forall c :: c in v ==> !IsSpace(c)
    ensures Collapse(u + [' '] + v) == u + [' '] + v
  {
    WordsOfWord(u);
    WordsOfWord(v);
    WordsSplitAtSpace(u, ' ', v);
    JoinCons([u, v], ' ');
    assert [u, v][1..] == [v];
  }

  /** A two-character label, a space and a whitespace-free rest: the
      author line is the space and the rest. */
  lemma TaggedLine(tag: string, rest: string)
    requires |tag| == AuthorLabelLength && forall c :: c in tag ==> !IsSpace(c)
    requires |rest| > 0 && forall c :: c in rest ==> !IsSpace(c)
    ensures AuthorLine(tag + " " + rest) == [' '] + rest
  {
    CollapseTwoWords(tag, rest);
    assert tag + " " + rest == tag + [' '] + rest;
    DropPrefix(tag, [' '] + rest);
    assert tag + [' '] + rest == tag + ([' '] + rest);
  }

  /** Splitting a space followed by a comma-join of comma-free names: the
      first piece keeps the space. */
  lemma SplitAfterSpace(names: seq<string>)
    requires |names| > 0 && forall n :: n in names ==> ',' !in n
    ensures Split([' '] + Join(names, ','), ',') == [[' '] + names[0]] + names[1..]
  {
    var parts := [[' '] + names[0]] + names[1..];
    JoinFirstChar(parts, ',');
    assert parts[0][1..] == names[0] && parts[1..] == names[1..];
    HeadTail(names);
    assert names[0] in names;
    assert forall p :: p in parts ==> ',' !in p by {
      assert forall p :: p in names[1..] ==> p in names;
    }
    SplitJoin(parts, ',');
  }

  /** The names of a well-formed author line, before stripping: the first
      keeps the space that followed the label. */
  lemma AuthorPieces(tag: string, names: seq<string>)
    requires |tag| == AuthorLabelLength && forall c :: c in tag ==> !IsSpace(c)
    requires |names| > 0 && forall n :: n in names ==> |n| > 0 && ',' !in n && forall c :: c in n ==> !IsSpace(c)
    ensures Split(AuthorLine(tag + " " + Join(names, ',')), ',') == [[' '] + names[0]] + names[1..]
  {
    var joined := Join(names, ',');
    assert |joined| > 0 && forall c :: c in joined ==> !IsSpace(c) by {
      assert names[0] in names;
      JoinNoSpace(names, ',');
      JoinCons(names, ',');
    }
    assert AuthorLine(tag + " " + joined) == [' '] + joined by {
      TaggedLine(tag, joined);
    }
    SplitAfterSpace(names);
  }

  /** Stripping the pieces of `AuthorPieces` gives the names. */
  lemma StripPieces(names: seq<string>)
    requires |names| > 0 && forall n :: n in names ==> forall c :: c in n ==> !IsSpace(c)
    ensures StripAll([[' '] + names[0]] + names[1..]) == names
  {
    var parts := [[' '] + names[0]] + names[1..];
    var r := StripAll(parts);
    forall i | 0 <= i < |names| ensures r[i] == names[i] {
      assert names[i] in names;
      StripOfWord(names[i]);
      if i > 0 { assert parts[i] == names[i]; }
    }
  }

  /** An author line of a two-character label, a space and comma-separated
      names without whitespace parses back to the names. */
  lemma ParseAuthorsRoundTrip(text: string, translit: string -> string, tag: string, names: seq<string>)
    requires |tag| == AuthorLabelLength && forall c :: c in tag ==> !IsSpace(c)
    requires |names| > 0 && forall n :: n in names ==> |n| > 0 && ',' !in n && forall c :: c in n ==> !IsSpace(c)
    requires translit(text) == tag + " " + Join(names, ',')
    ensures ParseAuthors(Some(text), translit) == names
  {
    AuthorPieces(tag, names);
    StripPieces(names);
  }

  // ---------------------------------------------------------------------------
  // Resolution against the cache: each stage as a function of the cache
  // contents, then the methods that run it

  /** Reading the search page and picking the paper URL off it; a failed
      read is caught and counts as no match. */
  function FindPaper(store: map<string, string>, env: Env, query: string): (r: Step<Option<string>>)
    ensures r.val.Some? ==> IsPrefix(CiteSeerDomain, r.val.value)
    ensures |r.requested| == 1
  {
    var search := SearchLink(env.quote(query));
    var read := ReadThrough(store, env.net, search);
    var url := if read.page.None? then None else PaperUrl(query, env.firstResult(read.page.value), env.translit);
    Step(url, read.store, [search])
  }

  /** Reading the paper's page and listing its citing documents; a failed
      read or a malformed page is caught. */
  function FindCitations(store: map<string, string>, env: Env, paperUrl: string): (r: Step<Option<seq<string>>>)
    ensures r.val.Some? ==> forall u :: u in r.val.value ==> IsPrefix(CiteSeerDomain, u) && IsDocumentLink(u)
    ensures r.requested == [paperUrl]
  {
    var read := ReadThrough(store, env.net, paperUrl);
    var urls := if read.page.None? then None else CitationUrls(env.citationAnchors(read.page.value));
    Step(urls, read.store, [paperUrl])
  }

  /** `_extract_citation_from_url`: a failed read is not caught (`None`); a
      page without an author block gives an empty group. */
  function CitingAuthors(store: map<string, string>, env: Env, url: string): (r: Step<Option<seq<string>>>)
    ensures r.requested == [url]
  {
    var read := ReadThrough(store, env.net, url);
    var group := if read.page.None? then None else Some(ParseAuthors(env.docAuthors(read.page.value), env.translit));
    Step(group, read.store, [url])
  }

  /** `_extract_citation_from_url` as a stage of the loop over the citing
      documents. */
  function CitingStep(env: Env): (map<string, string>, string) -> Step<Option<seq<string>>> {
    (s, u) => CitingAuthors(s, env, u)
  }

  /** `CiteSeerMiner.mine` as a function of the cache contents. */
  function Resolve(store: map<string, string>, env: Env, title: string): (r: Step<Resolution>)
  {
    var query := Lower(title);
    var paper := FindPaper(store, env, query);
    if paper.val.None? then Step(NotFound, paper.store, paper.requested)
    else
      var cites := FindCitations(paper.store, env, paper.val.value);
      if cites.val.None? then Step(NotFound, cites.store, paper.requested + cites.requested)
      else
        var groups := MapReads(cites.store, PySlice(cites.val.value, 0, CitingCap), CitingStep(env));
        Step(if groups.val.None? then Crashed else Found(Flatten(groups.val.value)),
             groups.store, paper.requested + cites.requested + groups.requested)
  }

  /** The citing documents read are the first (at most two) listed. */
  lemma CitingReads(store: map<string, string>, env: Env, urls: seq<string>)
    ensures var groups := MapReads(store, PySlice(urls, 0, CitingCap), CitingStep(env));
            |groups.requested| <= CitingCap && groups.requested <= urls
  {
    var take := PySlice(urls, 0, CitingCap);
    SliceNonNegative(urls, 0, CitingCap);
    MapReadsRequested(store, take, CitingStep(env));
  }

  /** At most four pages are read per title, the search page first: then
      the paper's page and no more than two citing documents. */
  lemma ResolveReadsAtMostFour(store: map<string, string>, env: Env, title: string)
    ensures var r := Resolve(store, env, title);
            && 1 <= |r.requested| <= 4
            && r.requested[0] == SearchLink(env.quote(Lower(title)))
  {
    var paper := FindPaper(store, env, Lower(title));
    if paper.val.Some? {
      var cites := FindCitations(paper.store, env, paper.val.value);
      if cites.val.Some? {
        CitingReads(cites.store, env, cites.val.value);
      }
    }
  }

  /** The citing documents read are the first document links of the
      paper's page, in order. */
  lemma ResolveReadsFirstCitations(store: map<string, string>, env: Env, title: string)
    ensures var paper := FindPaper(store, env, Lower(title));
            var r := Resolve(store, env, title);
            paper.val.Some? && |r.requested| > 2 ==>
              var cites := FindCitations(paper.store, env, paper.val.value);
              cites.val.Some? && r.requested[2..] <= cites.val.value
  {
    var paper := FindPaper(store, env, Lower(title));
    if paper.val.Some? {
      var cites := FindCitations(paper.store, env, paper.val.value);
      if cites.val.Some? {
        var groups := MapReads(cites.store, PySlice(cites.val.value, 0, CitingCap), CitingStep(env));
        CitingReads(cites.store, env, cites.val.value);
        var r := Resolve(store, env, title);
        assert r.requested == paper.requested + cites.requested + groups.requested;
        assert r.requested[2..] == groups.requested;
      }
    }
  }

  /** When the search page has no result block (or cannot be read) the
      answer is `None`, not an exception, and nothing but the search page is
      read. */
  lemma NoResultMeansNotFound(store: map<string, string>, env: Env, title: string)
    requires var read := ReadThrough(store, env.net, SearchLink(env.quote(Lower(title))));
             read.page.Some? ==> env.firstResult(read.page.value).None?
    ensures Resolve(store, env, title).val == NotFound
    ensures |Resolve(store, env, title).requested| == 1
  {
  }

  /** A found answer is the flattened author groups of the citing
      documents read. */
  lemma FoundFlattensGroups(store: map<string, string>, env: Env, title: string)
    requires Resolve(store, env, title).val.Found?
    ensures var paper := FindPaper(store, env, Lower(title));
            var cites := FindCitations(paper.store, env, paper.val.value);
            var groups := MapReads(cites.store, PySlice(cites.val.value, 0, CitingCap), CitingStep(env));
            && groups.val.Some? && |groups.val.value| <= CitingCap
            && Resolve(store, env, title).val.authors == Flatten(groups.val.value)
  {
    var paper := FindPaper(store, env, Lower(title));
    var cites := FindCitations(paper.store, env, paper.val.value);
    SliceLength(cites.val.value, 0, CitingCap);
  }

  /** Found authors are those of the first (at most two) citing documents,
      the first document's before the second's; a document without an
      author block contributes nothing. */
  lemma FoundAuthors(store: map<string, string>, env: Env, title: string, a: string)
    requires Resolve(store, env, title).val.Found?
    ensures var paper := FindPaper(store, env, Lower(title));
            var cites := FindCitations(paper.store, env, paper.val.value);
            var g := MapReads(cites.store, PySlice(cites.val.value, 0, CitingCap), CitingStep(env)).val.value;
            && |g| <= CitingCap
            && Resolve(store, env, title).val.authors ==
                 (if |g| == 0 then [] else if |g| == 1 then g[0] else g[0] + g[1])
            && (a in Resolve(store, env, title).val.authors <==> exists i :: 0 <= i < |g| && a in g[i])
  {
    var paper := FindPaper(store, env, Lower(title));
    var cites := FindCitations(paper.store, env, paper.val.value);
    var g := MapReads(cites.store, PySlice(cites.val.value, 0, CitingCap), CitingStep(env)).val.value;
    FoundFlattensGroups(store, env, title);
    FlattenMembers(g, a);
    FlattenPair(g);
  }

  /** `None` comes back exactly when no paper URL is found or listing the
      citing documents raises; an exception escapes exactly when reading
      one of the (at most two) citing documents fails. */
  lemma ResolveOutcomes(store: map<string, string>, env: Env, title: string)
    ensures var paper := FindPaper(store, env, Lower(title));
            var r := Resolve(store, env, title);
            (r.val.NotFound? <==> paper.val.None? || FindCitations(paper.store, env, paper.val.value).val.None?)
    ensures var paper := FindPaper(store, env, Lower(title));
            var r := Resolve(store, env, title);
            r.val.Crashed? ==>
              var cites := FindCitations(paper.store, env, paper.val.value);
              MapReads(cites.store, PySlice(cites.val.value, 0, CitingCap), CitingStep(env)).val.None?
  {
  }

  /** `_extract_paper_url`. */
  method ExtractPaperUrl(cache: PageCache, env: Env, query: string) returns (url: Option<string>)
    modifies cache
    ensures var r := FindPaper(old(cache.store), env, query);
            url == r.val && cache.store == r.store
  {
    var page := cache.UrlRead(env.net, SearchLink(env.quote(query)));
    if page.None? {
      return None;
    }
    url := PaperUrl(query, env.firstResult(page.value), env.translit);
  }

  /** `_extract_citation_urls`; `None` stands for the exception it raises. */
  method ExtractCitationUrls(cache: PageCache, env: Env, paperUrl: string) returns (urls: Option<seq<string>>)
    modifies cache
    ensures var r := FindCitations(old(cache.store), env, paperUrl);
            urls == r.val && cache.store == r.store
  {
    var page := cache.UrlRead(env.net, paperUrl);
    if page.None? {
      return None;
    }
    urls := CitationUrls(env.citationAnchors(page.value));
  }

  /** `_extract_citation_from_url`; `None` stands for a failed read, which
      `CiteSeerMiner.mine` does not catch. */
  method ExtractCitationFromUrl(cache: PageCache, env: Env, url: string) returns (authors: Option<seq<string>>)
    modifies cache
    ensures var r := CitingAuthors(old(cache.store), env, url);
            authors == r.val && cache.store == r.store
  {
    var page := cache.UrlRead(env.net, url);
    if page.None? {
      return None;
    }
    authors := Some(ParseAuthors(env.docAuthors(page.value), env.translit));
  }

  /** The loop of `CiteSeerMiner.mine` over the first citing documents;
      `None` when a read raised. */
  method ReadCitingAuthors(cache: PageCache, env: Env, urls: seq<string>) returns (groups: Option<seq<seq<string>>>)
    modifies cache
    ensures var r := MapReads(old(cache.store), urls, CitingStep(env));
            groups == r.val && cache.store == r.store
  {
    ghost var s0 := cache.store;
    var acc: seq<seq<string>> := [];
    var i := 0;
    while i < |urls|
      invariant 0 <= i <= |urls|
      invariant var r := MapReads(s0, urls[..i], CitingStep(env));
                r.val == Some(acc) && r.store == cache.store
    {
      var group := ExtractCitationFromUrl(cache, env, urls[i]);
      assert urls[..i + 1][..i] == urls[..i];
      if group.None? {
        MapReadsStopAtFailure(s0, urls, CitingStep(env), i + 1);
        return None;
      }
      acc := acc + [group.value];
      i := i + 1;
    }
    assert urls[..i] == urls;
    groups := Some(acc);
  }

  /** `CiteSeerMiner.mine`. */
  method Mine(cache: PageCache, env: Env, title: string) returns (res: Resolution)
    modifies cache
    ensures var r := Resolve(old(cache.store), env, title);
            res == r.val && cache.store == r.store
  {
    var query := Lower(title);
    var paperUrl := ExtractPaperUrl(cache, env, query);
    if paperUrl.None? {
      return NotFound;
    }
    var citationUrls := ExtractCitationUrls(cache, env, paperUrl.value);
    if citationUrls.None? {
      return NotFound;
    }
    var groups := ReadCitingAuthors(cache, env, PySlice(citationUrls.value, 0, CitingCap));
    if groups.None? {
      return Crashed;
    }
    res := Found(Flatten(groups.value));
  }
}
