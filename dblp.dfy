/** `DBLPMiner`: from a venue name to the JSON records of its papers. The
    venue's index page lists one flagged block per year; each year page
    links the XML record of every paper; each record is unwrapped from its
    two envelope elements, kept when its title is plain text, and optionally
    given the authors of papers citing it. */
module Dblp {
  import opened Wrappers
  import opened PyStr
  import opened Pages
  import opened Cache
  import CiteSeer

  const DblpLinkPrefix := "http://www.informatik.uni-trier.de/~ley/db/conf/"
  const DblpLinkSuffix := "/index.html"
  const YearLinkFlag := "http://dblp.uni-trier.de/img/venues.dark.hollow.16x16.png"
  const XmlMarker := "XML"
  const TitleKey := "title"
  const CitationsKey := "citations"

  /** `DBLP_LINK_FORMAT.format(name = iden)`. */
  function DblpLink(name: string): (url: string)
    ensures IsPrefix(DblpLinkPrefix, url)
  {
    DblpLinkPrefix + name + DblpLinkSuffix
  }

  // ---------------------------------------------------------------------------
  // Year-index stage

  /** `s.rfind(c)`, as an option. */
  function LastIndex(s: string, c: char): (r: Option<nat>)
    ensures r.Some? ==> r.value < |s| && s[r.value] == c && c !in s[r.value + 1..]
    ensures r.None? ==> c !in s
    decreases |s|
  {
    if |s| == 0 then None
    else if s[|s| - 1] == c then Some(|s| - 1)
    else
      var r := LastIndex(s[..|s| - 1], c);
      assert r.Some? ==> s[..|s| - 1][r.value + 1..] + [s[|s| - 1]] == s[r.value + 1..];
      assert r.None? ==> s == s[..|s| - 1] + [s[|s| - 1]];
      r
  }

  /** The last occurrence of `c` is the one followed by a `c`-free tail. */
  lemma {:induction false} LastIndexBeforeTail(s: string, c: char, t: string)
    requires c !in t
    ensures LastIndex(s + [c] + t, c) == Some(|s|)
    decreases |t|
  {
    var u := s + [c] + t;
    if |t| > 0 {
      var t' := t[..|t| - 1];
      assert u[..|u| - 1] == s + [c] + t';
      assert u[|u| - 1] == t[|t| - 1] && t[|t| - 1] in t;
      assert c !in t' by { assert forall x :: x in t' ==> x in t; }
      LastIndexBeforeTail(s, c, t');
    }
  }

  /** `url.rsplit('/', 2)[1]`: the segment between the last two slashes, or
      everything after the only slash; `None` (an `IndexError`) when the URL
      has no slash. */
  function Keyword(url: string): (r: Option<string>)
    ensures r.Some? <==> '/' in url
    ensures r.Some? ==> '/' !in r.value
  {
    match LastIndex(url, '/')
    case None => None
    case Some(j) =>
      match LastIndex(url[..j], '/')
      case None => Some(url[j + 1..])
      case Some(k) => Some(url[k + 1..j])
  }

  /** For a venue name without a slash the keyword is the name itself. */
  lemma {:induction false} KeywordOfDblpLink(name: string)
    requires '/' !in name
    ensures Keyword(DblpLink(name)) == Some(name)
  {
    var url := DblpLink(name);
    var p := DblpLinkPrefix[..|DblpLinkPrefix| - 1];
    var rest := "index.html";
    assert url == (DblpLinkPrefix + name) + ['/'] + rest;
    assert '/' !in rest;
    LastIndexBeforeTail(DblpLinkPrefix + name, '/', rest);
    var j := |DblpLinkPrefix + name|;
    assert url[..j] == p + ['/'] + name;
    LastIndexBeforeTail(p, '/', name);
    assert url[|p| + 1..j] == name;
  }

  /** With two or more slashes the keyword is the segment between the last
      two. */
  lemma {:induction false} KeywordOfTwoSlashes(p: string, kw: string, t: string)
    requires '/' !in kw && '/' !in t
    ensures Keyword(p + "/" + kw + "/" + t) == Some(kw)
  {
    var url := p + "/" + kw + "/" + t;
    LastIndexBeforeTail(p + "/" + kw, '/', t);
    var j := |p + "/" + kw|;
    assert url[..j] == p + "/" + kw;
    LastIndexBeforeTail(p, '/', kw);
    assert url[|p| + 1..j] == kw;
  }

  /** With a single slash the keyword is everything after it. */
  lemma {:induction false} KeywordOfOneSlash(p: string, kw: string)
    requires '/' !in p && '/' !in kw
    ensures Keyword(p + "/" + kw) == Some(kw)
  {
    var url := p + "/" + kw;
    LastIndexBeforeTail(p, '/', kw);
    assert url[..|p|] == p;
    assert url[|p| + 1..] == kw;
  }

  /** A block marks a year when it holds the dark hollow venue icon. */
  predicate Flagged(b: Block) {
    YearLinkFlag in b.imageSources
  }

  /** The first `href` of every flagged block, in page order; `None` (an
      exception) when a flagged block has no link. */
  function FlaggedHrefs(blocks: seq<Block>): (r: Option<seq<string>>)
    ensures r.Some? <==> forall b :: b in blocks && Flagged(b) ==> b.firstHref.Some?
    ensures r.Some? ==> |r.value| == |Filter(blocks, Flagged)|
    ensures r.Some? ==> forall i :: 0 <= i < |r.value| ==> Filter(blocks, Flagged)[i].firstHref == Some(r.value[i])
  {
    var flagged := Filter(blocks, Flagged);
    var hrefs := seq(|flagged|, i requires 0 <= i < |flagged| => flagged[i].firstHref);
    assert (forall i :: 0 <= i < |hrefs| ==> hrefs[i].Some?) <==>
           (forall b :: b in flagged ==> b.firstHref.Some?) by {
      if forall i :: 0 <= i < |hrefs| ==> hrefs[i].Some? {
        forall b | b in flagged ensures b.firstHref.Some? {
          var i :| 0 <= i < |flagged| && flagged[i] == b;
          assert hrefs[i] == b.firstHref;
        }
      }
    }
    AllSome(hrefs)
  }

  /** The pure part of `_extract_year_urls`. */
  function YearUrls(blocks: seq<Block>, keyword: string): (r: Option<seq<string>>)
    ensures r.Some? <==> FlaggedHrefs(blocks).Some?
    ensures r.Some? ==> forall u :: u in r.value ==> Contains(u, keyword)
  {
    match FlaggedHrefs(blocks)
    case None => None
    case Some(hrefs) => Some(Filter(hrefs, u => Contains(u, keyword)))
  }

  /** The year URLs are exactly the flagged blocks' first links that contain
      the keyword, in page order. */
  lemma YearUrlsExact(blocks: seq<Block>, keyword: string, u: string)
    requires YearUrls(blocks, keyword).Some?
    ensures var years := YearUrls(blocks, keyword).value;
            && Subsequence(years, FlaggedHrefs(blocks).value)
            && (u in years <==>
                  Contains(u, keyword) && exists b :: b in blocks && Flagged(b) && b.firstHref == Some(u))
            && multiset(years)[u] == if Contains(u, keyword) then multiset(FlaggedHrefs(blocks).value)[u] else 0
  {
    FilterMultiplicity(FlaggedHrefs(blocks).value, u => Contains(u, keyword));
    FlaggedHrefsMember(blocks, u);
  }

  /** A string is among the flagged links exactly when some flagged block
      links to it first. */
  lemma FlaggedHrefsMember(blocks: seq<Block>, u: string)
    requires FlaggedHrefs(blocks).Some?
    ensures u in FlaggedHrefs(blocks).value <==> exists b :: b in blocks && Flagged(b) && b.firstHref == Some(u)
  {
    FilterReadMember(blocks, Flagged, (b: Block) => b.firstHref, FlaggedHrefs(blocks).value, u);
  }

  /** A value is read off some kept element exactly when some element that
      passes the test yields it, when `r` holds what each kept element yields. */
  lemma FilterReadMember<T(!new), U>(s: seq<T>, p: T -> bool, f: T -> Option<U>, r: seq<U>, u: U)
    requires |r| == |Filter(s, p)| && forall i :: 0 <= i < |r| ==> f(Filter(s, p)[i]) == Some(r[i])
    ensures u in r <==> exists x :: x in s && p(x) && f(x) == Some(u)
  {
    var kept := Filter(s, p);
    if u in r {
      var i :| 0 <= i < |r| && r[i] == u;
      assert kept[i] in kept;
    }
    if x :| x in s && p(x) && f(x) == Some(u) {
      assert x in kept;
      var i :| 0 <= i < |kept| && kept[i] == x;
      assert r[i] == u;
    }
  }

  // ---------------------------------------------------------------------------
  // Paper-address stage

  /** A link whose visible text contains `XML`. */
  predicate IsXmlLink(l: Link) {
    Contains(l.text, XmlMarker)
  }

  /** The pure part of `_extract_paper_xml_urls`: the targets of the `XML`
      links in page order; `None` (a `KeyError`) when one has no `href`. */
  function PaperXmlUrls(links: seq<Link>): (r: Option<seq<string>>)
    ensures r.Some? <==> forall l :: l in links && IsXmlLink(l) ==> l.href.Some?
    ensures r.Some? ==> |r.value| == |Filter(links, IsXmlLink)|
    ensures r.Some? ==> forall i :: 0 <= i < |r.value| ==> Filter(links, IsXmlLink)[i].href == Some(r.value[i])
  {
    var xml := Filter(links, IsXmlLink);
    var hrefs := seq(|xml|, i requires 0 <= i < |xml| => xml[i].href);
    assert (forall i :: 0 <= i < |hrefs| ==> hrefs[i].Some?) <==>
           (forall l :: l in xml ==> l.href.Some?) by {
      if forall i :: 0 <= i < |hrefs| ==> hrefs[i].Some? {
        forall l | l in xml ensures l.href.Some? {
          var i :| 0 <= i < |xml| && xml[i] == l;
          assert hrefs[i] == l.href;
        }
      }
    }
    AllSome(hrefs)
  }

  /** The paper URLs are exactly the targets of the links whose text
      contains `XML`. */
  lemma PaperXmlUrlsExact(links: seq<Link>, u: string)
    requires PaperXmlUrls(links).Some?
    ensures u in PaperXmlUrls(links).value <==> exists l :: l in links && IsXmlLink(l) && l.href == Some(u)
  {
    FilterReadMember(links, IsXmlLink, (l: Link) => l.href, PaperXmlUrls(links).value, u);
  }

  // ---------------------------------------------------------------------------
  // Year window

  /** `year_urls[skip : skip + limit]`. */
  function Window(years: seq<string>, skip: int, limit: int): (r: seq<string>)
    ensures |r| <= |years| && forall y :: y in r ==> y in years
  {
    PySlice(years, skip, skip + limit)
  }

  /** With non-negative options the window is the `limit` years after the
      first `skip`, cut off at the end of the list; no year is processed
      when `limit` is 0 or `skip` reaches past the end. */
  lemma WindowExact(years: seq<string>, skip: nat, limit: nat)
    ensures var lo := if skip <= |years| then skip else |years|;
            var hi := if skip + limit <= |years| then skip + limit else |years|;
            lo <= hi && Window(years, skip, limit) == years[lo..hi]
    ensures limit == 0 || skip >= |years| ==> Window(years, skip, limit) == []
    ensures |Window(years, skip, limit)| <= limit
  {
    SliceNonNegative(years, skip, skip + limit);
    SliceLength(years, skip, skip + limit);
  }

  /** A window of size 0 is empty whatever `skip` is, negative included. */
  lemma EmptyWindow(years: seq<string>, skip: int)
    ensures Window(years, skip, 0) == []
  {
  }

  /** Python's negative bounds: `limit = -1` leaves out only the last year. */
  lemma NegativeLimit(years: seq<string>)
    requires |years| > 0
    ensures Window(years, 0, -1) == years[..|years| - 1]
  {
  }

  // ---------------------------------------------------------------------------
  // Record stage

  /** `d[key]` on an ordered dictionary: the value of the first field with
      that key. */
  function Get(d: Value, key: string): (r: Option<Value>)
    ensures r.Some? ==> d.Dict? && exists i :: 0 <= i < |d.entries| && d.entries[i] == Field(key, r.value)
    decreases if d.Dict? then |d.entries| else 0
  {
    if !d.Dict? || |d.entries| == 0 then None
    else if d.entries[0].key == key then Some(d.entries[0].val)
    else
      var r := Get(Dict(d.entries[1..]), key);
      assert r.Some? ==> exists i :: 0 <= i < |d.entries| && d.entries[i] == Field(key, r.value) by {
        if r.Some? {
          var i :| 0 <= i < |d.entries| - 1 && d.entries[1..][i] == Field(key, r.value);
          assert d.entries[i + 1] == Field(key, r.value);
        }
      }
      r
  }

  /** A lookup fails exactly when the value is not a dictionary or has no
      field with the key; otherwise it finds the first such field. */
  lemma {:induction false} GetFindsFirst(d: Value, key: string)
    ensures Get(d, key).None? <==> !d.Dict? || forall i :: 0 <= i < |d.entries| ==> d.entries[i].key != key
    ensures Get(d, key).Some? ==>
              exists i :: 0 <= i < |d.entries| && d.entries[i] == Field(key, Get(d, key).value) &&
                          forall j :: 0 <= j < i ==> d.entries[j].key != key
    decreases if d.Dict? then |d.entries| else 0
  {
    if d.Dict? && |d.entries| > 0 {
      var rest := d.entries[1..];
      if d.entries[0].key == key {
        assert d.entries[0] == Field(key, d.entries[0].val);
      } else {
        GetFindsFirst(Dict(rest), key);
        var r := Get(Dict(rest), key);
        if r.None? {
          forall i | 0 <= i < |d.entries| ensures d.entries[i].key != key {
            if i > 0 { assert d.entries[i] == rest[i - 1]; }
          }
        } else {
          var i :| 0 <= i < |rest| && rest[i] == Field(key, r.value) && forall j :: 0 <= j < i ==> rest[j].key != key;
          assert d.entries[i + 1] == Field(key, r.value);
          forall j | 0 <= j < i + 1 ensures d.entries[j].key != key {
            if j > 0 { assert d.entries[j] == rest[j - 1]; }
          }
        }
      }
    }
  }

  /** `x.values()[0].values()[0]`: the record inside its two envelope
      elements; `None` when an envelope is missing or empty (an exception). */
  function Unwrap(doc: Value): Option<Value> {
    if doc.Dict? && |doc.entries| > 0 && doc.entries[0].val.Dict? && |doc.entries[0].val.entries| > 0
    then Some(doc.entries[0].val.entries[0].val)
    else None
  }

  /** `isinstance(x['title'], unicode)`; `None` when `x['title']` raises
      (the record is not a dictionary or has no title). */
  function TitleIsText(rec: Value): Option<bool> {
    match Get(rec, TitleKey)
    case None => None
    case Some(t) => Some(t.Text?)
  }

  /** The title test raises exactly when the record has no `title` field,
      and passes exactly when the first such field holds text. */
  lemma TitleIsTextFields(rec: Value)
    ensures TitleIsText(rec).None? <==> !rec.Dict? || forall i :: 0 <= i < |rec.entries| ==> rec.entries[i].key != TitleKey
    ensures TitleIsText(rec) == Some(true) <==>
              rec.Dict? && exists i :: 0 <= i < |rec.entries| && rec.entries[i].key == TitleKey && rec.entries[i].val.Text? &&
                                       forall j :: 0 <= j < i ==> rec.entries[j].key != TitleKey
  {
    GetFindsFirst(rec, TitleKey);
    if rec.Dict? && Get(rec, TitleKey).Some? {
      var k :| 0 <= k < |rec.entries| && rec.entries[k] == Field(TitleKey, Get(rec, TitleKey).value) &&
               forall j :: 0 <= j < k ==> rec.entries[j].key != TitleKey;
      forall i | 0 <= i < |rec.entries| && rec.entries[i].key == TitleKey && forall j :: 0 <= j < i ==> rec.entries[j].key != TitleKey
        ensures i == k
      {
      }
    }
  }

  predicate HasTextTitle(rec: Value) {
    TitleIsText(rec) == Some(true)
  }

  /** Every record is a dictionary whose title is text. */
  predicate AllTitled(recs: seq<Value>) {
    forall r :: r in recs ==> r.Dict? && HasTextTitle(r)
  }

  /** The title filter of `DBLPMiner.mine`; `None` when testing some record
      raises. */
  function KeepTitled(recs: seq<Value>): (r: Option<seq<Value>>)
    ensures r.Some? <==> forall x :: x in recs ==> TitleIsText(x).Some?
    ensures r.Some? ==> AllTitled(r.value) && Subsequence(r.value, recs)
    ensures r.Some? ==> forall x :: x in recs && HasTextTitle(x) ==> x in r.value
    ensures r.Some? ==> forall x :: multiset(r.value)[x] == if HasTextTitle(x) then multiset(recs)[x] else 0
  {
    var tests := seq(|recs|, i requires 0 <= i < |recs| => TitleIsText(recs[i]));
    assert (forall i :: 0 <= i < |tests| ==> tests[i].Some?) <==>
           (forall x :: x in recs ==> TitleIsText(x).Some?) by {
      if forall i :: 0 <= i < |tests| ==> tests[i].Some? {
        forall x | x in recs ensures TitleIsText(x).Some? {
          var i :| 0 <= i < |recs| && recs[i] == x;
          assert tests[i] == TitleIsText(x);
        }
      }
    }
    FilterMultiplicity(recs, HasTextTitle);
    if AllSome(tests).None? then None else Some(Filter(recs, HasTextTitle))
  }

  /** Filtering the kept records again keeps all of them. */
  lemma KeepTitledIdempotent(recs: seq<Value>)
    requires KeepTitled(recs).Some?
    ensures KeepTitled(KeepTitled(recs).value) == KeepTitled(recs)
  {
    var kept := KeepTitled(recs).value;
    FilterIdempotent(recs, HasTextTitle);
    assert forall x :: x in kept ==> TitleIsText(x).Some?;
  }

  /** `map(unwrap, xml_dicts)`; `None` when some document cannot be
      unwrapped. */
  function UnwrapAll(docs: seq<Value>): (r: Option<seq<Value>>)
    ensures r.Some? <==> forall i :: 0 <= i < |docs| ==> Unwrap(docs[i]).Some?
    ensures r.Some? ==> |r.value| == |docs| && forall i :: 0 <= i < |docs| ==> Some(r.value[i]) == Unwrap(docs[i])
  {
    var unwrapped := seq(|docs|, i requires 0 <= i < |docs| => Unwrap(docs[i]));
    assert forall i :: 0 <= i < |docs| ==> unwrapped[i] == Unwrap(docs[i]);
    AllSome(unwrapped)
  }

  /** `filter(title is text, map(unwrap, xml_dicts))`. */
  function Records(docs: seq<Value>): (r: Option<seq<Value>>)
    ensures r.Some? ==> AllTitled(r.value)
    ensures r.Some? ==> forall i :: 0 <= i < |docs| ==> Unwrap(docs[i]).Some?
  {
    match UnwrapAll(docs)
    case None => None
    case Some(recs) => KeepTitled(recs)
  }

  /** The kept records are the unwrapped records whose title is text, in
      document order and with their multiplicities. */
  lemma RecordsExact(docs: seq<Value>, x: Value)
    requires Records(docs).Some?
    ensures UnwrapAll(docs).Some?
    ensures var recs := UnwrapAll(docs).value;
            && Subsequence(Records(docs).value, recs)
            && (x in Records(docs).value <==> x in recs && HasTextTitle(x))
            && multiset(Records(docs).value)[x] == if HasTextTitle(x) then multiset(recs)[x] else 0
  {
    var recs := UnwrapAll(docs).value;
    assert Records(docs).value == Filter(recs, HasTextTitle);
  }

  // ---------------------------------------------------------------------------
  // Citation merge

  /** `d[key] = v` on an ordered dictionary: an existing field keeps its
      place, a new one goes last. */
  function Put(d: Value, key: string, v: Value): (r: Value)
    requires d.Dict?
    ensures r.Dict? && Get(r, key) == Some(v)
    ensures forall k :: k != key ==> Get(r, k) == Get(d, k)
    ensures |r.entries| == |d.entries| + if Get(d, key).Some? then 0 else 1
    decreases |d.entries|
  {
    if |d.entries| == 0 then Dict([Field(key, v)])
    else if d.entries[0].key == key then Dict([Field(key, v)] + d.entries[1..])
    else
      var rest := Put(Dict(d.entries[1..]), key, v);
      var r := Dict([d.entries[0]] + rest.entries);
      assert r.entries[1..] == rest.entries;
      assert (Dict([Field(key, v)] + d.entries[1..])).entries[1..] == d.entries[1..];
      r
  }

  /** The JSON list of citing authors. */
  function CitationValue(authors: seq<string>): (v: Value)
    ensures v.List? && |v.items| == |authors|
    ensures forall i :: 0 <= i < |authors| ==> v.items[i] == Text(authors[i])
  {
    List(seq(|authors|, i requires 0 <= i < |authors| => Text(authors[i])))
  }

  /** `if citations: x['citations'] = citations` for one record. */
  function Merge(rec: Value, res: CiteSeer.Resolution): (r: Value)
    requires rec.Dict?
    ensures r.Dict?
    ensures forall k :: k != CitationsKey ==> Get(r, k) == Get(rec, k)
    ensures Get(r, CitationsKey) ==
              if res.Found? && |res.authors| > 0 then Some(CitationValue(res.authors)) else Get(rec, CitationsKey)
  {
    if res.Found? && |res.authors| > 0 then Put(rec, CitationsKey, CitationValue(res.authors)) else rec
  }

  /** Merging citations leaves the title alone. */
  lemma MergeKeepsTitle(rec: Value, res: CiteSeer.Resolution)
    requires rec.Dict?
    ensures Get(Merge(rec, res), TitleKey) == Get(rec, TitleKey)
    ensures HasTextTitle(Merge(rec, res)) == HasTextTitle(rec)
  {
    assert TitleKey != CitationsKey;
  }

  /** The loop over `enumerate(citations_list)`: record `i` receives the
      `i`-th resolver result when it is a non-empty list. */
  method MergeCitations(recs: seq<Value>, cites: seq<CiteSeer.Resolution>) returns (merged: seq<Value>)
    requires |cites| == |recs| && AllTitled(recs)
    ensures |merged| == |recs|
    ensures forall i :: 0 <= i < |recs| ==> merged[i] == Merge(recs[i], cites[i])
    ensures AllTitled(merged)
  {
    merged := recs;
    var i := 0;
    while i < |cites|
      invariant 0 <= i <= |cites| && |merged| == |recs|
      invariant forall j :: 0 <= j < i ==> merged[j] == Merge(recs[j], cites[j])
      invariant forall j :: i <= j < |recs| ==> merged[j] == recs[j]
    {
      assert recs[i] in recs;
      if cites[i].Found? && |cites[i].authors| > 0 {
        merged := merged[i := Put(merged[i], CitationsKey, CitationValue(cites[i].authors))];
      }
      assert merged[i] == Merge(recs[i], cites[i]);
      i := i + 1;
    }
    forall x | x in merged ensures x.Dict? && HasTextTitle(x) {
      var j :| 0 <= j < |merged| && merged[j] == x;
      assert recs[j] in recs;
      MergeKeepsTitle(recs[j], cites[j]);
    }
  }

  // ---------------------------------------------------------------------------
  // The pipeline against the cache: each stage as a function of the cache
  // contents

  /** `_extract_year_urls`; `None` stands for an exception. */
  function IndexStage(store: map<string, string>, env: Env, url: string): (r: Step<Option<seq<string>>>)
    ensures r.requested == [url]
  {
    var read := ReadThrough(store, env.net, url);
    var years :=
      if read.page.None? then None
      else match Keyword(url)
        case None => None
        case Some(keyword) => YearUrls(env.heads(read.page.value), keyword);
    Step(years, read.store, [url])
  }

  /** `_extract_paper_xml_urls`; `None` stands for an exception. */
  function YearPageStage(store: map<string, string>, env: Env, yearUrl: string): (r: Step<Option<seq<string>>>)
    ensures r.requested == [yearUrl]
  {
    var read := ReadThrough(store, env.net, yearUrl);
    Step(if read.page.None? then None else PaperXmlUrls(env.anchors(read.page.value)), read.store, [yearUrl])
  }

  /** `_extract_xml_from_url`; `None` when the read or the decoding raises. */
  function XmlDoc(store: map<string, string>, env: Env, url: string): (r: Step<Option<Value>>)
    ensures r.requested == [url]
  {
    var read := ReadThrough(store, env.net, url);
    Step(if read.page.None? then None else env.xml(read.page.value), read.store, [url])
  }

  /** `_extract_xml_from_url` as a stage of the `map` over the year's XML
      addresses. */
  function XmlStep(env: Env): (map<string, string>, string) -> Step<Option<Value>> {
    (s, u) => XmlDoc(s, env, u)
  }

  /** The title text of a kept record. */
  function TitleOf(rec: Value): string {
    match Get(rec, TitleKey)
    case Some(Text(t)) => t
    case _ => ""
  }

  /** `CiteSeerMiner().mine(unidecode(x['title']))` for one record; `None`
      when an exception escapes it. */
  function ResolveTitle(store: map<string, string>, env: Env, rec: Value): (r: Step<Option<CiteSeer.Resolution>>)
    ensures r.val.Some? ==> !r.val.value.Crashed?
    ensures r.val.None? <==> CiteSeer.Resolve(store, env, env.translit(TitleOf(rec))).val.Crashed?
  {
    var res := CiteSeer.Resolve(store, env, env.translit(TitleOf(rec)));
    Step(if res.val.Crashed? then None else Some(res.val), res.store, res.requested)
  }

  /** The resolver as a stage of the `map` over the kept records. */
  function ResolveStep(env: Env): (map<string, string>, Value) -> Step<Option<CiteSeer.Resolution>> {
    (s, rec) => ResolveTitle(s, env, rec)
  }

  /** Every record with its resolver result merged in. */
  function MergeAll(recs: seq<Value>, cites: seq<CiteSeer.Resolution>): (r: seq<Value>)
    requires |cites| == |recs| && AllTitled(recs)
    ensures |r| == |recs| && AllTitled(r)
    ensures forall i :: 0 <= i < |recs| ==> recs[i].Dict? && r[i] == Merge(recs[i], cites[i])
  {
    var r := seq(|recs|, i requires 0 <= i < |recs| => assert recs[i] in recs; Merge(recs[i], cites[i]));
    assert AllTitled(r) by {
      forall x | x in r ensures x.Dict? && HasTextTitle(x) {
        var j :| 0 <= j < |r| && r[j] == x;
        assert recs[j] in recs;
        MergeKeepsTitle(recs[j], cites[j]);
      }
    }
    r
  }

  /** One pass of the year loop. The value is the batch written for the
      year, `None` when an exception escapes. When reading the year's XML
      documents raises, `DBLPMiner.mine`'s `xml_dicts` still holds the previous
      year's documents, whose records are the previous batch (`previous`);
      on the first year it is unbound and the run stops. */
  function YearBatch(store: map<string, string>, env: Env, findCitations: bool,
                     previous: Option<seq<Value>>, yearUrl: string): (r: Step<Option<seq<Value>>>)
    requires previous.Some? ==> AllTitled(previous.value)
    ensures r.val.Some? ==> AllTitled(r.val.value)
  {
    var page := YearPageStage(store, env, yearUrl);
    if page.val.None? then Step(None, page.store, page.requested)
    else
      var docs := MapReads(page.store, page.val.value, XmlStep(env));
      var batch := if docs.val.Some? then Records(docs.val.value) else previous;
      var requested := page.requested + docs.requested;
      if batch.None? then Step(None, docs.store, requested)
      else if !findCitations then Step(batch, docs.store, requested)
      else
        var cites := MapReads(docs.store, batch.value, ResolveStep(env));
        if cites.val.None? then Step(None, cites.store, requested + cites.requested)
        else Step(Some(MergeAll(batch.value, cites.val.value)), cites.store, requested + cites.requested)
  }

  /** When an XML read fails, the year's batch is the previous one: none
      at the first year, so the run stops there. Without citations it is
      written again as it is; with citations its titles are looked up again
      (against the cache as the failed reads left it) and merged afresh. */
  lemma FailedXmlReusesPrevious(store: map<string, string>, env: Env, findCitations: bool,
                                previous: Option<seq<Value>>, yearUrl: string)
    requires previous.Some? ==> AllTitled(previous.value)
    requires var page := YearPageStage(store, env, yearUrl);
             page.val.Some? && MapReads(page.store, page.val.value, XmlStep(env)).val.None?
    ensures var r := YearBatch(store, env, findCitations, previous, yearUrl);
            && (previous.None? ==> r.val.None?)
            && (!findCitations ==> r.val == previous)
            && (findCitations && previous.Some? ==>
                  var page := YearPageStage(store, env, yearUrl);
                  var docs := MapReads(page.store, page.val.value, XmlStep(env));
                  var cites := MapReads(docs.store, previous.value, ResolveStep(env));
                  r.val == if cites.val.None? then None else Some(MergeAll(previous.value, cites.val.value)))
  {
  }

  /** What one pass of the year loop does with the cache, the previous
      batch and the year's address. */
  type YearPass = (map<string, string>, Option<seq<Value>>, string) --> Step<Option<seq<Value>>>

  /** A pass that can follow any batch of titled records and yields one. */
  ghost predicate Sound(pass: YearPass) {
    forall s: map<string, string>, p: Option<seq<Value>>, y: string :: (p.Some? ==> AllTitled(p.value)) ==>
      pass.requires(s, p, y) && (pass(s, p, y).val.Some? ==> AllTitled(pass(s, p, y).val.value))
  }

  /** The body of the year loop of `DBLPMiner.mine`. */
  function YearStep(env: Env, findCitations: bool): (pass: YearPass)
    ensures Sound(pass)
  {
    (s: map<string, string>, p: Option<seq<Value>>, y: string) requires p.Some? ==> AllTitled(p.value) => YearBatch(s, env, findCitations, p, y)
  }

  /** State of the year loop: the records written so far, the batch of the
      last year, and whether an exception has ended the run. */
  datatype Progress = Progress(written: seq<Value>, previous: Option<seq<Value>>, crashed: bool)

  /** The year loop over `years`, stopping at the first exception. */
  function MineYears(store: map<string, string>, pass: YearPass, years: seq<string>): (r: Step<Progress>)
    requires Sound(pass)
    ensures AllTitled(r.val.written)
    ensures r.val.previous.Some? ==> AllTitled(r.val.previous.value)
    decreases |years|
  {
    if |years| == 0 then Step(Progress([], None, false), store, [])
    else
      var n := |years| - 1;
      var done := MineYears(store, pass, years[..n]);
      if done.val.crashed then done
      else
        var year := pass(done.store, done.val.previous, years[n]);
        var requested := done.requested + year.requested;
        if year.val.None? then Step(done.val.(crashed := true), year.store, requested)
        else
          assert AllTitled(done.val.written + year.val.value) by {
            forall x | x in done.val.written + year.val.value ensures x.Dict? && HasTextTitle(x) {
              assert x in done.val.written || x in year.val.value;
            }
          }
          Step(Progress(done.val.written + year.val.value, year.val, false), year.store, requested)
  }

  /** Once an exception has escaped, later years are not looked at. */
  lemma {:induction false} MineYearsStopAtCrash(store: map<string, string>, pass: YearPass, years: seq<string>, k: nat)
    requires Sound(pass)
    requires k <= |years|
    requires MineYears(store, pass, years[..k]).val.crashed
    ensures MineYears(store, pass, years) == MineYears(store, pass, years[..k])
    decreases |years| - k
  {
    if k == |years| {
      assert years[..k] == years;
    } else {
      var n := |years| - 1;
      if k < n {
        assert years[..n][..k] == years[..k];
        MineYearsStopAtCrash(store, pass, years[..n], k);
      } else {
        assert years[..n] == years[..k];
      }
    }
  }

  /** Two passes that agree after every batch of titled records give the
      same loop. */
  lemma {:induction false} MineYearsCongruent(store: map<string, string>, pass: YearPass, pass': YearPass, years: seq<string>)
    requires Sound(pass) && Sound(pass')
    requires forall s: map<string, string>, p: Option<seq<Value>>, y: string :: (p.Some? ==> AllTitled(p.value)) ==> pass(s, p, y) == pass'(s, p, y)
    ensures MineYears(store, pass, years) == MineYears(store, pass', years)
    decreases |years|
  {
    if |years| > 0 {
      MineYearsCongruent(store, pass, pass', years[..|years| - 1]);
    }
  }

  /** `DBLPMiner.mine` as a function of the cache contents. */
  function MineRun(store: map<string, string>, env: Env, name: string, findCitations: bool,
                   limit: int, skip: int): (r: Step<Progress>)
    ensures AllTitled(r.val.written)
  {
    var index := IndexStage(store, env, DblpLink(name));
    if index.val.None? then Step(Progress([], None, true), index.store, index.requested)
    else
      var run := MineYears(index.store, YearStep(env, findCitations), Window(index.val.value, skip, limit));
      Step(run.val, run.store, index.requested + run.requested)
  }

  // ---------------------------------------------------------------------------
  // The miner

  /** `_extract_year_urls`; `None` stands for the exception it raises. */
  method ExtractYearUrls(cache: PageCache, env: Env, url: string) returns (years: Option<seq<string>>)
    modifies cache
    ensures var r := IndexStage(old(cache.store), env, url);
            years == r.val && cache.store == r.store
  {
    var page := cache.UrlRead(env.net, url);
    if page.None? {
      return None;
    }
    var keyword := Keyword(url);
    if keyword.None? {
      return None;
    }
    years := YearUrls(env.heads(page.value), keyword.value);
  }

  /** `_extract_paper_xml_urls`; `None` stands for the exception it raises. */
  method ExtractPaperXmlUrls(cache: PageCache, env: Env, url: string) returns (urls: Option<seq<string>>)
    modifies cache
    ensures var r := YearPageStage(old(cache.store), env, url);
            urls == r.val && cache.store == r.store
  {
    var page := cache.UrlRead(env.net, url);
    if page.None? {
      return None;
    }
    urls := PaperXmlUrls(env.anchors(page.value));
  }

  /** `_extract_xml_from_url`; `None` stands for the exception it raises. */
  method ExtractXmlFromUrl(cache: PageCache, env: Env, url: string) returns (doc: Option<Value>)
    modifies cache
    ensures var r := XmlDoc(old(cache.store), env, url);
            doc == r.val && cache.store == r.store
  {
    var page := cache.UrlRead(env.net, url);
    if page.None? {
      return None;
    }
    doc := env.xml(page.value);
  }

  /** The `map` over `paper_xml_urls` inside the `try`. */
  method ReadXmlDicts(cache: PageCache, env: Env, urls: seq<string>) returns (docs: Option<seq<Value>>)
    modifies cache
    ensures var r := MapReads(old(cache.store), urls, XmlStep(env));
            docs == r.val && cache.store == r.store
  {
    ghost var s0 := cache.store;
    var acc: seq<Value> := [];
    var i := 0;
    while i < |urls|
      invariant 0 <= i <= |urls|
      invariant var r := MapReads(s0, urls[..i], XmlStep(env));
                r.val == Some(acc) && r.store == cache.store
    {
      var doc := ExtractXmlFromUrl(cache, env, urls[i]);
      assert urls[..i + 1][..i] == urls[..i];
      if doc.None? {
        MapReadsStopAtFailure(s0, urls, XmlStep(env), i + 1);
        return None;
      }
      acc := acc + [doc.value];
      i := i + 1;
    }
    assert urls[..i] == urls;
    docs := Some(acc);
  }

  /** The `map` of `CiteSeerMiner().mine` over the kept records. */
  method ResolveTitles(cache: PageCache, env: Env, recs: seq<Value>) returns (cites: Option<seq<CiteSeer.Resolution>>)
    modifies cache
    ensures var r := MapReads(old(cache.store), recs, ResolveStep(env));
            cites == r.val && cache.store == r.store
  {
    ghost var s0 := cache.store;
    var acc: seq<CiteSeer.Resolution> := [];
    var i := 0;
    while i < |recs|
      invariant 0 <= i <= |recs|
      invariant var r := MapReads(s0, recs[..i], ResolveStep(env));
                r.val == Some(acc) && r.store == cache.store
    {
      var res := CiteSeer.Mine(cache, env, env.translit(TitleOf(recs[i])));
      MapReadsSnoc(s0, recs, ResolveStep(env), i);
      if res.Crashed? {
        MapReadsStopAtFailure(s0, recs, ResolveStep(env), i + 1);
        return None;
      }
      acc := acc + [res];
      i := i + 1;
    }
    assert recs[..i] == recs;
    cites := Some(acc);
  }

  /** One pass of the year loop of `DBLPMiner.mine`. */
  method ProcessYear(cache: PageCache, env: Env, findCitations: bool,
                     previous: Option<seq<Value>>, yearUrl: string) returns (batch: Option<seq<Value>>)
    requires previous.Some? ==> AllTitled(previous.value)
    modifies cache
    ensures var r := YearBatch(old(cache.store), env, findCitations, previous, yearUrl);
            batch == r.val && cache.store == r.store
  {
    var paperXmlUrls := ExtractPaperXmlUrls(cache, env, yearUrl);
    if paperXmlUrls.None? {
      return None;
    }
    var xmlDicts := ReadXmlDicts(cache, env, paperXmlUrls.value);
    var records := if xmlDicts.Some? then Records(xmlDicts.value) else previous;
    if records.None? {
      return None;
    }
    if !findCitations {
      return records;
    }
    var cites := ResolveTitles(cache, env, records.value);
    if cites.None? {
      return None;
    }
    var merged := MergeCitations(records.value, cites.value);
    assert merged == MergeAll(records.value, cites.value);
    batch := Some(merged);
  }

  /** The year loop of `DBLPMiner.mine`: the records written, in order,
      and whether an exception ended the loop early. */
  method MineWindow(cache: PageCache, env: Env, findCitations: bool, window: seq<string>)
    returns (written: seq<Value>, crashed: bool)
    modifies cache
    ensures var r := MineYears(old(cache.store), YearStep(env, findCitations), window);
            written == r.val.written && crashed == r.val.crashed && cache.store == r.store
  {
    ghost var s0 := cache.store;
    written := [];
    var previous: Option<seq<Value>> := None;
    var i := 0;
    while i < |window|
      invariant 0 <= i <= |window|
      invariant var r := MineYears(s0, YearStep(env, findCitations), window[..i]);
                r.val == Progress(written, previous, false) && r.store == cache.store
    {
      var batch := ProcessYear(cache, env, findCitations, previous, window[i]);
      assert window[..i + 1][..i] == window[..i];
      if batch.None? {
        MineYearsStopAtCrash(s0, YearStep(env, findCitations), window, i + 1);
        return written, true;
      }
      written := written + batch.value;
      previous := batch;
      i := i + 1;
    }
    assert window[..i] == window;
    crashed := false;
  }

  /** `DBLPMiner.mine`: the records written to the output, in order, and
      whether an exception ended the run early. */
  method Mine(cache: PageCache, env: Env, name: string, findCitations: bool, limit: int, skip: int)
    returns (written: seq<Value>, crashed: bool)
    modifies cache
    ensures var r := MineRun(old(cache.store), env, name, findCitations, limit, skip);
            written == r.val.written && crashed == r.val.crashed && cache.store == r.store
  {
    var url := DblpLink(name);
    var yearUrls := ExtractYearUrls(cache, env, url);
    if yearUrls.None? {
      return [], true;
    }
    written, crashed := MineWindow(cache, env, findCitations, Window(yearUrls.value, skip, limit));
  }

  // ---------------------------------------------------------------------------
  // Properties of a run

  /** `limit = 0` writes no record, whatever `skip` is. */
  lemma ZeroLimitWritesNothing(store: map<string, string>, env: Env, name: string, findCitations: bool, skip: int)
    ensures MineRun(store, env, name, findCitations, 0, skip).val.written == []
  {
    var index := IndexStage(store, env, DblpLink(name));
    if index.val.Some? {
      EmptyWindow(index.val.value, skip);
    }
  }

  /** One more year only appends to the output. */
  lemma YearAppends(store: map<string, string>, pass: YearPass, years: seq<string>)
    requires Sound(pass)
    requires |years| > 0
    ensures MineYears(store, pass, years[..|years| - 1]).val.written <= MineYears(store, pass, years).val.written
  {
  }

  /** Output is streamed: what the first `k` years wrote is never taken
      back by the later ones. */
  lemma {:induction false} WrittenOnlyGrows(store: map<string, string>, pass: YearPass, years: seq<string>, k: nat)
    requires Sound(pass)
    requires k <= |years|
    ensures MineYears(store, pass, years[..k]).val.written <= MineYears(store, pass, years).val.written
    decreases |years| - k
  {
    if k < |years| {
      var n := |years| - 1;
      assert years[..n][..k] == years[..k];
      WrittenOnlyGrows(store, pass, years[..n], k);
      YearAppends(store, pass, years);
    } else {
      assert years[..k] == years;
    }
  }

  /** One year without citation mining uses only the network, the year
      page parser and the XML decoder. */
  lemma YearIgnoresCiteSeer(store: map<string, string>, env: Env, previous: Option<seq<Value>>, yearUrl: string,
                            env': Env)
    requires previous.Some? ==> AllTitled(previous.value)
    requires env'.net == env.net && env'.anchors == env.anchors && env'.xml == env.xml
    ensures YearBatch(store, env, false, previous, yearUrl) == YearBatch(store, env', false, previous, yearUrl)
  {
    var page := YearPageStage(store, env, yearUrl);
    if page.val.Some? {
      MapReadsCongruent(page.store, page.val.value, XmlStep(env), XmlStep(env'));
    }
  }

  /** Without citation mining the CiteSeer side is never consulted: the
      run, the cache and the pages read do not depend on the search-page,
      citation-page and author-block parsers, on the transliteration or on
      the query quoting. */
  lemma NoCiteIgnoresCiteSeer(store: map<string, string>, env: Env, years: seq<string>, env': Env)
    requires env'.net == env.net && env'.anchors == env.anchors && env'.xml == env.xml
    ensures MineYears(store, YearStep(env, false), years) == MineYears(store, YearStep(env', false), years)
  {
    forall s: map<string, string>, p: Option<seq<Value>>, y: string | p.Some? ==> AllTitled(p.value)
      ensures YearStep(env, false)(s, p, y) == YearStep(env', false)(s, p, y)
    {
      YearIgnoresCiteSeer(s, env, p, y, env');
    }
    MineYearsCongruent(store, YearStep(env, false), YearStep(env', false), years);
  }

  /** The same for a whole run, year index included. */
  lemma NoCiteRunIgnoresCiteSeer(store: map<string, string>, env: Env, name: string, limit: int, skip: int,
                                 env': Env)
    requires env'.net == env.net && env'.heads == env.heads && env'.anchors == env.anchors && env'.xml == env.xml
    ensures MineRun(store, env, name, false, limit, skip) == MineRun(store, env', name, false, limit, skip)
  {
    var index := IndexStage(store, env, DblpLink(name));
    if index.val.Some? {
      NoCiteIgnoresCiteSeer(index.store, env, Window(index.val.value, skip, limit), env');
    }
  }
}
