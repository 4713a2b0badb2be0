# pubminer: a Dafny model of the miner's selection and caching rules

`miner.py` builds a bibliography for one conference. It reads the venue's
DBLP index page and picks the year pages off it. From each year page in the
window `[skip : skip + limit]` it takes the XML record of every paper. It
unwraps each record from its two envelope elements and keeps it when its
title is text. It can then ask CiteSeer which papers cite it. Every page is
read through a file cache keyed by a path derived from the URL.

The model keeps the rules that decide what is fetched, kept and written. The
network, the HTML and XML parsers, `unidecode` and `urllib.quote_plus` are
oracles, carried as the function fields of `Pages.Env`.

Modules:

- `Wrappers` holds `Option` and `AllSome`, the all-or-nothing collection of
  a list of options. It models a `map` whose function raises on one element.
- `PyStr` holds the Python 2 string and list operations the miner uses on
  ASCII text: slicing with Python bounds, `in`, `lower`, `strip`, `split`,
  `join`, `filter` and `itertools.chain`.
- `Pages` holds what the parsers hand back: `div.head` blocks, links, the
  first search hit, and xmltodict values.
- `Cache` holds `url_to_cache_path` and the class `PageCache`. The class
  keeps the cache directory as a `map` from path to file text. Its methods
  `ReadCache`, `CachePage` and `UrlRead` follow `read_cache`, `cache_page`
  and `url_read`.
  - `ReadThrough` states what one `url_read` does to the cache contents.
  - `MapReads` runs a page-reading stage over a list. It threads the cache
    from one call to the next and stops at the first exception.
- `CiteSeer` holds the title match, the citation-URL filter, the author-line
  parser and `CiteSeerMiner.mine`.
- `Dblp` holds the year and paper-address extraction, the year window, the
  record filter, the citation merge and `DBLPMiner.mine`.

Each method that reads pages changes its `PageCache` in place. Its
postcondition equates its result and the new cache contents with a function
of the old contents (`IndexStage`, `FindPaper`, `MapReads`, `MineYears`,
`MineRun`, …). The properties are then proved about those functions.

An exception that escapes is modelled explicitly:

- a stage returns `None` for it;
- `CiteSeerMiner.mine` returns `Crashed`;
- `DBLPMiner.mine` returns the `crashed` flag together with the records
  already written.

## Model

| member | source | states |
|---|---|---|
| Wrappers.AllSome | miner.py:122 | all values when every option holds one, value `i` from option `i`; nothing as soon as one is missing (the exception a `map` raises on one element) |
| Cache.UrlToCachePath | miner.py:27-31 | every cache path starts with `cache/` |
| Cache.PathOfHttpUrl | miner.py:29-31 | a URL starting with `http://` is cached under the rest of the URL |
| Cache.PathOfPlainUrl | miner.py:29-31 | a URL without `http://` anywhere in it is cached under itself |
| Cache.PathsCollide | miner.py:29-31 | `http://a` and `a` share the cache entry `cache/a` |
| Cache.PathOfSchemeAnywhere | miner.py:29-31 | wherever `http://` occurs in a URL, the path is `cache/` followed by the URL without its first seven characters |
| Cache.SchemeTestedAnywhere | miner.py:29-30 | an `http://` that is not at the start still makes the first seven characters go, so `https://x/http://y` maps to `cache//x/http://y` |
| Cache.PageCache.ReadCache | miner.py:33-39 | the text stored at the URL's path, and `None` exactly when no file is at that path |
| Cache.PageCache.CachePage | miner.py:41-53 | the file at the URL's path afterwards holds the page and a newline; no other path changes |
| Cache.ReadThrough | miner.py:55-69 | a non-empty cached entry is returned and the cache is unchanged; otherwise the network's answer is returned; a page fetched from the network is stored with a trailing newline; a failed fetch changes nothing |
| Cache.PageCache.UrlRead | miner.py:55-69 | the page returned and the new cache contents are those of `ReadThrough` on the old contents |
| Cache.ReadKeepsEntries | miner.py:55-69 | a read adds or changes at most the URL's own path, and never overwrites a non-empty entry |
| Cache.ReadThenHit | miner.py:52-65 | after a successful read the URL hits, whatever the network does; a page that came from the network comes back with an extra newline |
| Cache.MapReads | miner.py:97 | an element stage mapped over a list, the cache threaded from one call to the next; when nothing raised there is one result per element (`MapReadsStopAtFailure` and `MapReadsRequested` state the stop and the order) |
| Cache.MapReadsStopAtFailure | miner.py:97 | once an element of a `map` has raised, later elements are not read |
| Cache.MapReadsRequested | miner.py:158 | when each element reads its own URL, the URLs read are a prefix of the list, and the whole list when nothing raised |
| PyStr.ContainsAt | miner.py:29 | `sub in s` holds exactly when `sub` occurs at some index of `s` |
| PyStr.Contains | miner.py:121 | `sub in s`; `ContainsAt` proves it holds exactly when `sub` occurs at some index |
| PyStr.Drop | miner.py:181 | `s[k:]` for a non-negative `k`: `len(s) - k` characters, or none when `k` passes the end, character `i` being `s[k + i]` |
| PyStr.Lower | miner.py:143 | same length; each of `A`–`Z` becomes the letter 32 code points above it, every other character is kept, so no upper-case letter is left |
| PyStr.LowerIdempotent | miner.py:143 | lower-casing twice is lower-casing once |
| PyStr.PySlice | miner.py:91 | the slice is the stretch between the normalised bounds, or empty when they cross |
| PyStr.SliceNonNegative | miner.py:91 | with non-negative bounds a slice is the stretch between the bounds, cut off at the end |
| PyStr.SliceLength | miner.py:158 | a slice holds no more elements than its bounds are apart |
| PyStr.Split | miner.py:181 | one more piece than there are separators, and no piece contains the separator |
| PyStr.JoinSplit | miner.py:181 | joining the pieces of a split gives the string back |
| PyStr.SplitJoin | miner.py:181 | splitting a join of separator-free pieces gives the pieces back |
| PyStr.Join | miner.py:181 | `sep.join(parts)`; `JoinSplit` and `SplitJoin` prove it the inverse of `split` on separator-free pieces |
| PyStr.Strip | miner.py:181 | the result is a stretch `s[i..j]` of the input with only whitespace before `i` and after `j`, and no whitespace at either of its own ends; it is empty exactly when the input is all whitespace |
| PyStr.Words | miner.py:181 | the words are non-empty and hold no whitespace |
| PyStr.WordsOfWord | miner.py:181 | a non-empty string without whitespace splits into itself alone |
| PyStr.WordsSplitAtSpace | miner.py:181 | a whitespace character splits a string's words in two: `split(a + c + b) == split(a) + split(b)` |
| PyStr.WordsKeepNonSpace | miner.py:181 | chaining the words gives exactly the non-whitespace characters of the input, in order |
| PyStr.StripOfWord | miner.py:181 | a whitespace-free string strips to itself, also after one leading space |
| PyStr.JoinNoSpace | miner.py:181 | joining whitespace-free pieces with a non-whitespace separator leaves no whitespace |
| PyStr.Collapse | miner.py:181 | the collapsed text has no whitespace at either end |
| PyStr.WordsOfJoin | miner.py:181 | splitting a space-join of words gives the words back |
| PyStr.CollapseKeepsWords | miner.py:181 | the collapsed text has the same words as the input, and collapsing it again changes nothing |
| PyStr.JoinSpaces | miner.py:181 | a space-join of words is single-spaced |
| PyStr.CollapseSpaces | miner.py:181 | the only whitespace left by collapsing is single spaces, each between two non-whitespace characters |
| PyStr.Filter | miner.py:121-124 | the kept elements are exactly those that pass the test, in their original order |
| PyStr.FilterMultiplicity | miner.py:102 | an element that passes the test is kept as many times as it occurs; any other is dropped |
| PyStr.FilterIdempotent | miner.py:102 | filtering a filtered list changes nothing |
| PyStr.FlattenCons | miner.py:159 | chaining a group in front of others puts its elements first: `chain([a] + gs) == a + chain(gs)` |
| PyStr.FlattenPair | miner.py:158-159 | chaining at most two groups is their concatenation |
| PyStr.FlattenMembers | miner.py:159 | the chained list holds exactly the members of the groups |
| PyStr.Flatten | miner.py:159 | `itertools.chain(*groups)`; `FlattenCons`, `FlattenPair` and `FlattenMembers` state its order and members |
| Dblp.DblpLink | miner.py:73 | the index URL starts with the DBLP conference prefix |
| Dblp.LastIndex | miner.py:120 | the index of the last occurrence of a character, or `None` when it does not occur |
| Dblp.Keyword | miner.py:120 | `rsplit('/', 2)[1]` exists exactly when the URL has a slash, and holds no slash |
| Dblp.KeywordOfTwoSlashes | miner.py:120 | with `/kw/t` at the end of the URL and no slash in `kw` or `t`, the keyword is `kw` |
| Dblp.KeywordOfOneSlash | miner.py:120 | with exactly one slash, the keyword is everything after it |
| Dblp.KeywordOfDblpLink | miner.py:73-84 | for a venue name without a slash, the keyword of its index URL is the name |
| Dblp.Flagged | miner.py:123 | a `div.head` block carrying the year-link image; `FlaggedHrefs` and `FlaggedHrefsMember` state what the year stage takes from such blocks |
| Dblp.FlaggedHrefs | miner.py:122-124 | the flagged blocks' links are collected exactly when every flagged block has a link; then there is one per flagged block, and string `i` is the `i`-th flagged block's first link, in page order |
| Dblp.FlaggedHrefsMember | miner.py:122-124 | a string is among the flagged links exactly when some flagged block links to it first |
| Dblp.YearUrls | miner.py:121-124 | the year URLs exist when the flagged links do, and every one contains the keyword |
| Dblp.YearUrlsExact | miner.py:117-124 | the year URLs are an in-order subsequence of the flagged blocks' first links; a URL is one exactly when it contains the keyword and is a flagged block's first link, and it is one as many times as it is a flagged link |
| Dblp.IsXmlLink | miner.py:130 | a link whose visible text contains `XML`; `PaperXmlUrls` and `PaperXmlUrlsExact` state which targets that selects |
| Dblp.PaperXmlUrls | miner.py:129-131 | defined exactly when every link whose text contains `XML` has an `href`; URL `i` is the target of the `i`-th such link in page order |
| Dblp.PaperXmlUrlsExact | miner.py:126-131 | a URL is a paper URL exactly when it is the target of a link whose text contains `XML` |
| Dblp.Window | miner.py:91 | `year_urls[skip : skip + limit]`: never longer than the year list, and only years from it; `WindowExact`, `EmptyWindow` and `NegativeLimit` pin it down |
| Dblp.WindowExact | miner.py:91 | for non-negative options the window is `years[skip .. min(skip + limit, n)]`, empty when `limit = 0` or `skip >= n`, and never longer than `limit` |
| Dblp.EmptyWindow | miner.py:91 | `limit = 0` selects no year, whatever `skip` is |
| Dblp.NegativeLimit | miner.py:91 | `limit = -1` leaves out only the last year |
| Dblp.Get | miner.py:107 | a value found under a key is a field of the dictionary |
| Dblp.GetFindsFirst | miner.py:102-107 | a lookup fails exactly when the value is not a dictionary or has no field with the key; otherwise it returns the value of the first such field |
| Dblp.TitleIsText | miner.py:102 | `isinstance(x['title'], unicode)`, `None` when the lookup raises; `TitleIsTextFields` states it |
| Dblp.TitleIsTextFields | miner.py:102 | the title test raises exactly when the record is not a dictionary or has no `title` field, and passes exactly when the first `title` field holds text |
| Dblp.KeepTitled | miner.py:102 | the filter raises exactly when some record has no title; otherwise it keeps, in order, exactly the dictionaries whose title is text, each as many times as it occurs |
| Dblp.KeepTitledIdempotent | miner.py:102 | filtering the kept records again keeps all of them |
| Dblp.Records | miner.py:102-103 | kept records are titled dictionaries, and are produced only when every document has both envelopes |
| Dblp.UnwrapAll | miner.py:103 | unwrapping succeeds exactly when every document has both envelopes; record `i` comes from document `i` |
| Dblp.RecordsExact | miner.py:102-103 | the kept records are the unwrapped records whose title is text, in document order and with their multiplicities |
| Dblp.Unwrap | miner.py:103 | `x.values()[0].values()[0]`, `None` when an envelope is missing; `UnwrapAll` states its use over the documents |
| Dblp.Put | miner.py:110 | after `d[key] = v` the key maps to `v`, other keys are unchanged, and a field is added only for a new key |
| Dblp.CitationValue | miner.py:110 | a JSON list whose `i`-th string is the `i`-th author |
| Dblp.Merge | miner.py:109-110 | `citations` is set exactly when the resolver found a non-empty author list; no other field changes |
| Dblp.MergeKeepsTitle | miner.py:109-110 | the merge leaves the title alone |
| Dblp.MergeCitations | miner.py:107-110 | the same number of records, record `i` merged with the `i`-th result, all still titled |
| Dblp.IndexStage | miner.py:117-124 | reading the index page requests exactly the index URL |
| Dblp.YearPageStage | miner.py:126-131 | reading a year page requests exactly the year URL |
| Dblp.XmlDoc | miner.py:133-135 | reading an XML record requests exactly its URL |
| Dblp.ResolveTitle | miner.py:107 | the resolver's result for a title, `None` exactly when an exception escaped it |
| Dblp.MergeAll | miner.py:108-110 | record `i` is merged with the `i`-th resolver result; the count of records and their titles are kept |
| Dblp.YearBatch | miner.py:93-110 | a year's batch, when there is one, is made of titled records |
| Dblp.FailedXmlReusesPrevious | miner.py:96-110 | when an XML read fails, the run stops at the first year; later, without citations the previous batch is written again, and with citations its titles are resolved again and the results merged into it |
| Dblp.YearStep | miner.py:91-113 | the year pass may follow any batch of titled records and yields titled records |
| Dblp.MineYears | miner.py:91-113 | everything written and the last batch are titled records |
| Dblp.MineYearsStopAtCrash | miner.py:91-113 | once a year has raised, no later year is processed |
| Dblp.MineRun | miner.py:78-115 | every record written is a dictionary with a text title |
| Dblp.ExtractYearUrls | miner.py:117-124 | result and cache are those of `IndexStage` |
| Dblp.ExtractPaperXmlUrls | miner.py:126-131 | result and cache are those of `YearPageStage` |
| Dblp.ExtractXmlFromUrl | miner.py:133-135 | result and cache are those of `XmlDoc` |
| Dblp.ReadXmlDicts | miner.py:96-97 | the documents, in order, and the cache are those of `MapReads` of `XmlDoc` |
| Dblp.ResolveTitles | miner.py:107 | the resolver results, in order, and the cache are those of `MapReads` of `ResolveTitle` |
| Dblp.ProcessYear | miner.py:93-113 | the batch written for one year and the cache are those of `YearBatch` |
| Dblp.MineWindow | miner.py:91-113 | the records written, the crash flag and the cache are those of `MineYears` over the window |
| Dblp.Mine | miner.py:78-115 | the records written, the crash flag and the cache are those of `MineRun` |
| Dblp.ZeroLimitWritesNothing | miner.py:91 | `limit = 0` writes no record |
| Dblp.WrittenOnlyGrows | miner.py:91-113 | what the first `k` years wrote is a prefix of what the whole window writes |
| Dblp.YearIgnoresCiteSeer | miner.py:93-106 | without citation mining a year depends only on the network, the year-page parser and the XML decoder |
| Dblp.NoCiteIgnoresCiteSeer | miner.py:91-113 | without citation mining the year loop never consults CiteSeer's parsers, the transliteration or the quoting |
| Dblp.NoCiteRunIgnoresCiteSeer | miner.py:78-115 | the same holds for a whole run, year index included |
| CiteSeer.SearchLink | miner.py:139 | the search URL starts with the CiteSeer domain |
| CiteSeer.HalfPrefixMatch | miner.py:166 | with `n = len(query) / 2`: accepted exactly when the candidate has at least `n` characters and its first `n` agree with the query's |
| CiteSeer.MatchesItself | miner.py:166 | every title matches itself |
| CiteSeer.ShortQueryMatchesAll | miner.py:166 | a query of 0 or 1 characters accepts every candidate |
| CiteSeer.ExtensionMatches | miner.py:166 | a candidate that extends the query is accepted |
| CiteSeer.TruncationMatches | miner.py:166 | a prefix of the query with at least half its length is accepted |
| CiteSeer.MatchIsNotSymmetric | miner.py:166 | `ab` accepts `abcdef`, but `abcdef` rejects `ab` |
| CiteSeer.MatchExamples | miner.py:166 | a longer title with the same first half is accepted, an unrelated one rejected |
| CiteSeer.PaperUrl | miner.py:164-171 | a URL comes back exactly when a result link with an `href` is found and its stripped, lower-cased, transliterated text matches; the URL is the domain followed by the `href` |
| CiteSeer.Prefixed | miner.py:176 | every `href` is prefixed with the domain, in order |
| CiteSeer.IsDocumentLink | miner.py:175 | a URL containing `/viewdoc/`; `CitationUrls`, `DomainIsNeutral` and `CitationUrlsKept` state which URLs it keeps |
| CiteSeer.CitationUrls | miner.py:173-176 | defined exactly when the citations block exists and every anchor has an `href`; every URL starts with the domain and contains `/viewdoc/` |
| CiteSeer.DomainIsNeutral | miner.py:175-176 | a prefixed URL contains `/viewdoc/` exactly when its `href` does |
| CiteSeer.CitationUrlsKept | miner.py:173-176 | an `href` is kept exactly when it contains `/viewdoc/`, as many times as it is listed, and the kept URLs stay in page order |
| CiteSeer.StripAll | miner.py:181 | each piece is stripped, in order |
| CiteSeer.AuthorLine | miner.py:181 | the whitespace-collapsed text without its first two characters; `TaggedLine` gives it on a well-formed line |
| CiteSeer.ParseAuthors | miner.py:178-183 | a missing author block gives `[]`; otherwise one name per comma of the collapsed line with its first two characters dropped, plus one; name `i` is piece `i` of that line stripped, so no name holds a comma or starts or ends with whitespace |
| CiteSeer.CollapseTwoWords | miner.py:181 | two whitespace-free words with one space between them are already collapsed |
| CiteSeer.TaggedLine | miner.py:181 | a two-character label, a space and a whitespace-free rest give the author line `" " + rest` |
| CiteSeer.SplitAfterSpace | miner.py:181 | splitting a space followed by a comma-join of comma-free names gives the names, the first with the space in front |
| CiteSeer.AuthorPieces | miner.py:181 | the comma-separated pieces of a well-formed author line are its names, the first keeping the space after the label |
| CiteSeer.StripPieces | miner.py:181 | stripping those pieces gives the names back |
| CiteSeer.ParseAuthorsRoundTrip | miner.py:178-183 | a page whose author text is a two-character label, a space and comma-separated names without whitespace parses back to exactly those names, in order |
| CiteSeer.FindPaper | miner.py:161-171 | one page is read, and a found URL starts with the domain |
| CiteSeer.FindCitations | miner.py:173-176 | only the paper's page is read, and every URL listed is a document link on the domain |
| CiteSeer.CitingAuthors | miner.py:178-183 | reading a citing document requests exactly its URL |
| CiteSeer.CitingReads | miner.py:158 | at most two citing documents are read, and they are the first ones listed |
| CiteSeer.ResolveReadsAtMostFour | miner.py:142-159 | at most four pages are read per title, and the search page comes first |
| CiteSeer.ResolveReadsFirstCitations | miner.py:153-158 | the citing documents read are the first document links of the paper's page, in order |
| CiteSeer.NoResultMeansNotFound | miner.py:145-149 | when the search page read for this title cannot be read or has no result, the answer is `None`, after one page read |
| CiteSeer.FoundFlattensGroups | miner.py:158-159 | a found answer is the chained author groups of the citing documents read, at most two |
| CiteSeer.FoundAuthors | miner.py:158-159 | the authors returned are the first citing document's authors followed by the second's (none, one or two documents) |
| CiteSeer.ResolveOutcomes | miner.py:142-159 | `None` exactly when no paper URL is found or listing the citations raises; an escaped exception only from reading a citing document |
| CiteSeer.Resolve | miner.py:142-159 | `CiteSeerMiner.mine` on the cache contents; `ResolveReadsAtMostFour`, `ResolveReadsFirstCitations`, `NoResultMeansNotFound`, `FoundAuthors` and `ResolveOutcomes` state what it reads and returns |
| CiteSeer.ExtractPaperUrl | miner.py:161-171 | result and cache are those of `FindPaper` |
| CiteSeer.ExtractCitationUrls | miner.py:173-176 | result and cache are those of `FindCitations` |
| CiteSeer.ExtractCitationFromUrl | miner.py:178-183 | result and cache are those of `CitingAuthors` |
| CiteSeer.ReadCitingAuthors | miner.py:158 | the author groups, in order, and the cache are those of `MapReads` of `CitingAuthors` |
| CiteSeer.Mine | miner.py:142-159 | result and cache are those of `Resolve` |

## Left out

- Network and file I/O are left out: `urlopen`, opening and creating files and directories, the stderr messages, and writing and closing the output file. The network is the oracle `Env.net`. The cache directory is a map from path to text. The output file is the sequence of records written.
- A failure to create or write a cache file is not modelled. `CachePage` always succeeds.
- BeautifulSoup, `xmltodict.parse`, `unidecode` and `urllib.quote_plus` are foreign code. Their results arrive through the fields of `Env`, so the model proves nothing about them.
- Python's `lower()`, `strip()` and `split()` are modelled on ASCII only: lower-casing affects `A`–`Z`, and whitespace is the six ASCII whitespace characters.
- JSON serialisation (`json.dumps`) is left out. The model writes the record values themselves.
- The command-line parsing at miner.py:187-198 is left out. So is the abstract base class `BibliographyMiner` (miner.py:16-22), which has no behaviour.
- Dblp.MineRun: does not state that a second run over a populated cache writes the same output. A cached page comes back with the newline `cache_page` added, so the parsers see a different text. That claim depends on the parsers, which are outside the model.
- A failed XML read does not drop the year's batch. At miner.py:96-103 `xml_dicts` keeps the previous year's documents, whose records are the previous year's batch (as merged), so that batch is processed and written again. On the first year the name is unbound and the run stops.
- The parser oracles `Env.heads`, `Env.anchors`, `Env.firstResult`, `Env.citationAnchors` and `Env.docAuthors` are total. A BeautifulSoup constructor that raises on a page is not modelled. At miner.py:119 and 128 such an exception would escape `DBLPMiner.mine`. At miner.py:179 it would escape `CiteSeerMiner.mine`. At miner.py:162 and 174 it would be caught.
- Dblp.Merge: requires a dictionary record. Only titled dictionaries reach the merge (`KeepTitled` proves it), so the `TypeError` that a non-dictionary would raise is not modelled.
