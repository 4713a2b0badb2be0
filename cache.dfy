/** The page cache: a URL is mapped to a cache path, and `url_read` answers
    from the cache when it holds non-empty text for that path, and otherwise
    reads the network and stores what it got. The directory tree under
    `cache/` is modelled as a map from path to file contents. */
module Cache {
  import opened Wrappers
  import opened PyStr
  import opened Pages

  const CacheDirectory := "cache/"
  const HttpScheme := "http://"

  /** `url_to_cache_path`: the scheme test looks for `http://` anywhere in
      the URL, but the first seven characters are what is removed. */
  function UrlToCachePath(url: string): (path: string)
    ensures IsPrefix(CacheDirectory, path)
  {
    CacheDirectory + if Contains(url, HttpScheme) then Drop(url, 7) else url
  }

  /** An `http://` URL is cached under its host and path. */
  lemma PathOfHttpUrl(rest: string)
    ensures UrlToCachePath(HttpScheme + rest) == CacheDirectory + rest
  {
    assert OccursAt(HttpScheme + rest, HttpScheme, 0);
    ContainsInfix(HttpScheme + rest, 0, HttpScheme);
  }

  /** A URL without `http://` in it is cached under itself. */
  lemma PathOfPlainUrl(url: string)
    requires !Contains(url, HttpScheme)
    ensures UrlToCachePath(url) == CacheDirectory + url
  {
  }

  /** Two different URLs can share one cache entry. */
  lemma PathsCollide()
    ensures UrlToCachePath("http://a") == UrlToCachePath("a") == "cache/a"
  {
    PathOfHttpUrl("a");
    assert !Contains("a", HttpScheme);
  }

  /** An `http://` that is not at the start still removes the first seven
      characters, whatever they are. */
  lemma SchemeTestedAnywhere()
    ensures UrlToCachePath("https://x/http://y") == "cache//x/http://y"
  {
    var u := "https://x/http://y";
    assert u[10..17] == HttpScheme;
    PathOfSchemeAnywhere(u, 10);
    assert u[7..] == "/x/http://y";
  }

  /** Wherever `http://` occurs, the first seven characters are removed. */
  lemma PathOfSchemeAnywhere(url: string, i: nat)
    requires OccursAt(url, HttpScheme, i)
    ensures UrlToCachePath(url) == CacheDirectory + url[7..]
  {
    ContainsInfix(url, i, HttpScheme);
  }

  /** Outcome of one `url_read`: the text returned (`None` when the network
      read raised) and the cache contents afterwards. */
  datatype Read = Read(page: Option<string>, store: map<string, string>)

  /** A cache entry counts as present only when it is non-empty. */
  predicate Hit(store: map<string, string>, url: string) {
    var path := UrlToCachePath(url);
    path in store && store[path] != ""
  }

  /** `url_read` as a function of the cache contents and the network. A
      fetched page is written with `print`, so the file holds it followed by
      a newline. */
  function ReadThrough(store: map<string, string>, net: Network, url: string): (r: Read)
    ensures Hit(store, url) ==> r.page == Some(store[UrlToCachePath(url)]) && r.store == store
    ensures !Hit(store, url) ==> r.page == net(url)
    ensures !Hit(store, url) && r.page.Some? ==> r.store == store[UrlToCachePath(url) := r.page.value + "\n"]
    ensures r.page.None? ==> r.store == store
  {
    var path := UrlToCachePath(url);
    if Hit(store, url) then Read(Some(store[path]), store)
    else match net(url)
      case None => Read(None, store)
      case Some(p) => Read(Some(p), store[path := p + "\n"])
  }

  /** Non-empty entries are never overwritten, and at most the URL's own
      path is added or changed. */
  lemma ReadKeepsEntries(store: map<string, string>, net: Network, url: string)
    ensures var r := ReadThrough(store, net, url);
            && r.store.Keys <= store.Keys + {UrlToCachePath(url)}
            && (forall p :: p in store && store[p] != "" ==> p in r.store && r.store[p] == store[p])
            && (forall p :: p in store && p != UrlToCachePath(url) ==> p in r.store && r.store[p] == store[p])
  {
  }

  /** After a successful read the URL is a hit, whatever the network does
      next; a page that came from the network comes back with a trailing
      newline. */
  lemma {:induction false} ReadThenHit(store: map<string, string>, net: Network, url: string, net': Network)
    requires ReadThrough(store, net, url).page.Some?
    ensures var r := ReadThrough(store, net, url);
            var again := ReadThrough(r.store, net', url);
            && again.store == r.store
            && again.page == if Hit(store, url) then r.page else Some(r.page.value + "\n")
  {
    var r := ReadThrough(store, net, url);
    assert Hit(r.store, url);
  }

  /** One stage of a mining run: its value, the cache afterwards, and the
      URLs it handed to `url_read`, in order. */
  datatype Step<T> = Step(val: T, store: map<string, string>, requested: seq<string>)

  /** A stage applied to each element in turn, the cache threaded from one
      call to the next, as a Python loop or list comprehension whose body
      reads pages and may raise: the first failure (`None`) ends it. */
  function MapReads<X, T>(store: map<string, string>, xs: seq<X>, f: (map<string, string>, X) -> Step<Option<T>>): (r: Step<Option<seq<T>>>)
    ensures r.val.Some? ==> |r.val.value| == |xs|
    decreases |xs|
  {
    if |xs| == 0 then Step(Some([]), store, [])
    else
      var done := MapReads(store, xs[..|xs| - 1], f);
      if done.val.None? then done
      else
        var last := f(done.store, xs[|xs| - 1]);
        Step(if last.val.None? then None else Some(done.val.value + [last.val.value]),
             last.store, done.requested + last.requested)
  }

  /** One more element of a run that has not failed yet. */
  lemma MapReadsSnoc<X, T>(store: map<string, string>, xs: seq<X>, f: (map<string, string>, X) -> Step<Option<T>>, i: nat)
    requires i < |xs| && MapReads(store, xs[..i], f).val.Some?
    ensures var done := MapReads(store, xs[..i], f);
            var last := f(done.store, xs[i]);
            MapReads(store, xs[..i + 1], f) ==
              Step(if last.val.None? then None else Some(done.val.value + [last.val.value]),
                   last.store, done.requested + last.requested)
  {
    assert xs[..i + 1][..i] == xs[..i];
  }

  /** Once an element has failed, later elements are not looked at. */
  lemma {:induction false} MapReadsStopAtFailure<X, T>(store: map<string, string>, xs: seq<X>, f: (map<string, string>, X) -> Step<Option<T>>, k: nat)
    requires k <= |xs|
    requires MapReads(store, xs[..k], f).val.None?
    ensures MapReads(store, xs, f) == MapReads(store, xs[..k], f)
    decreases |xs| - k
  {
    if k == |xs| {
      assert xs[..k] == xs;
    } else {
      var n := |xs| - 1;
      if k < n {
        assert xs[..n][..k] == xs[..k];
        MapReadsStopAtFailure(store, xs[..n], f, k);
      } else {
        assert xs[..n] == xs[..k];
      }
    }
  }

  /** Two stages that agree on every input give the same run. */
  lemma {:induction false} MapReadsCongruent<X, T>(store: map<string, string>, xs: seq<X>,
                                                   f: (map<string, string>, X) -> Step<Option<T>>,
                                                   g: (map<string, string>, X) -> Step<Option<T>>)
    requires forall s, x :: f(s, x) == g(s, x)
    ensures MapReads(store, xs, f) == MapReads(store, xs, g)
    decreases |xs|
  {
    if |xs| > 0 {
      MapReadsCongruent(store, xs[..|xs| - 1], f, g);
    }
  }

  /** When each element reads exactly its own URL, the URLs read are a prefix
      of the list, and all of it when no read failed. */
  lemma {:induction false} MapReadsRequested<T>(store: map<string, string>, urls: seq<string>, f: (map<string, string>, string) -> Step<Option<T>>)
    requires forall s, u :: f(s, u).requested == [u]
    ensures var r := MapReads(store, urls, f);
            && |r.requested| <= |urls| && r.requested == urls[..|r.requested|]
            && (r.val.Some? ==> r.requested == urls)
    decreases |urls|
  {
    if |urls| > 0 {
      var n := |urls| - 1;
      MapReadsRequested(store, urls[..n], f);
      var done := MapReads(store, urls[..n], f);
      assert urls[..n][..|done.requested|] == urls[..|done.requested|];
      assert urls[..n] + [urls[n]] == urls;
    }
  }

  /** The file-system cache of one run. */
  class PageCache {
    var store: map<string, string>

    constructor (initial: map<string, string>)
      ensures store == initial
    {
      store := initial;
    }

    /** `read_cache`: the file at the URL's cache path, if it exists. */
    function ReadCache(url: string): (r: Option<string>)
      reads this
      ensures r.Some? <==> UrlToCachePath(url) in store
      ensures r.Some? ==> r.value == store[UrlToCachePath(url)]
    {
      var path := UrlToCachePath(url);
      if path in store then Some(store[path]) else None
    }

    /** `cache_page`: writes the page and a newline at the URL's cache path. */
    method CachePage(url: string, page: string)
      modifies this
      ensures store == old(store)[UrlToCachePath(url) := page + "\n"]
      ensures ReadCache(url) == Some(page + "\n")
    {
      store := store[UrlToCachePath(url) := page + "\n"];
    }

    /** `url_read`: the cached text when it is non-empty, otherwise the
        network's page, which is then cached. */
    method UrlRead(net: Network, url: string) returns (page: Option<string>)
      modifies this
      ensures Read(page, store) == ReadThrough(old(store), net, url)
    {
      page := ReadCache(url);
      if page.None? || page.value == "" {
        page := net(url);
        if page.Some? {
          CachePage(url, page.value);
        }
      }
    }
  }
}
