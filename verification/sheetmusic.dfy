/** `SheetMusicService`: the piano-sheet images of a 1985 hymn. The main page
    and the numbered continuation pages are each read through the cache and
    otherwise downloaded; continuation pages are probed from page 1 until two
    probes in a row fail. The remote store is a finite map from path to bytes
    (a missing path is a download that throws), and whether bytes decode to an
    image is a parameter. */
module SheetMusic {
  import opened Wrappers
  import opened Text
  import opened Storage

  const CacheDirectory: string := "sheet-music"

  /** The number goes through `%03d`, so only its low 32 bits show. */
  function BaseFilename(n: int): string {
    "sheet-music/1985/PianoSheet_NewHymnal_en_" + SwiftPad3(n)
  }

  function MainPath(n: int): string {
    BaseFilename(n) + ".png"
  }

  function MainKey(n: int): string {
    SwiftPad3(n) + ".png"
  }

  function PagePath(n: int, p: nat): string {
    BaseFilename(n) + "_" + NatToString(p) + ".png"
  }

  function PageKey(n: int, p: nat): string {
    SwiftPad3(n) + "_" + NatToString(p) + ".png"
  }

  /** Every page of a hymn has its own cache key and remote path, and none
      of them is the main page's. */
  lemma PageNamesDistinct(n: int, p: nat, q: nat)
    ensures PageKey(n, p) != MainKey(n) && PagePath(n, p) != MainPath(n)
    ensures PageKey(n, p) == PageKey(n, q) ==> p == q
    ensures PagePath(n, p) == PagePath(n, q) ==> p == q
  {
    var a, b := PageKey(n, p), PageKey(n, q);
    assert a[|SwiftPad3(n)| + 1..|a| - 4] == NatToString(p);
    assert b[|SwiftPad3(n)| + 1..|b| - 4] == NatToString(q);
    if a == b {
      NatToStringInjective(p, q);
    }
    var c, d := PagePath(n, p), PagePath(n, q);
    var m := |BaseFilename(n)| + 1;
    assert c[m..|c| - 4] == NatToString(p);
    assert d[m..|d| - 4] == NatToString(q);
    if c == d {
      NatToStringInjective(p, q);
    }
  }

  /** Two hymns share a main-page key exactly when their numbers agree in
      the low 32 bits; numbers in the 32-bit range never share one. */
  lemma MainKeyInjective(n: int, m: int)
    ensures MainKey(n) == MainKey(m) <==> (n - m) % Int32Span == 0
  {
    assert MainKey(n)[..|MainKey(n)| - 4] == SwiftPad3(n);
    assert MainKey(m)[..|MainKey(m)| - 4] == SwiftPad3(m);
    SwiftPad3Same(n, m);
  }

  /** Where the pages come from. */
  datatype Sources = Sources(cache: CacheDir, remote: map<string, Bytes>, decode: Bytes -> bool, storeSucceeds: bool)

  /** How continuation page `p` is named: its cache key and remote path. */
  datatype Naming = Naming(key: nat -> string, path: nat -> string)

  /** The naming `loadImagesAsync` uses for hymn `n`. */
  function SheetNaming(n: int): (nm: Naming)
    ensures forall p :: nm.key(p) == PageKey(n, p) && nm.path(p) == PagePath(n, p)
  {
    Naming((p: nat) => PageKey(n, p), (p: nat) => PagePath(n, p))
  }

  /** Cache first, then the remote store. */
  function Fetch(cache: CacheDir, remote: map<string, Bytes>, key: string, path: string): (r: Option<Bytes>)
    ensures r.Some? <==> key in cache || path in remote
    ensures key in cache ==> r == Some(cache[key])
    ensures key !in cache && path in remote ==> r == Some(remote[path])
  {
    if key in cache then Some(cache[key]) else if path in remote then Some(remote[path]) else None
  }

  function FetchMain(src: Sources, n: int): Option<Bytes> {
    Fetch(src.cache, src.remote, MainKey(n), MainPath(n))
  }

  function FetchPage(src: Sources, nm: Naming, p: nat): Option<Bytes> {
    Fetch(src.cache, src.remote, nm.key(p), nm.path(p))
  }

  /** A continuation page is a success when it was fetched and decodes. */
  predicate PageOk(src: Sources, nm: Naming, p: nat) {
    FetchPage(src, nm, p).Some? && src.decode(FetchPage(src, nm, p).value)
  }

  /** A decoded page; the main page is page 0. */
  datatype Image = Image(page: nat, data: Bytes)

  function MainImages(src: Sources, n: int): (r: seq<Image>)
    ensures |r| <= 1
    ensures |r| == 1 <==> FetchMain(src, n).Some? && src.decode(FetchMain(src, n).value)
    ensures |r| == 1 ==> r[0] == Image(0, FetchMain(src, n).value)
  {
    match FetchMain(src, n)
    case Some(d) => if src.decode(d) then [Image(0, d)] else []
    case None => []
  }

  /** The successful continuation pages among 1 .. hi-1. */
  function PageImages(src: Sources, nm: Naming, hi: nat): seq<Image>
    decreases hi
  {
    if hi <= 1 then []
    else if PageOk(src, nm, hi - 1) then PageImages(src, nm, hi - 1) + [Image(hi - 1, FetchPage(src, nm, hi - 1).value)]
    else PageImages(src, nm, hi - 1)
  }

  /** The images below `hi` are exactly the successful pages there, each
      with its fetched bytes, in increasing page order. */
  lemma {:induction false} PageImagesSpec(src: Sources, nm: Naming, hi: nat)
    ensures forall i :: 0 <= i < |PageImages(src, nm, hi)| ==>
              var im := PageImages(src, nm, hi)[i];
              1 <= im.page < hi && PageOk(src, nm, im.page) && im.data == FetchPage(src, nm, im.page).value
    ensures forall i, j :: 0 <= i < j < |PageImages(src, nm, hi)| ==>
              PageImages(src, nm, hi)[i].page < PageImages(src, nm, hi)[j].page
    ensures forall p :: 1 <= p < hi && PageOk(src, nm, p) ==> Image(p, FetchPage(src, nm, p).value) in PageImages(src, nm, hi)
    decreases hi
  {
    if hi > 1 {
      PageImagesSpec(src, nm, hi - 1);
      var rest := PageImages(src, nm, hi - 1);
      if PageOk(src, nm, hi - 1) {
        var r := rest + [Image(hi - 1, FetchPage(src, nm, hi - 1).value)];
        assert forall i :: 0 <= i < |rest| ==> r[i] == rest[i];
        assert r[|r| - 1] == Image(hi - 1, FetchPage(src, nm, hi - 1).value);
        assert forall x :: x in rest ==> x in r;
        assert r == PageImages(src, nm, hi);
      }
    }
  }

  /** `last` is where probing stops: it and the page before it failed, and
      no two neighbouring pages before them both failed. */
  predicate StopsAt(src: Sources, nm: Naming, last: nat) {
    && last >= 2 && !PageOk(src, nm, last - 1) && !PageOk(src, nm, last)
    && forall p :: 1 <= p && p + 1 < last ==> PageOk(src, nm, p) || PageOk(src, nm, p + 1)
  }

  /** The stopping page is determined by the pages alone. */
  lemma StopsAtUnique(src: Sources, nm: Naming, a: nat, b: nat)
    requires StopsAt(src, nm, a) && StopsAt(src, nm, b)
    ensures a == b
  {
  }

  /** How many of the pages just before `page` failed in a row, counting
      at most two. */
  function TrailingFailures(src: Sources, nm: Naming, page: nat): nat {
    if page >= 2 && !PageOk(src, nm, page - 1) then
      if page >= 3 && !PageOk(src, nm, page - 2) then 2 else 1
    else 0
  }

  /** What probing one more page adds to the images and to the run of
      failures. */
  lemma ProbeStep(src: Sources, nm: Naming, page: nat)
    requires page >= 1
    ensures PageOk(src, nm, page) ==>
              PageImages(src, nm, page + 1) == PageImages(src, nm, page) + [Image(page, FetchPage(src, nm, page).value)]
              && TrailingFailures(src, nm, page + 1) == 0
    ensures !PageOk(src, nm, page) ==>
              PageImages(src, nm, page + 1) == PageImages(src, nm, page)
              && TrailingFailures(src, nm, page + 1) == if TrailingFailures(src, nm, page) == 0 then 1 else 2
    ensures NoDoubleMiss(src, nm, page) && TrailingFailures(src, nm, page) < 2 ==> NoDoubleMiss(src, nm, page + 1)
  {
  }

  /** No two neighbouring pages before `page - 1` both failed. */
  ghost predicate NoDoubleMiss(src: Sources, nm: Naming, page: nat) {
    forall p :: 1 <= p && p + 2 < page ==> PageOk(src, nm, p) || PageOk(src, nm, p + 1)
  }

  /** Two failures in a row with none before end the probe at the page
      before `page`. */
  lemma ProbeEnd(src: Sources, nm: Naming, page: nat)
    requires NoDoubleMiss(src, nm, page) && TrailingFailures(src, nm, page) == 2
    ensures StopsAt(src, nm, page - 1)
  {
  }

  /** Distinct pages have distinct cache keys. */
  ghost predicate KeysDistinct(nm: Naming) {
    forall p, q :: p != q ==> nm.key(p) != nm.key(q)
  }

  /** From page `horizon` on, nothing is cached or stored remotely. */
  ghost predicate NothingBeyond(src: Sources, nm: Naming, horizon: nat) {
    forall p: nat :: p >= horizon ==> nm.key(p) !in src.cache && nm.path(p) !in src.remote
  }

  /** One probe's effect on the cache: bytes downloaded for page `p` are
      written under the page's key. */
  function ProbeStore(src: Sources, nm: Naming, c: CacheDir, p: nat): CacheDir {
    var key := nm.key(p);
    var data := Fetch(c, src.remote, key, nm.path(p));
    if data.Some? && key !in c then StoreOrSkip(c, key, data.value, src.storeSucceeds) else c
  }

  /** The cache after pages 1 .. k-1 were probed, starting from `c0`. */
  function CacheAfter(src: Sources, nm: Naming, c0: CacheDir, k: nat): CacheDir
    decreases k
  {
    if k <= 1 then c0 else ProbeStore(src, nm, CacheAfter(src, nm, c0, k - 1), k - 1)
  }

  /** Probing page `k` takes the cache from `CacheAfter(k)` to
      `CacheAfter(k + 1)`. */
  lemma CacheAfterStep(src: Sources, nm: Naming, c0: CacheDir, k: nat)
    requires k >= 1
    ensures CacheAfter(src, nm, c0, k + 1) == ProbeStore(src, nm, CacheAfter(src, nm, c0, k), k)
  {
  }

  /** Pages not yet probed see the cache they started with. */
  lemma {:induction false} CacheAfterAgrees(src: Sources, nm: Naming, c0: CacheDir, k: nat, q: nat)
    requires KeysDistinct(nm) && q >= k
    ensures Retrieve(CacheAfter(src, nm, c0, k), nm.key(q)) == Retrieve(c0, nm.key(q))
    decreases k
  {
    if k > 1 {
      CacheAfterAgrees(src, nm, c0, k - 1, q);
      assert nm.key(k - 1) != nm.key(q);
    }
  }

  /** Probing never overwrites a cached entry. */
  lemma {:induction false} CacheAfterKeeps(src: Sources, nm: Naming, c0: CacheDir, k: nat, key: string)
    requires key in c0
    ensures key in CacheAfter(src, nm, c0, k) && CacheAfter(src, nm, c0, k)[key] == c0[key]
    decreases k
  {
    if k > 1 {
      CacheAfterKeeps(src, nm, c0, k - 1, key);
    }
  }

  /** When cache writes succeed, every probed page that could be fetched is
      cached afterwards. */
  lemma {:induction false} CacheAfterStores(src: Sources, nm: Naming, c0: CacheDir, k: nat, p: nat)
    requires KeysDistinct(nm) && src.storeSucceeds && 1 <= p < k
    requires Retrieve(c0, nm.key(p)) == Retrieve(src.cache, nm.key(p))
    requires FetchPage(src, nm, p).Some?
    ensures nm.key(p) in CacheAfter(src, nm, c0, k)
    decreases k
  {
    if p == k - 1 {
      CacheAfterAgrees(src, nm, c0, k - 1, p);
    } else {
      CacheAfterStores(src, nm, c0, k - 1, p);
    }
  }

  /** Probing adds nothing but the keys of the probed pages. */
  lemma {:induction false} CacheAfterOnly(src: Sources, nm: Naming, c0: CacheDir, k: nat, key: string)
    requires key in CacheAfter(src, nm, c0, k)
    ensures key in c0 || exists p :: 1 <= p < k && key == nm.key(p)
    decreases k
  {
    if k > 1 {
      var prev := CacheAfter(src, nm, c0, k - 1);
      if key in prev {
        CacheAfterOnly(src, nm, c0, k - 1, key);
      } else {
        assert Retrieve(CacheAfter(src, nm, c0, k), key) != Retrieve(prev, key);
      }
    }
  }

  /** The continuation-page loop of `loadImagesAsync(for:)`, started with the
      cache as it is after the main page: from page 1 it fetches each page
      through the cache, keeps the pages that decode and stops after two
      failures in a row. Nothing exists beyond some page, which is what
      makes the loop stop. */
  method ProbePages(src: Sources, nm: Naming, cache0: CacheDir, ghost horizon: nat)
    returns (images: seq<Image>, cache: CacheDir, ghost last: nat)
    requires KeysDistinct(nm) && NothingBeyond(src, nm, horizon)
    requires forall q :: Retrieve(cache0, nm.key(q)) == Retrieve(src.cache, nm.key(q))
    ensures StopsAt(src, nm, last)
    ensures images == PageImages(src, nm, last + 1)
    ensures forall k :: k in cache0 ==> k in cache && cache[k] == cache0[k]
    ensures src.storeSucceeds ==> forall p :: 1 <= p <= last && FetchPage(src, nm, p).Some? ==> nm.key(p) in cache
    ensures forall k :: k in cache ==> k in cache0 || exists p :: 1 <= p <= last && k == nm.key(p)
  {
    images := [];
    cache := cache0;
    var page: nat := 1;
    var failures := 0;
    while failures < 2
      invariant 1 <= page && 0 <= failures <= 2
      invariant images == PageImages(src, nm, page)
      invariant failures == TrailingFailures(src, nm, page)
      invariant NoDoubleMiss(src, nm, page)
      invariant cache == CacheAfter(src, nm, cache0, page)
      invariant page <= horizon + 1 + failures
      decreases horizon + 3 - page
    {
      var data := Fetch(cache, src.remote, nm.key(page), nm.path(page));
      CacheAfterAgrees(src, nm, cache0, page, page);
      assert data == FetchPage(src, nm, page);
      ProbeStep(src, nm, page);
      CacheAfterStep(src, nm, cache0, page);
      if page >= horizon {
        assert nm.key(page) !in src.cache && nm.path(page) !in src.remote;
      }
      cache := ProbeStore(src, nm, cache, page);
      if data.Some? && src.decode(data.value) {
        images := images + [Image(page, data.value)];
        failures := 0;
      } else {
        failures := failures + 1;
      }
      page := page + 1;
    }
    last := page - 1;
    ProbeEnd(src, nm, page);
    ProbedCache(src, nm, cache0, page);
    forall k | k in cache ensures k in cache0 || exists p :: 1 <= p <= last && k == nm.key(p) {
      CacheAfterOnly(src, nm, cache0, page, k);
    }
  }

  /** After probing up to `k`, the cache still holds everything it held and,
      when writes succeed, every probed page that could be fetched. */
  lemma ProbedCache(src: Sources, nm: Naming, c0: CacheDir, k: nat)
    requires KeysDistinct(nm)
    requires forall q :: Retrieve(c0, nm.key(q)) == Retrieve(src.cache, nm.key(q))
    ensures forall key :: key in c0 ==> key in CacheAfter(src, nm, c0, k) && CacheAfter(src, nm, c0, k)[key] == c0[key]
    ensures src.storeSucceeds ==>
              forall p :: 1 <= p < k && FetchPage(src, nm, p).Some? ==> nm.key(p) in CacheAfter(src, nm, c0, k)
  {
    forall key | key in c0 ensures key in CacheAfter(src, nm, c0, k) && CacheAfter(src, nm, c0, k)[key] == c0[key] {
      CacheAfterKeeps(src, nm, c0, k, key);
    }
    if src.storeSucceeds {
      forall p | 1 <= p < k && FetchPage(src, nm, p).Some? ensures nm.key(p) in CacheAfter(src, nm, c0, k) {
        CacheAfterStores(src, nm, c0, k, p);
      }
    }
  }

  datatype SheetError = NotFound(hymn: int)

  /** The longest text in a finite set. */
  ghost function MaxLen(keys: set<string>): (m: nat)
    ensures forall k :: k in keys ==> |k| <= m
    decreases |keys|
  {
    if keys == {} then 0
    else
      var k :| k in keys;
      var rest := MaxLen(keys - {k});
      if |k| > rest then |k| else rest
  }

  /** A hymn's pages have distinct keys, and pages far enough out have keys
      and paths longer than anything stored, so they do not exist. */
  lemma SheetNamingFinite(src: Sources, n: int) returns (horizon: nat)
    ensures KeysDistinct(SheetNaming(n)) && NothingBeyond(src, SheetNaming(n), horizon)
  {
    horizon := Pow10(MaxLen(src.cache.Keys + src.remote.Keys));
    forall p: nat, q: nat | p != q ensures PageKey(n, p) != PageKey(n, q) {
      PageNamesDistinct(n, p, q);
    }
    forall p: nat | p >= horizon ensures PageKey(n, p) !in src.cache && PagePath(n, p) !in src.remote {
      NatToStringLength(p, MaxLen(src.cache.Keys + src.remote.Keys));
    }
  }

  /** `loadImagesAsync(for:)`. Without a main page nothing else is tried and
      the hymn is not found. Otherwise the result is the decoded main page
      followed by the successful continuation pages in page order, up to the
      first two neighbouring failures; an empty result is an error. Every
      page fetched from the remote store is written to the cache when the
      write succeeds, nothing already cached is changed, and nothing but the
      main page and the probed pages is added. */
  method LoadImages(n: int, src: Sources) returns (r: Result<seq<Image>, SheetError>, cache: CacheDir, ghost last: nat)
    ensures FetchMain(src, n).None? ==> r == Err(NotFound(n)) && cache == src.cache
    ensures FetchMain(src, n).Some? ==>
              && StopsAt(src, SheetNaming(n), last)
              && (r.Ok? <==> |MainImages(src, n) + PageImages(src, SheetNaming(n), last + 1)| > 0)
              && (r.Ok? ==> r.value == MainImages(src, n) + PageImages(src, SheetNaming(n), last + 1))
    ensures r.Err? ==> r == Err(NotFound(n))
    ensures r.Ok? ==> |r.value| > 0
    ensures forall k :: k in src.cache ==> k in cache && cache[k] == src.cache[k]
    ensures src.storeSucceeds && FetchMain(src, n).Some? ==> MainKey(n) in cache
    ensures src.storeSucceeds && FetchMain(src, n).Some? ==>
              forall p :: 1 <= p <= last && FetchPage(src, SheetNaming(n), p).Some? ==> PageKey(n, p) in cache
    ensures forall k :: k in cache ==> k in src.cache || k == MainKey(n) || exists p :: 1 <= p <= last && k == PageKey(n, p)
  {
    last := 0;
    var main := Fetch(src.cache, src.remote, MainKey(n), MainPath(n));
    if main.None? {
      return Err(NotFound(n)), src.cache, last;
    }
    var nm := SheetNaming(n);
    var afterMain := src.cache;
    if MainKey(n) !in src.cache {
      forall q ensures Retrieve(StoreOrSkip(src.cache, MainKey(n), main.value, src.storeSucceeds), nm.key(q))
                       == Retrieve(src.cache, nm.key(q)) {
        PageNamesDistinct(n, q, q);
      }
      afterMain := StoreOrSkip(src.cache, MainKey(n), main.value, src.storeSucceeds);
    }
    ghost var horizon := SheetNamingFinite(src, n);
    var pages;
    pages, cache, last := ProbePages(src, nm, afterMain, horizon);
    var images := MainImages(src, n) + pages;
    if |images| == 0 {
      r := Err(NotFound(n));
    } else {
      r := Ok(images);
    }
  }

  /** The published state of the service. */
  datatype SheetState = SheetState(
    currentSheetMusic: Option<seq<Image>>,
    currentHymnKey: Option<int>,
    isLoading: bool,
    error: Option<SheetError>)

  /** The hymn's images are already on display. */
  predicate Showing(st: SheetState, n: int) {
    st.currentSheetMusic.Some? && st.currentHymnKey == Some(n)
  }

  /** `getSheetMusic(for:)`: the images already on display are returned as
      they are; otherwise they are loaded, and on success they and the hymn
      number are published, while a failure records the error and keeps the
      previous images. A load's images and cache are those of
      `loadImagesAsync`. Loading is over on either exit, and after a success
      the same hymn is served from memory. */
  method GetSheetMusic(st: SheetState, n: int, src: Sources)
    returns (r: Result<seq<Image>, SheetError>, st': SheetState, cache: CacheDir, ghost last: nat)
    ensures Showing(st, n) ==> r == Ok(st.currentSheetMusic.value) && st' == st && cache == src.cache
    ensures !Showing(st, n) && r.Ok? ==> st' == SheetState(Some(r.value), Some(n), false, None) && |r.value| > 0
    ensures !Showing(st, n) && r.Err? ==> st' == st.(isLoading := false, error := Some(r.error)) && r.error == NotFound(n)
    ensures r.Ok? ==> Showing(st', n)
    ensures !Showing(st, n) && FetchMain(src, n).None? ==> r == Err(NotFound(n)) && cache == src.cache
    ensures !Showing(st, n) && FetchMain(src, n).Some? ==>
              && StopsAt(src, SheetNaming(n), last)
              && (r.Ok? <==> |MainImages(src, n) + PageImages(src, SheetNaming(n), last + 1)| > 0)
              && (r.Ok? ==> r.value == MainImages(src, n) + PageImages(src, SheetNaming(n), last + 1))
    ensures forall k :: k in src.cache ==> k in cache && cache[k] == src.cache[k]
    ensures !Showing(st, n) && src.storeSucceeds && FetchMain(src, n).Some? ==>
              && MainKey(n) in cache
              && forall p :: 1 <= p <= last && FetchPage(src, SheetNaming(n), p).Some? ==> PageKey(n, p) in cache
    ensures forall k :: k in cache ==> k in src.cache || k == MainKey(n) || exists p :: 1 <= p <= last && k == PageKey(n, p)
  {
    last := 0;
    if Showing(st, n) {
      return Ok(st.currentSheetMusic.value), st, src.cache, last;
    }
    var loading := st.(isLoading := true, error := None);
    var images;
    images, cache, last := LoadImages(n, src);
    match images
    case Ok(imgs) =>
      st' := loading.(currentSheetMusic := Some(imgs), currentHymnKey := Some(n), isLoading := false);
      r := images;
    case Err(e) =>
      st' := loading.(error := Some(e), isLoading := false);
      r := images;
  }

  /** `sheetMusicExists(for:)` answers yes for every hymn without looking. */
  function SheetMusicExists(n: int): (b: bool)
    ensures b
  {
    true
  }

  /** The pages of the example below: the main page and page 1 are found,
      pages 2 and 3 are not. */
  lemma ExamplePages(src: Sources, n: int, main: Bytes, first: Bytes)
    requires src.cache == map[] && forall b :: src.decode(b)
    requires src.remote == map[MainPath(n) := main, PagePath(n, 1) := first]
    ensures FetchMain(src, n) == Some(main)
    ensures FetchPage(src, SheetNaming(n), 1) == Some(first)
    ensures PageOk(src, SheetNaming(n), 1)
    ensures !PageOk(src, SheetNaming(n), 2) && !PageOk(src, SheetNaming(n), 3)
  {
    PageNamesDistinct(n, 1, 1);
    PageNamesDistinct(n, 2, 1);
    PageNamesDistinct(n, 3, 1);
  }

  /** When page 1 decodes and pages 2 and 3 fail, probing stops after page 3
      with page 1 as the only continuation image. */
  lemma StopsAfterThree(src: Sources, nm: Naming, first: Bytes, last: nat)
    requires FetchPage(src, nm, 1) == Some(first) && src.decode(first)
    requires !PageOk(src, nm, 2) && !PageOk(src, nm, 3)
    requires StopsAt(src, nm, last)
    ensures last == 3
    ensures PageImages(src, nm, last + 1) == [Image(1, first)]
  {
    assert PageOk(src, nm, 1);
    assert StopsAt(src, nm, 3);
    StopsAtUnique(src, nm, 3, last);
    ProbeStep(src, nm, 1);
    ProbeStep(src, nm, 2);
    ProbeStep(src, nm, 3);
  }

  /** Example: the main page and page 1 are on the server and pages 2 and 3
      are not. Probing stops after page 3 and two images come back. */
  lemma TwoPageExample(src: Sources, n: int, main: Bytes, first: Bytes, last: nat)
    requires src.cache == map[] && forall b :: src.decode(b)
    requires src.remote == map[MainPath(n) := main, PagePath(n, 1) := first]
    requires StopsAt(src, SheetNaming(n), last)
    ensures last == 3
    ensures MainImages(src, n) + PageImages(src, SheetNaming(n), last + 1) == [Image(0, main), Image(1, first)]
  {
    ExamplePages(src, n, main, first);
    StopsAfterThree(src, SheetNaming(n), first, last);
  }
}
