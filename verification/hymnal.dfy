/** `HymnalService`: which hymnal is current, the hymns loaded for it (with a
    per-language cache), lookups by number and range, the recent-hymn view,
    and previous/next navigation. Reading and decoding the hymnal's JSON file
    is a parameter: the hymns the file gives, or the failure. */
module Hymnal {
  import opened Wrappers
  import opened Seqs
  import opened Languages
  import opened Hymns
  import Readings

  /** Why a load failed: the file could not be read or decoded. */
  datatype LoadError = FileUnreadable | FileUndecodable

  datatype Service = Service(
    currentLanguage: HymnalLanguage,
    hymns: seq<Hymn>,
    hymnCache: map<string, seq<Hymn>>,
    recentHymns: seq<int>,
    error: Option<LoadError>)

  /** The language chosen at start-up from the saved "selectedHymnal" value:
      the 1941 hymnal for "old", the 1985 one for anything else or nothing. */
  function InitialLanguage(saved: Option<string>): (l: HymnalLanguage)
    ensures l == English1941 <==> saved == Some(TypeRawValue(Old1941))
    ensures l == English1941 || l == English1985
  {
    TypeRawValueRoundTrip(Old1941);
    var raw := saved.GetOr(TypeRawValue(Current));
    var t := TypeFromRawValue(raw).GetOr(Current);
    if t == Current then English1985 else English1941
  }

  /** The hymns with their language set. */
  function WithLanguage(hs: seq<Hymn>, id: string): (r: seq<Hymn>)
    ensures |r| == |hs|
    ensures forall i :: 0 <= i < |hs| ==> r[i] == hs[i].(languageId := Some(id))
  {
    seq(|hs|, i requires 0 <= i < |hs| => hs[i].(languageId := Some(id)))
  }

  /** A reading shown as a hymn: its text is the one verse. */
  function ReadingAsHymn(r: Readings.Reading, id: string): Hymn {
    Hymn(r.number, r.title, [r.content], Some(id))
  }

  datatype Loaded = Loaded(hymns: seq<Hymn>, cache: map<string, seq<Hymn>>)

  /** `loadHymns(for:)`: the cached hymns if there are any; otherwise the
      file's hymns with the language set, followed by the readings when the
      language id equals the hymnal code "en", and cached under the id. */
  function LoadHymnsFor(
    language: HymnalLanguage,
    cache: map<string, seq<Hymn>>,
    file: Result<seq<Hymn>, LoadError>,
    readings: seq<Readings.Reading>): (r: Result<Loaded, LoadError>)
    ensures Id(language) in cache ==> r == Ok(Loaded(cache[Id(language)], cache))
    ensures Id(language) !in cache ==> (r.Err? <==> file.Err?)
    ensures Id(language) !in cache && r.Ok? ==>
              r.value.cache == cache[Id(language) := r.value.hymns]
  {
    var id := Id(language);
    if id in cache then Ok(Loaded(cache[id], cache))
    else match file
      case Err(e) => Err(e)
      case Ok(decoded) =>
        var hymns := WithLanguage(decoded, id);
        var all := if id == LanguageCode(Current)
                   then hymns + seq(|readings|, i requires 0 <= i < |readings| => ReadingAsHymn(readings[i], id))
                   else hymns;
        Ok(Loaded(all, cache[id := all]))
  }

  /** No language id is "en", so readings are never added: a fresh load is
      exactly the file's hymns, each marked with the language. */
  lemma LoadNeverAddsReadings(
    language: HymnalLanguage,
    cache: map<string, seq<Hymn>>,
    file: Result<seq<Hymn>, LoadError>,
    readings: seq<Readings.Reading>)
    requires Id(language) !in cache && file.Ok?
    ensures LoadHymnsFor(language, cache, file, readings).Ok?
    ensures LoadHymnsFor(language, cache, file, readings).value.hymns == WithLanguage(file.value, Id(language))
  {
    NoIdIsLanguageCode(language, Current);
  }

  /** Once a language is loaded, loading it again comes from the cache, so
      neither the file nor the readings are read again and the same hymns
      come back. */
  lemma CacheServesReload(
    language: HymnalLanguage,
    cache: map<string, seq<Hymn>>,
    file: Result<seq<Hymn>, LoadError>,
    readings: seq<Readings.Reading>,
    file2: Result<seq<Hymn>, LoadError>,
    readings2: seq<Readings.Reading>)
    requires LoadHymnsFor(language, cache, file, readings).Ok?
    ensures var l := LoadHymnsFor(language, cache, file, readings).value;
            LoadHymnsFor(language, l.cache, file2, readings2) == Ok(l)
  {
  }

  /** `loadData`: the hymns and the thematic lists are loaded together, and
      the load succeeds only when both do. `thematic` is the outcome of the
      thematic-list load: `None` when it succeeded. On success the hymns and
      cache are replaced, the error cleared and the recent list refreshed.
      When the hymns fail, their error is recorded and nothing else changes;
      when only the thematic lists fail, their error is recorded and the
      hymns stay, but the cache keeps what the hymn load stored in it. The
      thematic lists themselves are not modelled. */
  function LoadData(
    s: Service,
    file: Result<seq<Hymn>, LoadError>,
    thematic: Option<LoadError>,
    readings: seq<Readings.Reading>,
    recentNumbers: seq<int>): (r: Service)
    ensures r.currentLanguage == s.currentLanguage
    ensures LoadHymnsFor(s.currentLanguage, s.hymnCache, file, readings).Err? ==>
              r == s.(error := Some(LoadHymnsFor(s.currentLanguage, s.hymnCache, file, readings).error))
    ensures LoadHymnsFor(s.currentLanguage, s.hymnCache, file, readings).Ok? ==>
              r.hymnCache == LoadHymnsFor(s.currentLanguage, s.hymnCache, file, readings).value.cache
    ensures LoadHymnsFor(s.currentLanguage, s.hymnCache, file, readings).Ok? && thematic.Some? ==>
              r == s.(hymnCache := r.hymnCache, error := thematic)
    ensures LoadHymnsFor(s.currentLanguage, s.hymnCache, file, readings).Ok? && thematic.None? ==>
              && r.error.None?
              && r.hymns == LoadHymnsFor(s.currentLanguage, s.hymnCache, file, readings).value.hymns
              && r.recentHymns == RecentLoaded(recentNumbers, r.hymns)
  {
    match LoadHymnsFor(s.currentLanguage, s.hymnCache, file, readings)
    case Ok(l) =>
      if thematic.Some? then s.(hymnCache := l.cache, error := thematic)
      else Service(s.currentLanguage, l.hymns, l.cache, RecentLoaded(recentNumbers, l.hymns), None)
    case Err(e) => s.(error := Some(e))
  }

  /** A load fails exactly when the hymns or the thematic lists fail; a failed
      load leaves the hymns and the recent list as they were, and reports the
      hymns' error ahead of the thematic one. */
  lemma LoadDataFails(
    s: Service,
    file: Result<seq<Hymn>, LoadError>,
    thematic: Option<LoadError>,
    readings: seq<Readings.Reading>,
    recentNumbers: seq<int>)
    ensures var r := LoadData(s, file, thematic, readings, recentNumbers);
            && (r.error.Some? <==> LoadHymnsFor(s.currentLanguage, s.hymnCache, file, readings).Err? || thematic.Some?)
            && (r.error.Some? ==> r.hymns == s.hymns && r.recentHymns == s.recentHymns)
            && (file.Err? && Id(s.currentLanguage) !in s.hymnCache ==> r.error == Some(file.error))
            && (file.Ok? ==> r.error == thematic)
  {
  }

  /** After a load whose hymns arrived but whose thematic lists failed, a
      retry serves the hymns from the cache: whatever the file says then,
      the hymns shown are the ones the failed load stored. */
  lemma RetryAfterThematicFailure(
    s: Service,
    file: Result<seq<Hymn>, LoadError>,
    error: LoadError,
    readings: seq<Readings.Reading>,
    recentNumbers: seq<int>,
    file2: Result<seq<Hymn>, LoadError>,
    readings2: seq<Readings.Reading>,
    recentNumbers2: seq<int>)
    requires LoadHymnsFor(s.currentLanguage, s.hymnCache, file, readings).Ok?
    ensures var failed := LoadData(s, file, Some(error), readings, recentNumbers);
            var retried := LoadData(failed, file2, None, readings2, recentNumbers2);
            && failed.error == Some(error)
            && failed.hymns == s.hymns
            && retried.error.None?
            && retried.hymns == LoadHymnsFor(s.currentLanguage, s.hymnCache, file, readings).value.hymns
  {
    CacheServesReload(s.currentLanguage, s.hymnCache, file, readings, file2, readings2);
  }

  /** `setLanguage`: the current language again changes nothing; another one
      becomes current and is loaded. */
  function SetLanguage(
    s: Service,
    language: HymnalLanguage,
    file: Result<seq<Hymn>, LoadError>,
    thematic: Option<LoadError>,
    readings: seq<Readings.Reading>,
    recentNumbers: seq<int>): (r: Service)
    ensures language == s.currentLanguage ==> r == s
    ensures r.currentLanguage == language
  {
    if language == s.currentLanguage then s
    else LoadData(s.(currentLanguage := language), file, thematic, readings, recentNumbers)
  }

  /** Choosing a language twice is choosing it once. */
  lemma SetLanguageTwice(
    s: Service,
    language: HymnalLanguage,
    file: Result<seq<Hymn>, LoadError>,
    thematic: Option<LoadError>,
    readings: seq<Readings.Reading>,
    recentNumbers: seq<int>,
    file2: Result<seq<Hymn>, LoadError>,
    thematic2: Option<LoadError>,
    readings2: seq<Readings.Reading>,
    recentNumbers2: seq<int>)
    ensures var once := SetLanguage(s, language, file, thematic, readings, recentNumbers);
            SetLanguage(once, language, file2, thematic2, readings2, recentNumbers2) == once
  {
  }

  /** `loadHymns()`: loads only while no hymns are loaded. */
  function LoadHymnsIfEmpty(
    s: Service,
    file: Result<seq<Hymn>, LoadError>,
    thematic: Option<LoadError>,
    readings: seq<Readings.Reading>,
    recentNumbers: seq<int>): (r: Service)
    ensures |s.hymns| > 0 ==> r == s
    ensures |s.hymns| == 0 ==> r == LoadData(s, file, thematic, readings, recentNumbers)
  {
    if |s.hymns| > 0 then s else LoadData(s, file, thematic, readings, recentNumbers)
  }

  // ---------------------------------------------------------------------------
  // Lookups
  // ---------------------------------------------------------------------------

  /** `hymn(number:)`: the first hymn with that number, none iff there is none. */
  function HymnByNumber(hymns: seq<Hymn>, n: int): (r: Option<Hymn>)
    ensures r.None? <==> forall i :: 0 <= i < |hymns| ==> hymns[i].number != n
    ensures r.Some? ==> exists i :: 0 <= i < |hymns| && hymns[i] == r.value && r.value.number == n &&
                          forall j :: 0 <= j < i ==> hymns[j].number != n
  {
    First(hymns, (h: Hymn) => h.number == n)
  }

  /** `hymns(in:)`: the hymns numbered `start ... end`, in their order. */
  function HymnsIn(hymns: seq<Hymn>, start: int, end: int): seq<Hymn> {
    Filter(hymns, (h: Hymn) => start <= h.number <= end)
  }

  /** Exactly the hymns in the range are kept, in order and as often as they occur. */
  lemma HymnsInSpec(hymns: seq<Hymn>, start: int, end: int)
    ensures forall i :: 0 <= i < |HymnsIn(hymns, start, end)| ==>
              start <= HymnsIn(hymns, start, end)[i].number <= end
    ensures forall i :: 0 <= i < |hymns| && start <= hymns[i].number <= end ==>
              hymns[i] in HymnsIn(hymns, start, end)
    ensures Subseq(HymnsIn(hymns, start, end), hymns)
    ensures forall h :: h in hymns && start <= h.number <= end ==>
              multiset(HymnsIn(hymns, start, end))[h] == multiset(hymns)[h]
  {
    FilterSubseq(hymns, (h: Hymn) => start <= h.number <= end);
  }

  /** `updateRecentHymns`: the recent numbers that have a loaded hymn, in order. */
  function RecentLoaded(recent: seq<int>, hymns: seq<Hymn>): seq<int>
    decreases |recent|
  {
    if |recent| == 0 then []
    else
      var head := match HymnByNumber(hymns, recent[0]) case Some(h) => [h.number] case None => [];
      head + RecentLoaded(recent[1..], hymns)
  }

  predicate IsLoaded(hymns: seq<Hymn>, n: int) {
    exists i :: 0 <= i < |hymns| && hymns[i].number == n
  }

  /** The recent view is the recent list with the numbers that have no loaded
      hymn left out. */
  lemma {:induction false} RecentLoadedIsFilter(recent: seq<int>, hymns: seq<Hymn>)
    ensures RecentLoaded(recent, hymns) == Filter(recent, (n: int) => IsLoaded(hymns, n))
    decreases |recent|
  {
    if |recent| > 0 {
      RecentLoadedIsFilter(recent[1..], hymns);
    }
  }

  /** `isReadingNumber`: 696 to 920 while the language id is the hymnal code
      "en" -- which no language id is. */
  predicate IsReadingNumber(language: HymnalLanguage, n: int) {
    696 <= n <= 920 && Id(language) == LanguageCode(Current)
  }

  lemma NoReadingNumbers(language: HymnalLanguage, n: int)
    ensures !IsReadingNumber(language, n)
  {
    NoIdIsLanguageCode(language, Current);
  }

  // ---------------------------------------------------------------------------
  // Navigation
  // ---------------------------------------------------------------------------

  function HymnNumber(h: Hymn): int {
    h.number
  }

  function Identity(n: int): int {
    n
  }

  /** The loaded hymns' numbers, ascending. */
  function SortedNumbers(hymns: seq<Hymn>): seq<int> {
    SortBy(seq(|hymns|, i requires 0 <= i < |hymns| => hymns[i].number), Identity)
  }

  /** The number before `current` in `sorted`, found at its first occurrence. */
  function PreviousIn(sorted: seq<int>, current: int): (r: Option<int>)
    ensures r.None? <==> (current !in sorted || sorted[0] == current)
    ensures r.Some? ==> exists i :: 1 <= i < |sorted| && sorted[i] == current && current !in sorted[..i] && r.value == sorted[i - 1]
  {
    match FindIndex(sorted, (x: int) => x == current)
    case None => None
    case Some(i) =>
      if i > 0 then
        assert current !in sorted[..i];
        Some(sorted[i - 1])
      else None
  }

  /** The number after `current` in `sorted`, found at its first occurrence. */
  function NextIn(sorted: seq<int>, current: int): (r: Option<int>)
    ensures r.None? ==> current !in sorted || exists i :: 0 <= i < |sorted| && sorted[i] == current && current !in sorted[..i] && i == |sorted| - 1
    ensures r.Some? ==> exists i :: 0 <= i < |sorted| - 1 && sorted[i] == current && current !in sorted[..i] && r.value == sorted[i + 1]
  {
    match FindIndex(sorted, (x: int) => x == current)
    case None => None
    case Some(i) =>
      assert current !in sorted[..i];
      if i < |sorted| - 1 then Some(sorted[i + 1]) else None
  }

  /** `previousHymnNumber(from:)`. */
  function PreviousHymnNumber(hymns: seq<Hymn>, current: int): Option<int> {
    PreviousIn(SortedNumbers(hymns), current)
  }

  /** `nextHymnNumber(from:)`. */
  function NextHymnNumber(hymns: seq<Hymn>, current: int): Option<int> {
    NextIn(SortedNumbers(hymns), current)
  }

  /** Over numbers without repeats, going forward then back returns to the start. */
  lemma PreviousOfNext(sorted: seq<int>, x: int)
    requires Distinct(sorted)
    requires NextIn(sorted, x).Some?
    ensures PreviousIn(sorted, NextIn(sorted, x).value) == Some(x)
  {
    var i :| 0 <= i < |sorted| - 1 && sorted[i] == x && x !in sorted[..i] && NextIn(sorted, x).value == sorted[i + 1];
    var y := sorted[i + 1];
    assert y !in sorted[..i + 1];
    var k :| 1 <= k < |sorted| && sorted[k] == y && y !in sorted[..k] && PreviousIn(sorted, y).value == sorted[k - 1];
    assert k == i + 1;
  }

  /** ... and back then forward as well. */
  lemma NextOfPrevious(sorted: seq<int>, x: int)
    requires Distinct(sorted)
    requires PreviousIn(sorted, x).Some?
    ensures NextIn(sorted, PreviousIn(sorted, x).value) == Some(x)
  {
    var i :| 1 <= i < |sorted| && sorted[i] == x && x !in sorted[..i] && PreviousIn(sorted, x).value == sorted[i - 1];
    var y := sorted[i - 1];
    assert y !in sorted[..i - 1];
    var k :| 0 <= k < |sorted| - 1 && sorted[k] == y && y !in sorted[..k] && NextIn(sorted, y).value == sorted[k + 1];
    assert k == i - 1;
  }

  /** Hymn numbers that do not repeat stay so once sorted, so hymn
      navigation goes back to where it came from. */
  lemma HymnNavigationReturns(hymns: seq<Hymn>, x: int)
    requires Distinct(seq(|hymns|, i requires 0 <= i < |hymns| => hymns[i].number))
    requires NextHymnNumber(hymns, x).Some?
    ensures PreviousHymnNumber(hymns, NextHymnNumber(hymns, x).value) == Some(x)
  {
    var nums := seq(|hymns|, i requires 0 <= i < |hymns| => hymns[i].number);
    DistinctIffSingletons(nums);
    DistinctIffSingletons(SortedNumbers(hymns));
    PreviousOfNext(SortedNumbers(hymns), x);
  }
}
