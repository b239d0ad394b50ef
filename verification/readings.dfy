/** `ResponsiveReading` and `ResponsiveReadingService`: a reading's text is
    cut into sections at blank lines, read alternately by leader and
    congregation, with the last section read by all; the service keeps the
    loaded readings and the favourite reading numbers. */
module Readings {
  import opened Wrappers
  import opened Text
  import opened Seqs
  import opened Languages
  import opened Defaults

  // ---------------------------------------------------------------------------
  // Sections
  // ---------------------------------------------------------------------------

  datatype SectionType = Light | Dark | All

  /** The JSON code of a section type. */
  function Code(t: SectionType): string {
    match t
    case Light => "LIGHT"
    case Dark => "DARK"
    case All => "ALL"
  }

  /** `SectionType(rawValue:)`. */
  function FromCode(s: string): (r: Option<SectionType>)
    ensures r.Some? ==> Code(r.value) == s
    ensures r.None? ==> forall t :: Code(t) != s
  {
    if s == "LIGHT" then Some(Light)
    else if s == "DARK" then Some(Dark)
    else if s == "ALL" then Some(All)
    else None
  }

  /** Each type has its own code, and reading a code back gives the type. */
  lemma CodeRoundTrip(t: SectionType)
    ensures FromCode(Code(t)) == Some(t)
  {
  }

  datatype Section = Section(kind: SectionType, content: string, order: int)

  /** `role`: who reads a section. It is declared optional but always has a value. */
  function Role(s: Section): (r: Option<string>)
    ensures r.Some?
    ensures r == Some("All") <==> s.kind == All
    ensures r == Some("Leader") <==> s.kind == Light
    ensures r == Some("Congregation") <==> s.kind == Dark
  {
    match s.kind
    case All => Some("All")
    case Light => Some("Leader")
    case Dark => Some("Congregation")
  }

  /** `==` on sections compares the order alone; `hash(into:)` hashes the
      order alone, which is what `Hashable` asks of it. */
  predicate SameSection(a: Section, b: Section) {
    a.order == b.order
  }

  /** The one field `hash(into:)` feeds to the hasher. */
  function HashInput(s: Section): int {
    s.order
  }

  /** Equal sections hash alike, and sections that differ in kind or text
      are still equal when their orders agree. */
  lemma SectionEqualityByOrder(a: Section, b: Section)
    ensures SameSection(a, b) ==> HashInput(a) == HashInput(b)
    ensures SameSection(a, b) <==> a.order == b.order
    ensures SameSection(Section(Light, "x", 1), Section(All, "y", 1))
  {
  }

  const ParagraphSeparator: string := "\n\n"

  /** The type of the paragraph at `index` of `count`. */
  function KindAt(index: nat, count: nat): SectionType {
    if index == count - 1 then All
    else if index % 2 == 0 then Light
    else Dark
  }

  /** The sections `loadReadings` builds from a reading's text: one per
      "\n\n"-separated paragraph, empty ones included. */
  function BuildSections(content: string): seq<Section> {
    var ps := Split(content, ParagraphSeparator);
    seq(|ps|, i requires 0 <= i < |ps| => Section(KindAt(i, |ps|), TrimSpace(ps[i]), i + 1))
  }

  /** One section per paragraph, each numbered by its position from 1 and
      holding that paragraph trimmed; the last is read by all, the others
      alternate leader and congregation starting with the leader. */
  lemma SectionsShape(content: string)
    ensures |BuildSections(content)| == |Split(content, ParagraphSeparator)| >= 1
    ensures BuildSections(content)[|BuildSections(content)| - 1].kind == All
    ensures forall i :: 0 <= i < |BuildSections(content)| - 1 ==>
              BuildSections(content)[i].kind == (if i % 2 == 0 then Light else Dark)
    ensures forall i :: 0 <= i < |BuildSections(content)| ==>
              BuildSections(content)[i].order == i + 1 &&
              BuildSections(content)[i].content == TrimSpace(Split(content, ParagraphSeparator)[i])
  {
  }

  /** No paragraph is lost: the paragraphs the sections come from join back
      into the whole text, and no two sections are equal, so a set of them
      keeps them all. */
  lemma SectionsCoverContent(content: string)
    ensures Join(Split(content, ParagraphSeparator), ParagraphSeparator) == content
    ensures forall i, j :: 0 <= i < j < |BuildSections(content)| ==>
              !SameSection(BuildSections(content)[i], BuildSections(content)[j])
  {
    JoinSplit(content, ParagraphSeparator);
  }

  /** Section contents carry no surrounding white space. */
  lemma SectionContentTrimmed(content: string, i: nat)
    requires i < |BuildSections(content)|
    ensures var c := BuildSections(content)[i].content;
            |c| > 0 ==> !IsSpaceOrNewline(c[0]) && !IsSpaceOrNewline(c[|c| - 1])
  {
  }

  // ---------------------------------------------------------------------------
  // Readings
  // ---------------------------------------------------------------------------

  datatype Reading = Reading(number: int, title: string, content: string, sections: seq<Section>)

  /** `formattedContent` of a reading or a section: each literal backslash-n
      becomes a newline, each literal backslash-r is deleted, then white
      space and newlines are trimmed. Equivalently, the text is cut at every
      backslash-n and joined with newlines, that is cut at every backslash-r
      and joined with nothing, and the ends are trimmed. */
  function FormattedContent(c: string): (r: string)
    ensures |r| > 0 ==> !IsSpaceOrNewline(r[0]) && !IsSpaceOrNewline(r[|r| - 1])
    ensures r == TrimSpace(Join(Split(Join(Split(c, "\\n"), "\n"), "\\r"), ""))
  {
    ReplaceIsSplitJoin(c, "\\n", "\n");
    ReplaceIsSplitJoin(ReplaceAll(c, "\\n", "\n"), "\\r", "");
    TrimSpace(ReplaceAll(ReplaceAll(c, "\\n", "\n"), "\\r", ""))
  }

  /** Text without escapes is only trimmed. */
  lemma FormattedPlain(c: string)
    requires !Contains(c, "\\n") && !Contains(c, "\\r")
    ensures FormattedContent(c) == TrimSpace(c)
  {
    ReplaceAbsent(c, "\\n", "\n");
    ReplaceAbsent(c, "\\r", "");
  }

  /** Formatting twice is formatting once, for text whose escapes are gone. */
  lemma FormattedIdempotent(c: string)
    requires !Contains(FormattedContent(c), "\\n") && !Contains(FormattedContent(c), "\\r")
    ensures FormattedContent(FormattedContent(c)) == FormattedContent(c)
  {
    var f := FormattedContent(c);
    FormattedPlain(f);
    TrimOfTrimmed(f, IsSpaceOrNewline);
  }

  /** Text without backslashes holds no escape. */
  lemma NoBackslashNoEscape(s: string)
    requires forall i :: 0 <= i < |s| ==> s[i] != '\\'
    ensures !Contains(s, "\\n") && !Contains(s, "\\r")
  {
    ContainsIffOccurs(s, "\\n");
    ContainsIffOccurs(s, "\\r");
    forall i | 0 <= i && i + 2 <= |s| ensures !OccursAt(s, "\\n", i) && !OccursAt(s, "\\r", i) {
      assert s[i..i + 2][0] == s[i];
    }
  }

  /** Lines without backslashes keep having none when joined by newlines. */
  lemma {:induction false} JoinNoBackslash(lines: seq<string>)
    requires forall k, i :: 0 <= k < |lines| && 0 <= i < |lines[k]| ==> lines[k][i] != '\\'
    ensures forall i :: 0 <= i < |Join(lines, "\n")| ==> Join(lines, "\n")[i] != '\\'
    decreases |lines|
  {
    if |lines| > 1 {
      JoinNoBackslash(lines[1..]);
      var rest := Join(lines[1..], "\n");
      assert Join(lines, "\n") == lines[0] + "\n" + rest;
      forall i | 0 <= i < |Join(lines, "\n")| ensures Join(lines, "\n")[i] != '\\' {
        if i > |lines[0]| {
          assert Join(lines, "\n")[i] == rest[i - |lines[0]| - 1];
        }
      }
    }
  }

  /** The escapes do what they are for: lines without backslashes, written
      with backslash-n between them, come out one per line. */
  lemma FormattedEscapedLines(lines: seq<string>)
    requires |lines| > 0
    requires forall k, i :: 0 <= k < |lines| && 0 <= i < |lines[k]| ==> lines[k][i] != '\\'
    ensures FormattedContent(Join(lines, "\\n")) == TrimSpace(Join(lines, "\n"))
  {
    forall k | 0 <= k < |lines| ensures NoEarlySeparator(lines[k], "\\n") {
      forall i | 0 <= i < |lines[k]| ensures !HasPrefix((lines[k] + "\\n")[i..], "\\n") {
        assert (lines[k] + "\\n")[i..][0] == lines[k][i];
      }
    }
    SplitJoin(lines, "\\n");
    ReplaceIsSplitJoin(Join(lines, "\\n"), "\\n", "\n");
    JoinNoBackslash(lines);
    NoBackslashNoEscape(Join(lines, "\n"));
    ReplaceAbsent(Join(lines, "\n"), "\\r", "");
  }

  /** Deleting backslash-r runs after the newline replacement, so it can
      join a backslash to a following `n` into an escape that stays in the
      text: backslash, backslash, `r`, `n` comes out as backslash, `n`. */
  lemma EscapeSurvives()
    ensures FormattedContent(['\\', '\\', 'r', 'n']) == ['\\', 'n']
  {
    var c := ['\\', '\\', 'r', 'n'];
    NoNewlineEscapeIn(c);
    ReturnEscapeDeleted(c);
    TrimKeeps(['\\', 'n']);
  }

  lemma NoNewlineEscapeIn(c: string)
    requires c == ['\\', '\\', 'r', 'n']
    ensures ReplaceAll(c, "\\n", "\n") == c
  {
    assert c[1..] == ['\\', 'r', 'n'] && c[1..][1..] == ['r', 'n'] && c[1..][1..][1..] == ['n'];
    assert ReplaceAll(['n'], "\\n", "\n") == ['n'];
    assert ReplaceAll(['r', 'n'], "\\n", "\n") == ['r', 'n'];
    assert ReplaceAll(['\\', 'r', 'n'], "\\n", "\n") == ['\\', 'r', 'n'];
  }

  lemma ReturnEscapeDeleted(c: string)
    requires c == ['\\', '\\', 'r', 'n']
    ensures ReplaceAll(c, "\\r", "") == ['\\', 'n']
  {
    assert c[1..] == ['\\', 'r', 'n'] && c[1..][2..] == ['n'];
    assert ReplaceAll(['n'], "\\r", "") == ['n'];
    assert ReplaceAll(['\\', 'r', 'n'], "\\r", "") == ['n'];
  }

  lemma TrimKeeps(t: string)
    requires t == ['\\', 'n']
    ensures TrimSpace(t) == t
  {
    TrimOfTrimmed(t, IsSpaceOrNewline);
  }

  /** The reading as `loadReadings` stores it: the same number, title and
      text, with sections built from the text. */
  function WithSections(r: Reading): Reading {
    Reading(r.number, r.title, r.content, BuildSections(r.content))
  }

  /** What reading the bundle's `responsive_readings.json` gives: no file, a
      file that does not read or decode, or the decoded readings. */
  datatype BundleFile = NoFile | Undecodable | Decoded(readings: seq<Reading>)

  datatype Service = Service(
    readings: seq<Reading>,
    favorites: set<int>,
    isLoaded: bool,
    language: HymnalLanguage,
    store: Store)

  /** `loadReadings`: a service that has loaded once ignores further calls;
      otherwise a decoded file replaces the readings, with sections built, and
      marks the service loaded, and a missing or bad file changes nothing. */
  function LoadReadings(s: Service, file: BundleFile): (r: Service)
    ensures s.isLoaded ==> r == s
    ensures !s.isLoaded && !file.Decoded? ==> r == s
    ensures !s.isLoaded && file.Decoded? ==>
              && r.isLoaded && r.favorites == s.favorites && r.store == s.store
              && |r.readings| == |file.readings|
              && forall i :: 0 <= i < |r.readings| ==>
                   && r.readings[i].number == file.readings[i].number
                   && r.readings[i].title == file.readings[i].title
                   && r.readings[i].content == file.readings[i].content
                   && r.readings[i].sections == BuildSections(file.readings[i].content)
  {
    if s.isLoaded then s
    else match file
      case Decoded(rs) =>
        s.(readings := seq(|rs|, i requires 0 <= i < |rs| => WithSections(rs[i])), isLoaded := true)
      case _ => s
  }

  /** After a successful load, loading again with any file changes nothing. */
  lemma LoadOnce(s: Service, first: BundleFile, later: BundleFile)
    requires LoadReadings(s, first).isLoaded
    ensures LoadReadings(LoadReadings(s, first), later) == LoadReadings(s, first)
  {
  }

  /** `reading(for:)`: the first reading with that number. */
  function ReadingFor(readings: seq<Reading>, n: int): (r: Option<Reading>)
    ensures r.None? <==> forall i :: 0 <= i < |readings| ==> readings[i].number != n
    ensures r.Some? ==> exists i :: 0 <= i < |readings| && readings[i] == r.value && r.value.number == n &&
                          forall j :: 0 <= j < i ==> readings[j].number != n
  {
    First(readings, (x: Reading) => x.number == n)
  }

  // ---------------------------------------------------------------------------
  // Favourite readings
  // ---------------------------------------------------------------------------

  function FavoriteReadingsKey(l: HymnalLanguage): string {
    "favoriteReadings_" + Id(l)
  }

  /** `loadFavorites`: a saved set replaces the current one; without one the
      current set stays (it is not emptied first). */
  function LoadFavoriteReadings(s: Service): (r: Service)
    ensures r.readings == s.readings && r.store == s.store && r.language == s.language
    ensures IntSetAt(s.store, FavoriteReadingsKey(s.language)).Some? ==>
              r.favorites == IntSetAt(s.store, FavoriteReadingsKey(s.language)).value
    ensures IntSetAt(s.store, FavoriteReadingsKey(s.language)).None? ==> r == s
  {
    match IntSetAt(s.store, FavoriteReadingsKey(s.language))
    case Some(f) => s.(favorites := f)
    case None => s
  }

  /** `toggleFavorite(for:)`: flips the reading's number and saves the set. */
  function ToggleFavorite(s: Service, reading: Reading): (r: Service)
    ensures reading.number in r.favorites <==> reading.number !in s.favorites
    ensures forall k :: k != reading.number ==> (k in r.favorites <==> k in s.favorites)
    ensures r.readings == s.readings && r.language == s.language
    ensures IntSetAt(r.store, FavoriteReadingsKey(s.language)) == Some(r.favorites)
    ensures SameElsewhere(s.store, r.store, FavoriteReadingsKey(s.language))
  {
    var n := reading.number;
    var favorites := if n in s.favorites then s.favorites - {n} else s.favorites + {n};
    s.(favorites := favorites, store := s.store[FavoriteReadingsKey(s.language) := IntSet(favorites)])
  }

  /** Toggling the same reading twice gives back the set. */
  lemma ToggleFavoriteTwice(s: Service, reading: Reading)
    ensures ToggleFavorite(ToggleFavorite(s, reading), reading).favorites == s.favorites
  {
  }

  /** `isFavorite`. */
  predicate IsFavorite(s: Service, reading: Reading) {
    reading.number in s.favorites
  }

  /** `clearFavorites`: the set is emptied and the empty set saved (the key
      stays, unlike for favourite hymns). */
  function ClearFavorites(s: Service): (r: Service)
    ensures r.favorites == {} && r.readings == s.readings && r.language == s.language
    ensures IntSetAt(r.store, FavoriteReadingsKey(s.language)) == Some({})
    ensures SameElsewhere(s.store, r.store, FavoriteReadingsKey(s.language))
  {
    s.(favorites := {}, store := s.store[FavoriteReadingsKey(s.language) := IntSet({})])
  }

  function ReadingNumber(r: Reading): int {
    r.number
  }

  /** `sortedFavoriteReadings`: the readings whose number is a favourite,
      ascending by number. */
  function SortedFavoriteReadings(s: Service): seq<Reading> {
    SortBy(Filter(s.readings, (x: Reading) => x.number in s.favorites), ReadingNumber)
  }

  /** Exactly the favourite readings, each as often as it is loaded, in
      ascending order of number. */
  lemma SortedFavoriteReadingsSpec(s: Service)
    ensures SortedBy(SortedFavoriteReadings(s), ReadingNumber)
    ensures forall i :: 0 <= i < |SortedFavoriteReadings(s)| ==>
              SortedFavoriteReadings(s)[i].number in s.favorites && SortedFavoriteReadings(s)[i] in s.readings
    ensures forall i :: 0 <= i < |s.readings| && s.readings[i].number in s.favorites ==>
              s.readings[i] in SortedFavoriteReadings(s)
    ensures multiset(SortedFavoriteReadings(s)) == multiset(Filter(s.readings, (x: Reading) => x.number in s.favorites))
  {
    var kept := Filter(s.readings, (x: Reading) => x.number in s.favorites);
    var r := SortedFavoriteReadings(s);
    forall i | 0 <= i < |r| ensures r[i].number in s.favorites && r[i] in s.readings {
      assert r[i] in multiset(kept);
      var j :| 0 <= j < |kept| && kept[j] == r[i];
    }
    forall i | 0 <= i < |s.readings| && s.readings[i].number in s.favorites ensures s.readings[i] in r {
      assert s.readings[i] in kept;
      assert s.readings[i] in multiset(r);
    }
  }
}
