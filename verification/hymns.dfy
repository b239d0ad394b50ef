/** `Hymn` and `Verse`: how a hymn's JSON `content` becomes its list of
    verses and back, and how `parsedVerses` numbers the verses, finds the
    chorus and places it, with the special labelling of hymn 663 (the
    Amens). */
module Hymns {
  import opened Wrappers
  import opened Text
  import opened Seqs
  import opened Languages

  datatype Hymn = Hymn(number: int, title: string, verses: seq<string>, languageId: Option<string>)

  /** The JSON `content` field: one text, or already a list of verses. */
  datatype Content = ContentText(text: string) | ContentList(items: seq<string>)

  /** A hymn as stored in JSON. */
  datatype HymnRecord = HymnRecord(number: int, title: string, content: Content, languageId: Option<string>)

  const VerseSeparator: string := "\n\n"

  predicate NonEmpty(s: string) {
    |s| > 0
  }

  /** `init(from:)` on the `content` field: a text is split at "\n\n" and the
      empty pieces dropped, every other piece kept as often as it occurs; a
      list is taken as it is. */
  function DecodeVerses(c: Content): (vs: seq<string>)
    ensures c.ContentText? ==> forall i :: 0 <= i < |vs| ==> |vs[i]| > 0
    ensures c.ContentText? ==> Subseq(vs, Split(c.text, VerseSeparator))
    ensures c.ContentText? ==>
              forall i :: 0 <= i < |Split(c.text, VerseSeparator)| && |Split(c.text, VerseSeparator)[i]| > 0 ==>
                Split(c.text, VerseSeparator)[i] in vs
    ensures c.ContentText? ==>
              forall v :: v in Split(c.text, VerseSeparator) && |v| > 0 ==>
                multiset(vs)[v] == multiset(Split(c.text, VerseSeparator))[v]
    ensures c.ContentList? ==> vs == c.items
  {
    match c
    case ContentText(t) =>
      FilterSubseq(Split(t, VerseSeparator), NonEmpty);
      Filter(Split(t, VerseSeparator), NonEmpty)
    case ContentList(items) => items
  }

  function DecodeHymn(rec: HymnRecord): Hymn {
    Hymn(rec.number, rec.title, DecodeVerses(rec.content), rec.languageId)
  }

  /** `encode(to:)`: the verses are written back as one text joined by "\n\n". */
  function EncodeHymn(h: Hymn): HymnRecord {
    HymnRecord(h.number, h.title, ContentText(Join(h.verses, VerseSeparator)), h.languageId)
  }

  /** A verse that comes back unchanged from being joined and split again:
      not empty, no "\n\n" inside, and no newline at its end (which would
      merge with the separator after it). */
  predicate Encodable(v: string) {
    |v| > 0 && !Contains(v, VerseSeparator) && v[|v| - 1] != '\n'
  }

  lemma EncodableHasNoEarlySeparator(v: string)
    requires Encodable(v)
    ensures NoEarlySeparator(v, VerseSeparator)
  {
    var w := v + VerseSeparator;
    forall i | 0 <= i < |v| ensures !HasPrefix(w[i..], VerseSeparator) {
      if i + 2 <= |v| {
        assert w[i..][..2] == v[i..i + 2];
        if v[i..i + 2] == VerseSeparator {
          assert OccursAt(v, VerseSeparator, i);
          ContainsIffOccurs(v, VerseSeparator);
        }
      } else {
        assert w[i..][0] == v[|v| - 1];
      }
    }
  }

  /** Decoding what was encoded gives the hymn back whenever every verse is
      encodable. */
  lemma DecodeEncode(h: Hymn)
    requires forall i :: 0 <= i < |h.verses| ==> Encodable(h.verses[i])
    ensures DecodeHymn(EncodeHymn(h)) == h
  {
    if |h.verses| == 0 {
      assert Split("", VerseSeparator) == [""];
    } else {
      forall k | 0 <= k < |h.verses| ensures NoEarlySeparator(h.verses[k], VerseSeparator) {
        EncodableHasNoEarlySeparator(h.verses[k]);
      }
      SplitJoin(h.verses, VerseSeparator);
      FilterAll(h.verses, NonEmpty);
    }
  }

  /** A verse ending in a newline does not survive: the newline moves to the
      start of the next verse. */
  lemma TrailingNewlineMoves()
    ensures DecodeVerses(ContentText(Join(["a\n", "b"], VerseSeparator))) == ["a", "\nb"]
  {
    var sep := VerseSeparator;
    var t := Join(["a\n", "b"], sep);
    assert t == "a\n\n\nb";
    assert t[..2][0] == 'a' && "" + [t[0]] == "a";
    assert SplitFrom(t, sep, "") == SplitFrom(t[1..], sep, "a");
    assert t[1..][..2] == sep;
    assert SplitFrom(t[1..], sep, "a") == ["a"] + SplitFrom("\nb", sep, "");
    assert "\nb"[..2][1] == 'b' && "" + ['\n'] == "\n" && "\nb"[1..] == "b";
    assert SplitFrom("\nb", sep, "") == SplitFrom("b", sep, "\n");
    assert "\n" + ['b'] == "\nb" && "b"[1..] == "";
    assert SplitFrom("b", sep, "\n") == SplitFrom("", sep, "\nb");
    FilterAll(["a", "\nb"], NonEmpty);
  }

  // ---------------------------------------------------------------------------
  // Verses
  // ---------------------------------------------------------------------------

  datatype Verse = Verse(number: int, text: string, isChorus: bool, labelText: Option<string>)

  /** `id`: the number and whether it is a chorus. */
  function VerseId(v: Verse): string {
    IntToString(v.number) + if v.isChorus then "-chorus" else "-verse"
  }

  /** `==`: same id and same text; the label does not take part. */
  predicate SameVerse(a: Verse, b: Verse) {
    VerseId(a) == VerseId(b) && a.text == b.text
  }

  /** Two verses are equal exactly when number, kind and text agree. */
  lemma SameVerseIff(a: Verse, b: Verse)
    ensures SameVerse(a, b) <==> a.number == b.number && a.isChorus == b.isChorus && a.text == b.text
  {
    if VerseId(a) == VerseId(b) {
      var ia, ib := VerseId(a), VerseId(b);
      assert ia[|ia| - 1] == (if a.isChorus then 's' else 'e');
      assert ib[|ib| - 1] == (if b.isChorus then 's' else 'e');
      var suffix := if a.isChorus then "-chorus" else "-verse";
      assert ia[..|ia| - |suffix|] == IntToString(a.number);
      assert ib[..|ib| - |suffix|] == IntToString(b.number);
      IntToStringInjective(a.number, b.number);
    }
  }

  predicate IsChorusVerse(v: Verse) {
    v.isChorus
  }

  predicate IsRegular(v: Verse) {
    !v.isChorus
  }

  function VerseNumber(v: Verse): int {
    v.number
  }

  const AmenLabels: seq<string> := ["Amen", "Threefold Amen", "Sevenfold Amen", "Fourfold Amen"]

  /** The label of the verse at `index` of hymn 663. */
  function AmenLabel(index: nat): string {
    if index < |AmenLabels| then AmenLabels[index] else "Amen " + IntToString(index + 1)
  }

  /** The fixed labels have four letters or do not start with 'A'; the
      numbered ones start with "Amen " and are longer. */
  lemma AmenLabelShape(k: nat)
    ensures k >= 4 ==> |AmenLabel(k)| > 5 && AmenLabel(k)[..5] == "Amen "
    ensures k < 4 ==> |AmenLabel(k)| >= 4 && AmenLabel(k)[0] == "ATSF"[k]
    ensures k == 0 <==> |AmenLabel(k)| == 4
  {
    if k >= 4 {
      assert AmenLabel(k)[..5] == "Amen ";
    } else {
      assert AmenLabels[1][0] == 'T' && AmenLabels[2][0] == 'S' && AmenLabels[3][0] == 'F';
      assert |AmenLabels[1]| == 14 && |AmenLabels[2]| == 14 && |AmenLabels[3]| == 13;
    }
  }

  /** No two Amens share a label. */
  lemma AmenLabelInjective(i: nat, j: nat)
    requires AmenLabel(i) == AmenLabel(j)
    ensures i == j
  {
    AmenLabelShape(i);
    AmenLabelShape(j);
    if i >= 4 && j >= 4 {
      assert AmenLabel(i)[5..] == IntToString(i + 1);
      assert AmenLabel(j)[5..] == IntToString(j + 1);
      IntToStringInjective(i + 1, j + 1);
    } else if i < 4 && j < 4 {
      assert "ATSF"[i] == "ATSF"[j];
    }
  }

  /** Hymn 663: one verse per element, numbered from 1, none a chorus. */
  function AmenVerses(vs: seq<string>): (r: seq<Verse>)
    ensures |r| == |vs|
  {
    seq(|vs|, i requires 0 <= i < |vs| => Verse(i + 1, vs[i], false, Some(AmenLabel(i))))
  }

  // ---------------------------------------------------------------------------
  // Parsing one verse
  // ---------------------------------------------------------------------------

  /** The trimmed text starts with "chorus:" in any letter case. */
  predicate IsChorusText(lines: string) {
    HasPrefix(Lower(lines), "chorus:")
  }

  /** Every "chorus:" in any letter case removed, then trimmed. */
  function ChorusText(lines: string): string {
    TrimSpace(ReplaceAllCaseless(lines, "CHORUS:", ""))
  }

  /** The verse number at the start of a line: the pattern `^(\d+)[\s\.]`
      must match and the matched text, trimmed of '.' and ' ', must read as
      an `Int`. A run of digits followed by another kind of white space
      matches the pattern but keeps that character after trimming, so it
      does not read as a number. */
  function LeadingVerseNumber(line: string): (r: Option<int>)
    ensures r.Some? ==>
              var k := LeadCount(line, IsDigit);
              && 1 <= k < |line| && (line[k] == ' ' || line[k] == '.')
              && AllDigits(line[..k]) && r.value == DigitsValue(line[..k]) <= IntMax
    ensures r.None? ==>
              var k := LeadCount(line, IsDigit);
              !(1 <= k < |line| && (line[k] == ' ' || line[k] == '.')) || DigitsValue(line[..k]) > IntMax
  {
    var k := LeadCount(line, IsDigit);
    if 1 <= k < |line| && (line[k] == ' ' || line[k] == '.') then
      assert IsDigit(line[..k][0]);
      SwiftInt(line[..k])
    else None
  }

  /** A number written in decimal and followed by '.' or ' ' is read back. */
  lemma LeadingVerseNumberOf(n: nat, sep: char, rest: string)
    requires n <= IntMax && (sep == '.' || sep == ' ')
    ensures LeadingVerseNumber(NatToString(n) + [sep] + rest) == Some(n)
  {
    var d := NatToString(n);
    var line := d + [sep] + rest;
    var k := LeadCount(line, IsDigit);
    assert line[|d|] == sep && !IsDigit(sep);
    assert k == |d|;
    assert line[..k] == d;
    ValueOfNatToString(n);
  }

  /** One element of `parsedVerses`' first pass, for the verse text at
      `index`: blank text gives nothing, a "chorus:" text a chorus numbered
      0, a 1941 verse its position, and a 1985 verse the number on its first
      line (the rest of that line is dropped) or else 1. */
  function ParseVerse(text: string, index: nat, is1941: bool): (r: Option<Verse>)
    ensures r.None? <==> TrimSpace(text) == ""
    ensures r.Some? && IsChorusText(TrimSpace(text)) ==>
              r.value == Verse(0, ChorusText(TrimSpace(text)), true, Some("Chorus"))
    ensures r.Some? && !IsChorusText(TrimSpace(text)) ==>
              !r.value.isChorus && r.value.labelText == Some("Verse " + IntToString(r.value.number))
    ensures r.Some? && !IsChorusText(TrimSpace(text)) && is1941 ==>
              r.value.number == index + 1 && r.value.text == TrimSpace(text)
    ensures r.Some? && !IsChorusText(TrimSpace(text)) && !is1941 ==>
              var first := TrimSpace(Split(TrimSpace(text), "\n")[0]);
              match LeadingVerseNumber(first)
              case Some(n) => r.value.number == n && r.value.text == TrimSpace(Join(Split(TrimSpace(text), "\n")[1..], "\n"))
              case None => r.value.number == 1 && r.value.text == TrimSpace(text)
  {
    var lines := TrimSpace(text);
    if |lines| == 0 then None
    else if IsChorusText(lines) then Some(Verse(0, ChorusText(lines), true, Some("Chorus")))
    else if is1941 then Some(Verse(index + 1, lines, false, Some("Verse " + IntToString(index + 1))))
    else
      var allLines := Split(lines, "\n");
      match LeadingVerseNumber(TrimSpace(allLines[0]))
      case Some(n) => Some(Verse(n, TrimSpace(Join(allLines[1..], "\n")), false, Some("Verse " + IntToString(n))))
      case None =>
        assert "Verse " + IntToString(1) == "Verse 1";
        Some(Verse(1, lines, false, Some("Verse 1")))
  }

  predicate NotBlank(s: string) {
    TrimSpace(s) != ""
  }

  /** The first pass over the verses from position `from` on (`compactMap`
      over `enumerated()`). */
  function ParseAll(vs: seq<string>, is1941: bool, from: nat): seq<Verse>
    decreases |vs|
  {
    if |vs| == 0 then []
    else ParsedOne(vs[0], from, is1941) + ParseAll(vs[1..], is1941, from + 1)
  }

  function ParsedOne(text: string, index: nat, is1941: bool): seq<Verse> {
    match ParseVerse(text, index, is1941)
    case Some(v) => [v]
    case None => []
  }

  /** One parsed verse per verse that is not blank. */
  lemma {:induction false} ParseAllCount(vs: seq<string>, is1941: bool, from: nat)
    ensures |ParseAll(vs, is1941, from)| == |Filter(vs, NotBlank)|
    decreases |vs|
  {
    if |vs| > 0 {
      ParseAllCount(vs[1..], is1941, from + 1);
    }
  }

  /** The verses that are not choruses have numbers in `lo .. hi`. */
  predicate NumbersWithin(r: seq<Verse>, lo: int, hi: int) {
    forall i :: 0 <= i < |r| && !r[i].isChorus ==> lo <= r[i].number <= hi
  }

  /** The verses that are not choruses have strictly rising numbers. */
  predicate NumbersRise(r: seq<Verse>) {
    forall i, j :: 0 <= i < j < |r| && !r[i].isChorus && !r[j].isChorus ==> r[i].number < r[j].number
  }

  /** One parsed text gives at most one verse, numbered by its position in
      the 1941 edition unless it is a chorus. */
  lemma ParsedOne1941(text: string, index: nat)
    ensures |ParsedOne(text, index, true)| <= 1
    ensures |ParsedOne(text, index, true)| == 1 && !ParsedOne(text, index, true)[0].isChorus ==>
              ParsedOne(text, index, true)[0].number == index + 1
  {
  }

  /** In the 1941 edition a parsed verse that is not a chorus carries the
      position of its text, counting blank texts, so its number lies within
      `from + 1 .. from + |vs|`. */
  lemma {:induction false} ParseAll1941Range(vs: seq<string>, from: nat)
    ensures NumbersWithin(ParseAll(vs, true, from), from + 1, from + |vs|)
    decreases |vs|
  {
    if |vs| > 0 {
      ParseAll1941Range(vs[1..], from + 1);
      ParsedOne1941(vs[0], from);
      var h := ParsedOne(vs[0], from, true);
      var rest := ParseAll(vs[1..], true, from + 1);
      assert ParseAll(vs, true, from) == h + rest;
      WithinAfterOne(h, rest, from + 1, from + |vs|);
    }
  }

  /** A verse numbered `n` or nothing, then verses numbered above `n` up to
      `hi`, are all numbered in `n .. hi`. */
  lemma WithinAfterOne(h: seq<Verse>, rest: seq<Verse>, n: int, hi: int)
    requires |h| <= 1 && (|h| == 1 && !h[0].isChorus ==> h[0].number == n)
    requires n <= hi && NumbersWithin(rest, n + 1, hi)
    ensures NumbersWithin(h + rest, n, hi)
  {
    var r := h + rest;
    forall i | 0 <= i < |r| && !r[i].isChorus ensures n <= r[i].number <= hi {
      if i >= |h| {
        assert r[i] == rest[i - |h|];
      }
    }
  }

  /** A verse numbered `n` or nothing, then verses above `n` that rise. */
  lemma RiseAfterOne(h: seq<Verse>, rest: seq<Verse>, n: int, hi: int)
    requires |h| <= 1 && (|h| == 1 && !h[0].isChorus ==> h[0].number == n)
    requires NumbersWithin(rest, n + 1, hi) && NumbersRise(rest)
    ensures NumbersRise(h + rest)
  {
    var r := h + rest;
    forall i, j | 0 <= i < j < |r| && !r[i].isChorus && !r[j].isChorus ensures r[i].number < r[j].number {
      assert r[j] == rest[j - |h|];
      if i >= |h| {
        assert r[i] == rest[i - |h|];
      }
    }
  }

  /** ... and those numbers rise strictly. */
  lemma {:induction false} ParseAll1941Increasing(vs: seq<string>, from: nat)
    ensures NumbersRise(ParseAll(vs, true, from))
    decreases |vs|
  {
    if |vs| > 0 {
      ParseAll1941Increasing(vs[1..], from + 1);
      ParseAll1941Range(vs[1..], from + 1);
      ParsedOne1941(vs[0], from);
      var h := ParsedOne(vs[0], from, true);
      var rest := ParseAll(vs[1..], true, from + 1);
      var r := ParseAll(vs, true, from);
      assert r == h + rest;
      RiseAfterOne(h, rest, from + 1, from + |vs|);
    }
  }

  // ---------------------------------------------------------------------------
  // Chorus placement
  // ---------------------------------------------------------------------------

  /** The result loop of `parsedVerses`: each verse, followed by the chorus
      when the verse is numbered 1 and there is a chorus. */
  function Assemble(vs: seq<Verse>, chorus: Option<Verse>): seq<Verse>
    decreases |vs|
  {
    if |vs| == 0 then []
    else
      var after := if vs[0].number == 1 && chorus.Some? then [chorus.value] else [];
      [vs[0]] + after + Assemble(vs[1..], chorus)
  }

  /** Without a chorus the verses are returned as they are. */
  lemma {:induction false} AssembleWithoutChorus(vs: seq<Verse>)
    ensures Assemble(vs, None) == vs
    decreases |vs|
  {
    if |vs| > 0 {
      AssembleWithoutChorus(vs[1..]);
    }
  }

  /** Leaving out the choruses gives back exactly the verses, in order. */
  lemma {:induction false} AssembleKeepsVerses(vs: seq<Verse>, chorus: Option<Verse>)
    requires forall i :: 0 <= i < |vs| ==> !vs[i].isChorus
    requires chorus.Some? ==> chorus.value.isChorus
    ensures Filter(Assemble(vs, chorus), IsRegular) == vs
    decreases |vs|
  {
    if |vs| > 0 {
      var after := if vs[0].number == 1 && chorus.Some? then [chorus.value] else [];
      AssembleKeepsVerses(vs[1..], chorus);
      FilterConcat([vs[0]] + after, Assemble(vs[1..], chorus), IsRegular);
      FilterConcat([vs[0]], after, IsRegular);
      if |after| > 0 {
        FilterOne(chorus.value, IsRegular);
      }
      FilterOne(vs[0], IsRegular);
    }
  }

  /** Every chorus in `r` is `chorus`, right after a verse numbered 1. */
  predicate ChorusOnlyAfterFirst(r: seq<Verse>, chorus: Option<Verse>) {
    forall i :: 0 <= i < |r| && r[i].isChorus ==>
      chorus.Some? && r[i] == chorus.value && i > 0 && !r[i - 1].isChorus && r[i - 1].number == 1
  }

  /** Every verse numbered 1 in `r` is followed by `chorus`, if there is one. */
  predicate FirstHasChorus(r: seq<Verse>, chorus: Option<Verse>) {
    forall i :: 0 <= i < |r| && !r[i].isChorus && r[i].number == 1 && chorus.Some? ==>
      i + 1 < |r| && r[i + 1] == chorus.value
  }

  /** The chorus placement: every chorus in the result is the chorus, placed
      right after a verse numbered 1. */
  lemma {:induction false} AssembleChorusFollowsFirst(vs: seq<Verse>, chorus: Option<Verse>)
    requires forall i :: 0 <= i < |vs| ==> !vs[i].isChorus
    requires chorus.Some? ==> chorus.value.isChorus
    ensures ChorusOnlyAfterFirst(Assemble(vs, chorus), chorus)
    decreases |vs|
  {
    if |vs| > 0 {
      AssembleChorusFollowsFirst(vs[1..], chorus);
      var after := if vs[0].number == 1 && chorus.Some? then [chorus.value] else [];
      var rest := Assemble(vs[1..], chorus);
      var r := Assemble(vs, chorus);
      var h := [vs[0]] + after;
      assert r == h + rest;
      forall i | 0 <= i < |r| && r[i].isChorus
        ensures chorus.Some? && r[i] == chorus.value && i > 0 && !r[i - 1].isChorus && r[i - 1].number == 1
      {
        if i < |h| {
          assert r[0] == vs[0];
          assert i == 1 && r[1] == after[0];
        } else {
          assert r[i] == rest[i - |h|];
          assert r[i - 1] == rest[i - |h| - 1];
        }
      }
    }
  }

  /** Every verse numbered 1 is followed by the chorus, when there is one. */
  lemma {:induction false} AssembleFirstHasChorus(vs: seq<Verse>, chorus: Option<Verse>)
    requires forall i :: 0 <= i < |vs| ==> !vs[i].isChorus
    requires chorus.Some? ==> chorus.value.isChorus
    ensures FirstHasChorus(Assemble(vs, chorus), chorus)
    decreases |vs|
  {
    if |vs| > 0 {
      AssembleFirstHasChorus(vs[1..], chorus);
      var after := if vs[0].number == 1 && chorus.Some? then [chorus.value] else [];
      var rest := Assemble(vs[1..], chorus);
      var r := Assemble(vs, chorus);
      var h := [vs[0]] + after;
      assert r == h + rest;
      forall i | 0 <= i < |r| && !r[i].isChorus && r[i].number == 1 && chorus.Some?
        ensures i + 1 < |r| && r[i + 1] == chorus.value
      {
        if i < |h| {
          assert i == 0 && r[0] == vs[0] && r[1] == after[0];
        } else {
          assert r[i] == rest[i - |h|];
          assert r[i + 1] == rest[i - |h| + 1];
        }
      }
    }
  }

  /** `parsedVerses`. */
  function ParsedVerses(h: Hymn): seq<Verse> {
    if h.number == 663 then AmenVerses(h.verses)
    else
      Assemble(SortBy(Filter(Parsed(h), IsRegular), VerseNumber), First(Parsed(h), IsChorusVerse))
  }

  /** Hymn 663 keeps every element, blank or not, as a verse numbered by
      position with its Amen label, and has no chorus. */
  lemma ParsedVersesAmen(h: Hymn)
    requires h.number == 663
    ensures |ParsedVerses(h)| == |h.verses|
    ensures forall i :: 0 <= i < |h.verses| ==>
              ParsedVerses(h)[i] == Verse(i + 1, h.verses[i], false, Some(AmenLabel(i)))
  {
  }

  /** The parsed verses of a hymn other than 663 and its chorus, if any. */
  function Parsed(h: Hymn): seq<Verse> {
    ParseAll(h.verses, h.languageId == Some(Id(English1941)), 0)
  }

  /** For a hymn other than 663, the verses that are not choruses are all
      the parsed ones, sorted by number. */
  lemma ParsedVersesSorted(h: Hymn)
    requires h.number != 663
    ensures SortedBy(Filter(ParsedVerses(h), IsRegular), VerseNumber)
    ensures multiset(Filter(ParsedVerses(h), IsRegular)) == multiset(Filter(Parsed(h), IsRegular))
  {
    var sorted := SortBy(Filter(Parsed(h), IsRegular), VerseNumber);
    RegularSorted(Parsed(h));
    AssembleKeepsVerses(sorted, First(Parsed(h), IsChorusVerse));
  }

  /** For a hymn other than 663, the only chorus shown is the first parsed
      one, after each verse numbered 1 and nowhere else. */
  lemma ParsedVersesChorus(h: Hymn)
    requires h.number != 663
    ensures ChorusOnlyAfterFirst(ParsedVerses(h), First(Parsed(h), IsChorusVerse))
    ensures FirstHasChorus(ParsedVerses(h), First(Parsed(h), IsChorusVerse))
  {
    var sorted := SortBy(Filter(Parsed(h), IsRegular), VerseNumber);
    var chorus := First(Parsed(h), IsChorusVerse);
    assert ParsedVerses(h) == Assemble(sorted, chorus);
    RegularSorted(Parsed(h));
    AssembleChorusFollowsFirst(sorted, chorus);
    AssembleFirstHasChorus(sorted, chorus);
  }

  lemma RegularSorted(parsed: seq<Verse>)
    ensures forall i :: 0 <= i < |SortBy(Filter(parsed, IsRegular), VerseNumber)| ==>
              !SortBy(Filter(parsed, IsRegular), VerseNumber)[i].isChorus
  {
    var regular := Filter(parsed, IsRegular);
    var sorted := SortBy(regular, VerseNumber);
    forall i | 0 <= i < |sorted| ensures !sorted[i].isChorus {
      assert sorted[i] in multiset(regular);
    }
  }

  /** `sheetMusic`: the sheet music on display, for a hymn of the 1985 edition only. */
  function SheetMusicOf<T>(h: Hymn, current: Option<T>): (r: Option<T>)
    ensures r.Some? <==> h.languageId == Some("en-newVersion") && current.Some?
    ensures r.Some? ==> r == current
  {
    if h.languageId == Some(Id(English1985)) then current else None
  }
}
