/** The two searches over the loaded hymns: `SearchView`'s scored search
    (normalised terms matched against titles and verses, best score first)
    and `HymnListView`'s plain filter (title or number contains the text). */
module Search {
  import opened Wrappers
  import opened Text
  import opened Seqs
  import opened Hymns

  // ---------------------------------------------------------------------------
  // Normalising and splitting
  // ---------------------------------------------------------------------------

  /** `normalizeText`: lower-cased, every ',' and '.' removed, spaces trimmed. */
  function Normalize(t: string): string {
    TrimBlank(ReplaceAll(ReplaceAll(Lower(t), ",", ""), ".", ""))
  }

  /** What normalised text looks like: lower-case, no ',' or '.', and no
      space at either end. */
  predicate Normal(s: string) {
    && (forall i :: 0 <= i < |s| ==> LowerChar(s[i]) == s[i] && s[i] != ',' && s[i] != '.')
    && (|s| > 0 ==> !IsBlank(s[0]) && !IsBlank(s[|s| - 1]))
  }

  /** Every character is lower-case and neither ',' nor '.'. */
  predicate Clean(s: string) {
    forall x :: x in s ==> LowerChar(x) == x && x != ',' && x != '.'
  }

  lemma RemovingPunctuationCleans(t: string)
    ensures Clean(ReplaceAll(ReplaceAll(Lower(t), ",", ""), ".", ""))
  {
    var l := Lower(t);
    var a := ReplaceAll(l, ",", "");
    DeleteCharSpec(l, ',');
    DeleteCharSpec(a, '.');
    assert forall x :: x in l ==> LowerChar(x) == x;
  }

  /** Trimming clean text gives normal text. */
  lemma TrimmingClean(b: string)
    requires Clean(b)
    ensures Normal(TrimBlank(b))
  {
    var r := TrimBlank(b);
    forall i | 0 <= i < |r| ensures r[i] in b {
      assert r[i] == b[LeadCount(b, IsBlank) + i];
    }
  }

  lemma NormalizeIsNormal(t: string)
    ensures Normal(Normalize(t))
  {
    RemovingPunctuationCleans(t);
    TrimmingClean(ReplaceAll(ReplaceAll(Lower(t), ",", ""), ".", ""));
  }

  /** Normal text is its own normal form. */
  lemma NormalIsFixed(s: string)
    requires Normal(s)
    ensures Normalize(s) == s
  {
    assert Lower(s) == s;
    ContainsChar(s, ',');
    ContainsChar(s, '.');
    ReplaceAbsent(s, ",", "");
    ReplaceAbsent(s, ".", "");
    TrimOfTrimmed(s, IsBlank);
  }

  /** Normalising twice is normalising once. */
  lemma NormalizeIdempotent(t: string)
    ensures Normalize(Normalize(t)) == Normalize(t)
  {
    NormalizeIsNormal(t);
    NormalIsFixed(Normalize(t));
  }

  /** `components(separatedBy: .whitespaces)`. */
  function Words(s: string): seq<string> {
    SplitOnClass(s, IsBlank)
  }

  /** `splitSearchTerms`: the non-empty space-separated pieces of the
      normalised text. */
  function SearchTerms(text: string): seq<string> {
    Filter(Words(Normalize(text)), NonEmpty)
  }

  /** Every term is non-empty and holds no space character. */
  lemma SearchTermsShape(text: string)
    ensures forall k :: 0 <= k < |SearchTerms(text)| ==> |SearchTerms(text)[k]| > 0
    ensures forall k, j :: 0 <= k < |SearchTerms(text)| && 0 <= j < |SearchTerms(text)[k]| ==>
              !IsBlank(SearchTerms(text)[k][j])
  {
    var pieces := Words(Normalize(text));
    SplitOnClassPieces(Normalize(text), IsBlank, "");
    forall k, j | 0 <= k < |SearchTerms(text)| && 0 <= j < |SearchTerms(text)[k]|
      ensures !IsBlank(SearchTerms(text)[k][j])
    {
      var m :| 0 <= m < |pieces| && pieces[m] == SearchTerms(text)[k];
    }
  }

  /** Every word of a text occurs in it. */
  lemma {:induction false} WordsOccur(s: string, p: char -> bool, cur: string)
    ensures forall k :: 0 <= k < |SplitOnClassFrom(s, p, cur)| ==> Contains(cur + s, SplitOnClassFrom(s, p, cur)[k])
    decreases |s|
  {
    if |s| == 0 {
      assert cur + s == cur;
      ContainsSelf(cur);
    } else if p(s[0]) {
      WordsOccur(s[1..], p, "");
      var rest := SplitOnClassFrom(s[1..], p, "");
      var r := [cur] + rest;
      assert HasPrefix(cur + s, cur);
      forall k | 1 <= k < |r| ensures Contains(cur + s, r[k]) {
        var whole := cur + s;
        assert r[k] == rest[k - 1];
        assert "" + s[1..] == s[1..];
        assert Contains(s[1..], r[k]);
        assert whole[|cur| + 1..|whole|] == s[1..];
        ContainsInSlice(whole, |cur| + 1, |whole|, r[k]);
      }
    } else {
      WordsOccur(s[1..], p, cur + [s[0]]);
      assert cur + [s[0]] + s[1..] == cur + s;
    }
  }

  /** A text containing a word of `s` that contains `t` contains `t`. */
  lemma WordContains(s: string, w: string, t: string)
    requires w in Words(s) && Contains(w, t)
    ensures Contains(s, t)
  {
    WordsOccur(s, IsBlank, "");
    assert "" + s == s;
    ContainsIffOccurs(s, w);
    var i :| OccursAt(s, w, i);
    assert s[i..i + |w|] == w;
    ContainsInSlice(s, i, i + |w|, t);
  }

  // ---------------------------------------------------------------------------
  // Scoring
  // ---------------------------------------------------------------------------

  /** Some word of `s` contains `t`. */
  predicate SomeWordContains(s: string, t: string) {
    exists k :: 0 <= k < |Words(s)| && Contains(Words(s)[k], t)
  }

  /** What one normalised verse adds for a term: 10 when it contains it,
      15 more when it has it as a word. */
  function VerseScore(term: string, verse: string): nat {
    (if Contains(verse, term) then 10 else 0) + (if term in Words(verse) then 15 else 0)
  }

  function VersesScore(term: string, verses: seq<string>): nat
    decreases |verses|
  {
    if |verses| == 0 then 0 else VerseScore(term, verses[0]) + VersesScore(term, verses[1..])
  }

  /** What one term adds: 50 when the title contains it, 75 when it is a
      title word, 25 when some title word contains it, plus the verses. */
  function TermScore(term: string, title: string, verses: seq<string>): nat {
    (if Contains(title, term) then 50 else 0)
    + (if term in Words(title) then 75 else 0)
    + (if SomeWordContains(title, term) then 25 else 0)
    + VersesScore(term, verses)
  }

  function TermsScore(terms: seq<string>, title: string, verses: seq<string>): nat
    decreases |terms|
  {
    if |terms| == 0 then 0 else TermScore(terms[0], title, verses) + TermsScore(terms[1..], title, verses)
  }

  function NormalizedVerses(h: Hymn): seq<string> {
    seq(|h.verses|, i requires 0 <= i < |h.verses| => Normalize(h.verses[i]))
  }

  /** `matchScore`: 0 without terms; else 100 when a term is the hymn's
      number, plus what each term adds. */
  function MatchScore(h: Hymn, terms: seq<string>): int {
    if |terms| == 0 then 0
    else (if IntToString(h.number) in terms then 100 else 0) + TermsScore(terms, Normalize(h.title), NormalizedVerses(h))
  }

  /** The term occurs in the title or in one of the verses. */
  predicate MentionedIn(title: string, verses: seq<string>, term: string) {
    Contains(title, term) || exists v :: 0 <= v < |verses| && Contains(verses[v], term)
  }

  /** The term occurs in the normalised title or in a normalised verse. */
  predicate Mentions(h: Hymn, term: string) {
    MentionedIn(Normalize(h.title), NormalizedVerses(h), term)
  }

  lemma {:induction false} VersesScorePositive(term: string, verses: seq<string>)
    ensures VersesScore(term, verses) > 0 <==> exists v :: 0 <= v < |verses| && Contains(verses[v], term)
    decreases |verses|
  {
    if |verses| > 0 {
      VersesScorePositive(term, verses[1..]);
      if term in Words(verses[0]) {
        ContainsSelf(term);
        WordContains(verses[0], term, term);
      }
      if exists v :: 0 <= v < |verses| && Contains(verses[v], term) {
        var v :| 0 <= v < |verses| && Contains(verses[v], term);
        if v > 0 {
          assert verses[1..][v - 1] == verses[v];
        }
      }
      if exists v :: 0 <= v < |verses[1..]| && Contains(verses[1..][v], term) {
        var v :| 0 <= v < |verses[1..]| && Contains(verses[1..][v], term);
        assert verses[v + 1] == verses[1..][v];
      }
    }
  }

  /** The title part of a term's score is positive exactly when the title
      contains the term. */
  lemma TitleScorePositive(title: string, term: string)
    ensures (term in Words(title) || SomeWordContains(title, term)) ==> Contains(title, term)
  {
    if term in Words(title) {
      ContainsSelf(term);
      WordContains(title, term, term);
    }
    if SomeWordContains(title, term) {
      var k :| 0 <= k < |Words(title)| && Contains(Words(title)[k], term);
      WordContains(title, Words(title)[k], term);
    }
  }

  lemma TermScorePositive(title: string, verses: seq<string>, term: string)
    ensures TermScore(term, title, verses) > 0 <==> MentionedIn(title, verses, term)
  {
    VersesScorePositive(term, verses);
    TitleScorePositive(title, term);
  }

  lemma {:induction false} TermsScorePositive(h: Hymn, terms: seq<string>)
    ensures TermsScore(terms, Normalize(h.title), NormalizedVerses(h)) > 0 <==>
            exists k :: 0 <= k < |terms| && Mentions(h, terms[k])
    decreases |terms|
  {
    if |terms| > 0 {
      TermsScorePositive(h, terms[1..]);
      TermScorePositive(Normalize(h.title), NormalizedVerses(h), terms[0]);
      if exists k :: 0 <= k < |terms| && Mentions(h, terms[k]) {
        var k :| 0 <= k < |terms| && Mentions(h, terms[k]);
        if k > 0 {
          assert terms[1..][k - 1] == terms[k];
        }
      }
      if exists k :: 0 <= k < |terms[1..]| && Mentions(h, terms[1..][k]) {
        var k :| 0 <= k < |terms[1..]| && Mentions(h, terms[1..][k]);
        assert terms[k + 1] == terms[1..][k];
      }
    }
  }

  /** A hymn scores above zero exactly when some term is its number or
      occurs in its title or one of its verses; a number match alone is
      worth 100. */
  lemma MatchScoreSpec(h: Hymn, terms: seq<string>)
    ensures MatchScore(h, terms) >= 0
    ensures MatchScore(h, terms) > 0 <==>
            |terms| > 0 && (IntToString(h.number) in terms || exists k :: 0 <= k < |terms| && Mentions(h, terms[k]))
    ensures |terms| > 0 && IntToString(h.number) in terms ==> MatchScore(h, terms) >= 100
  {
    TermsScorePositive(h, terms);
  }

  // ---------------------------------------------------------------------------
  // Results
  // ---------------------------------------------------------------------------

  /** The hymns scoring above zero, best score first. */
  function Ranked(hymns: seq<Hymn>, terms: seq<string>): seq<Hymn> {
    SortBy(Filter(hymns, (h: Hymn) => MatchScore(h, terms) > 0), (h: Hymn) => -MatchScore(h, terms))
  }

  /** The ranking holds exactly the hymns scoring above zero, each as often
      as the filter keeps it, and scores never rise along it. */
  lemma RankedSpec(hymns: seq<Hymn>, terms: seq<string>)
    ensures forall i :: 0 <= i < |Ranked(hymns, terms)| ==>
              MatchScore(Ranked(hymns, terms)[i], terms) > 0 && Ranked(hymns, terms)[i] in hymns
    ensures forall i :: 0 <= i < |hymns| && MatchScore(hymns[i], terms) > 0 ==> hymns[i] in Ranked(hymns, terms)
    ensures forall i, j :: 0 <= i < j < |Ranked(hymns, terms)| ==>
              MatchScore(Ranked(hymns, terms)[i], terms) >= MatchScore(Ranked(hymns, terms)[j], terms)
    ensures multiset(Ranked(hymns, terms)) == multiset(Filter(hymns, (h: Hymn) => MatchScore(h, terms) > 0))
  {
    var kept := Filter(hymns, (h: Hymn) => MatchScore(h, terms) > 0);
    var r := Ranked(hymns, terms);
    forall i | 0 <= i < |r| ensures MatchScore(r[i], terms) > 0 && r[i] in hymns {
      assert r[i] in multiset(kept);
    }
    forall i | 0 <= i < |hymns| && MatchScore(hymns[i], terms) > 0 ensures hymns[i] in r {
      assert hymns[i] in multiset(r);
    }
  }

  /** `filteredHymns` of `SearchView`: nothing for an empty text or no
      terms; otherwise the ranking. */
  function Searched(hymns: seq<Hymn>, text: string): (r: seq<Hymn>)
    ensures |text| == 0 || |SearchTerms(text)| == 0 ==> r == []
    ensures |text| > 0 && |SearchTerms(text)| > 0 ==> r == Ranked(hymns, SearchTerms(text))
  {
    if |text| == 0 then []
    else
      var terms := SearchTerms(text);
      if |terms| == 0 then [] else Ranked(hymns, terms)
  }

  /** With no terms nothing scores, so the search result is always the
      ranking of what scores above zero. */
  lemma SearchedSpec(hymns: seq<Hymn>, text: string)
    requires |text| > 0
    ensures Searched(hymns, text) == Ranked(hymns, SearchTerms(text))
  {
    if |SearchTerms(text)| == 0 {
      FilterNone(hymns, (h: Hymn) => MatchScore(h, SearchTerms(text)) > 0);
    }
  }

  /** Text of digits only is normal and holds no space. */
  lemma DigitsAreNormal(d: string)
    requires AllDigits(d)
    ensures Normal(d)
    ensures forall j :: 0 <= j < |d| ==> !IsBlank(d[j])
  {
  }

  /** Normal non-empty text without spaces is a single search term. */
  lemma OneWordIsOneTerm(d: string)
    requires |d| > 0 && Normal(d)
    requires forall j :: 0 <= j < |d| ==> !IsBlank(d[j])
    ensures SearchTerms(d) == [d]
  {
    NormalIsFixed(d);
    SplitOnClassNone(d, IsBlank, "");
    assert "" + d == d;
    assert Words(Normalize(d)) == [d];
    assert [d][1..] == [];
  }

  /** The decimal form of a number is a single search term. */
  lemma NumberIsOneTerm(n: nat)
    ensures SearchTerms(IntToString(n)) == [IntToString(n)]
  {
    DigitsAreNormal(NatToString(n));
    OneWordIsOneTerm(IntToString(n));
  }

  /** Searching for a hymn's number finds it. */
  lemma SearchByNumberFinds(hymns: seq<Hymn>, i: nat)
    requires i < |hymns| && hymns[i].number >= 0
    ensures hymns[i] in Searched(hymns, IntToString(hymns[i].number))
  {
    var d := IntToString(hymns[i].number);
    NumberIsOneTerm(hymns[i].number);
    MatchScoreSpec(hymns[i], [d]);
    RankedSpec(hymns, [d]);
  }

  // ---------------------------------------------------------------------------
  // The hymn list filter
  // ---------------------------------------------------------------------------

  /** The hymn list keeps a hymn when its title contains the text ignoring
      letter case, or its decimal number contains the text. */
  predicate ListMatches(h: Hymn, text: string) {
    Contains(Lower(h.title), Lower(text)) || Contains(IntToString(h.number), text)
  }

  /** `filteredHymns` of `HymnListView`: all hymns for an empty text. */
  function ListFiltered(hymns: seq<Hymn>, text: string): seq<Hymn> {
    if |text| == 0 then hymns else Filter(hymns, (h: Hymn) => ListMatches(h, text))
  }

  /** The list keeps order, keeps exactly the matching hymns, and always
      keeps a hymn whose number is the text. */
  lemma ListFilteredSpec(hymns: seq<Hymn>, text: string)
    ensures |text| == 0 ==> ListFiltered(hymns, text) == hymns
    ensures Subseq(ListFiltered(hymns, text), hymns)
    ensures |text| > 0 ==> forall i :: 0 <= i < |ListFiltered(hymns, text)| ==> ListMatches(ListFiltered(hymns, text)[i], text)
    ensures forall i :: 0 <= i < |hymns| && ListMatches(hymns[i], text) ==> hymns[i] in ListFiltered(hymns, text)
    ensures forall i :: 0 <= i < |hymns| && IntToString(hymns[i].number) == text ==> hymns[i] in ListFiltered(hymns, text)
    ensures forall h :: h in hymns && ListMatches(h, text) ==> multiset(ListFiltered(hymns, text))[h] == multiset(hymns)[h]
  {
    if |text| == 0 {
      SubseqRefl(hymns);
    } else {
      FilterSubseq(hymns, (h: Hymn) => ListMatches(h, text));
    }
    ContainsSelf(text);
  }
}
