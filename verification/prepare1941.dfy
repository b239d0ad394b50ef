/** `prepare_1941_json.py`: turns the 1941 hymnal's records, whose text is
    one string with verses separated by blank lines, into records with a
    list of verses. Reading and writing the JSON files is not modelled; the
    records are given and returned as values. */
module Prepare1941 {
  import opened Text
  import opened Seqs

  /** A record of the source file. */
  datatype SourceHymn = SourceHymn(number: int, title: string, content: string)

  /** A record of the prepared file. */
  datatype PreparedHymn = PreparedHymn(number: int, title: string, verses: seq<string>)

  /** The blank line between verses. */
  const VerseBreak := "\n\n"

  predicate NonEmpty(v: string) {
    |v| > 0
  }

  /** The pieces of `content.split('\n\n')`, each stripped. */
  function StrippedPieces(content: string): (r: seq<string>)
    ensures |r| == |Split(content, VerseBreak)|
    ensures forall i :: 0 <= i < |r| ==> r[i] == PyStrip(Split(content, VerseBreak)[i])
  {
    var ps := Split(content, VerseBreak);
    seq(|ps|, i requires 0 <= i < |ps| => PyStrip(ps[i]))
  }

  /** The verses of one record: the stripped pieces that are not empty. */
  function Verses(content: string): seq<string> {
    Filter(StrippedPieces(content), NonEmpty)
  }

  /** A verse as the script writes it: not empty, no white space at either
      end, and no blank line inside. */
  predicate WellFormedVerse(v: string) {
    && |v| > 0
    && !IsPySpace(v[0]) && !IsPySpace(v[|v| - 1])
    && SeparatorFree(v, VerseBreak)
  }

  /** Every verse the script keeps is well formed. */
  lemma VersesWellFormed(content: string)
    ensures forall k :: 0 <= k < |Verses(content)| ==> WellFormedVerse(Verses(content)[k])
  {
    var ps := Split(content, VerseBreak);
    var stripped := StrippedPieces(content);
    SplitPiecesFree(content, VerseBreak);
    forall i | 0 <= i < |stripped| ensures SeparatorFree(stripped[i], VerseBreak) {
      var lo := LeadCount(ps[i], IsPySpace);
      SeparatorFreeSlice(ps[i], lo, lo + |stripped[i]|, VerseBreak);
    }
    forall k | 0 <= k < |Verses(content)| ensures WellFormedVerse(Verses(content)[k]) {
      var v := Verses(content)[k];
      assert v in stripped;
    }
  }

  /** A well-formed verse followed by a blank line meets no blank line
      before that one. */
  lemma WellFormedNoEarlyBreak(v: string)
    requires WellFormedVerse(v)
    ensures NoEarlySeparator(v, VerseBreak)
  {
    forall i | 0 <= i < |v| ensures !HasPrefix((v + VerseBreak)[i..], VerseBreak) {
      if i == |v| - 1 {
        assert (v + VerseBreak)[i] == v[|v| - 1];
        assert IsPySpace('\n');
      } else {
        assert !HasPrefix(v[i..], VerseBreak);
        assert (v + VerseBreak)[i..][..2] == v[i..][..2];
      }
    }
  }

  /** Preparing is a fixed point: the verses written back out, joined by
      blank lines, prepare to the same verses. */
  lemma VersesIdempotent(content: string)
    ensures Verses(Join(Verses(content), VerseBreak)) == Verses(content)
  {
    var vs := Verses(content);
    VersesWellFormed(content);
    if |vs| == 0 {
      assert Join(vs, VerseBreak) == "";
      assert Split("", VerseBreak) == [""];
      assert StrippedPieces("") == [""];
      assert Filter([""], NonEmpty) == [];
    } else {
      forall k | 0 <= k < |vs| ensures NoEarlySeparator(vs[k], VerseBreak) {
        WellFormedNoEarlyBreak(vs[k]);
      }
      SplitJoin(vs, VerseBreak);
      var again := StrippedPieces(Join(vs, VerseBreak));
      forall k | 0 <= k < |vs| ensures again[k] == vs[k] {
        TrimOfTrimmed(vs[k], IsPySpace);
      }
      assert again == vs;
      FilterAll(vs, NonEmpty);
    }
  }

  /** Content without a blank line gives the whole text, stripped, as its one
      verse, unless it is all white space. */
  lemma SingleVerse(content: string)
    requires SeparatorFree(content, VerseBreak)
    ensures |PyStrip(content)| > 0 ==> Verses(content) == [PyStrip(content)]
    ensures |PyStrip(content)| == 0 ==> Verses(content) == []
  {
    SplitFromFree(content, VerseBreak, "");
    assert "" + content == content;
    assert StrippedPieces(content) == [PyStrip(content)];
    FilterOne(PyStrip(content), NonEmpty);
  }

  /** The script's transformation: one prepared record per source record, in
      order, with number and title copied and the content cut into verses. */
  function Prepare(hymns: seq<SourceHymn>): (r: seq<PreparedHymn>)
    ensures |r| == |hymns|
    ensures forall i :: 0 <= i < |r| ==>
              r[i].number == hymns[i].number && r[i].title == hymns[i].title
    ensures forall i :: 0 <= i < |r| ==> r[i].verses == Verses(hymns[i].content)
  {
    seq(|hymns|, i requires 0 <= i < |hymns| =>
      PreparedHymn(hymns[i].number, hymns[i].title, Verses(hymns[i].content)))
  }
}
