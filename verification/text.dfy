/** String primitives shared by the whole model: the character classes used
    by Foundation's trimming and by Python's `str.strip`, ASCII case mapping,
    literal search, splitting, joining and replacing, and decimal printing and
    parsing as Swift's `String(format: "%03d")`, `Int(String)` and Python's
    `int(str)` / `str.zfill` do them. */
module Text {
  import opened Wrappers

  // ---------------------------------------------------------------------------
  // Character classes
  // ---------------------------------------------------------------------------

  /** Foundation's `CharacterSet.whitespaces`: the Unicode space separators
      (category Zs) and the horizontal tab. */
  predicate IsBlank(c: char) {
    || c == ' ' || c == '\t' || c == '\U{00A0}' || c == '\U{1680}'
    || ('\U{2000}' <= c <= '\U{200A}')
    || c == '\U{202F}' || c == '\U{205F}' || c == '\U{3000}'
  }

  /** Foundation's `CharacterSet.newlines`: U+000A to U+000D, U+0085, U+2028, U+2029. */
  predicate IsNewline(c: char) {
    ('\n' <= c <= '\r') || c == '\U{0085}' || c == '\U{2028}' || c == '\U{2029}'
  }

  /** Foundation's `CharacterSet.whitespacesAndNewlines`. */
  predicate IsSpaceOrNewline(c: char) {
    IsBlank(c) || IsNewline(c)
  }

  /** Python's `str.isspace` on one character: Foundation's set plus the four
      information separators U+001C to U+001F. */
  predicate IsPySpace(c: char) {
    IsSpaceOrNewline(c) || ('\U{001C}' <= c <= '\U{001F}')
  }

  predicate IsDigit(c: char) {
    '0' <= c <= '9'
  }

  predicate AllDigits(s: string) {
    forall i :: 0 <= i < |s| ==> IsDigit(s[i])
  }

  // ---------------------------------------------------------------------------
  // Case mapping (ASCII letters only)
  // ---------------------------------------------------------------------------

  function LowerChar(c: char): char {
    if 'A' <= c <= 'Z' then (c as int + 32) as char else c
  }

  function Lower(s: string): (r: string)
    ensures |r| == |s|
    ensures forall i :: 0 <= i < |s| ==> r[i] == LowerChar(s[i])
  {
    seq(|s|, i requires 0 <= i < |s| => LowerChar(s[i]))
  }

  /** Lower-casing an already lower-cased string changes nothing. */
  lemma LowerIdempotent(s: string)
    ensures Lower(Lower(s)) == Lower(s)
  {
  }

  // ---------------------------------------------------------------------------
  // Trimming
  // ---------------------------------------------------------------------------

  /** First index at or after `i` whose character is outside the class. */
  function SkipFrom(s: string, p: char -> bool, i: nat): (k: nat)
    requires i <= |s|
    ensures i <= k <= |s|
    ensures forall j :: i <= j < k ==> p(s[j])
    ensures k < |s| ==> !p(s[k])
    decreases |s| - i
  {
    if i < |s| && p(s[i]) then SkipFrom(s, p, i + 1) else i
  }

  /** End of the text once the run of class characters ending at `j` is
      dropped, never going below `lo`. */
  function SkipBackFrom(s: string, p: char -> bool, lo: nat, j: nat): (k: nat)
    requires lo <= j <= |s|
    ensures lo <= k <= j
    ensures forall i :: k <= i < j ==> p(s[i])
    ensures k > lo ==> !p(s[k - 1])
    decreases j
  {
    if j > lo && p(s[j - 1]) then SkipBackFrom(s, p, lo, j - 1) else j
  }

  /** Number of leading characters of `s` satisfying `p`. */
  function LeadCount(s: string, p: char -> bool): (k: nat)
    ensures k <= |s|
  {
    SkipFrom(s, p, 0)
  }

  /** Removes the longest prefix and suffix made of characters satisfying `p`:
      the result is the slice of `s` starting after the leading run, whose
      first and last characters do not satisfy `p`, and everything outside it
      does. */
  function Trim(s: string, p: char -> bool): (r: string)
    ensures LeadCount(s, p) + |r| <= |s|
    ensures r == s[LeadCount(s, p)..LeadCount(s, p) + |r|]
    ensures forall i :: 0 <= i < LeadCount(s, p) ==> p(s[i])
    ensures forall i :: LeadCount(s, p) + |r| <= i < |s| ==> p(s[i])
    ensures |r| > 0 ==> !p(r[0]) && !p(r[|r| - 1])
  {
    var lo := SkipFrom(s, p, 0);
    var hi := SkipBackFrom(s, p, lo, |s|);
    s[lo..hi]
  }

  /** `trimmingCharacters(in: .whitespacesAndNewlines)`. */
  function TrimSpace(s: string): string {
    Trim(s, IsSpaceOrNewline)
  }

  /** `trimmingCharacters(in: .whitespaces)`. */
  function TrimBlank(s: string): string {
    Trim(s, IsBlank)
  }

  /** Python's `str.strip()` with no argument. */
  function PyStrip(s: string): string {
    Trim(s, IsPySpace)
  }

  /** A string that already starts and ends outside the class is left alone,
      so every trim is idempotent. */
  lemma TrimOfTrimmed(s: string, p: char -> bool)
    requires |s| > 0 ==> !p(s[0]) && !p(s[|s| - 1])
    ensures Trim(s, p) == s
  {
  }

  // ---------------------------------------------------------------------------
  // Literal search
  // ---------------------------------------------------------------------------

  predicate HasPrefix(s: string, p: string) {
    |p| <= |s| && s[..|p|] == p
  }

  predicate HasSuffix(s: string, p: string) {
    |p| <= |s| && s[|s| - |p|..] == p
  }

  predicate OccursAt(s: string, t: string, i: int) {
    0 <= i && i + |t| <= |s| && s[i..i + |t|] == t
  }

  /** Substring test, as Swift's `String.contains(_:)` with a string argument
      and Python's `in`. */
  predicate Contains(s: string, t: string)
    decreases |s|
  {
    HasPrefix(s, t) || (|s| > 0 && Contains(s[1..], t))
  }

  lemma ContainsIffOccurs(s: string, t: string)
    ensures Contains(s, t) <==> exists i :: OccursAt(s, t, i)
    decreases |s|
  {
    if HasPrefix(s, t) {
      assert OccursAt(s, t, 0);
    } else if |s| > 0 {
      ContainsIffOccurs(s[1..], t);
      if Contains(s[1..], t) {
        var i :| OccursAt(s[1..], t, i);
        assert OccursAt(s, t, i + 1);
      }
      if exists i :: OccursAt(s, t, i) {
        var i :| OccursAt(s, t, i);
        assert i != 0;
        assert OccursAt(s[1..], t, i - 1);
      }
    }
  }

  /** Every string contains itself. */
  lemma ContainsSelf(s: string)
    ensures Contains(s, s)
  {
    assert HasPrefix(s, s);
  }

  /** A slice of `s` that contains `t` means `s` contains `t`. */
  lemma ContainsInSlice(s: string, lo: int, hi: int, t: string)
    requires 0 <= lo <= hi <= |s|
    requires Contains(s[lo..hi], t)
    ensures Contains(s, t)
  {
    ContainsIffOccurs(s[lo..hi], t);
    var i :| OccursAt(s[lo..hi], t, i);
    assert 0 <= i && i + |t| <= hi - lo;
    forall k | 0 <= k < |t|
      ensures s[lo + i + k] == t[k]
    {
      assert s[lo..hi][i..i + |t|][k] == t[k];
    }
    assert s[lo + i..lo + i + |t|] == t;
    assert OccursAt(s, t, lo + i);
    ContainsIffOccurs(s, t);
  }

  // ---------------------------------------------------------------------------
  // Splitting, joining and replacing on a literal separator
  // ---------------------------------------------------------------------------

  /** Splits `s` at the non-overlapping occurrences of `sep` found from the
      left, prefixing the first piece with `cur`. */
  function SplitFrom(s: string, sep: string, cur: string): (r: seq<string>)
    requires |sep| > 0
    ensures |r| >= 1
    decreases |s|
  {
    if |s| == 0 then [cur]
    else if HasPrefix(s, sep) then [cur] + SplitFrom(s[|sep|..], sep, "")
    else SplitFrom(s[1..], sep, cur + [s[0]])
  }

  /** Swift's `components(separatedBy:)` with a string separator, and
      Python's `str.split(sep)`: empty pieces are kept, so the empty string
      gives one empty piece. */
  function Split(s: string, sep: string): (r: seq<string>)
    requires |sep| > 0
    ensures |r| >= 1
  {
    SplitFrom(s, sep, "")
  }

  /** Swift's `joined(separator:)` and Python's `str.join`. */
  function Join(parts: seq<string>, sep: string): string
    decreases |parts|
  {
    if |parts| == 0 then ""
    else if |parts| == 1 then parts[0]
    else parts[0] + sep + Join(parts[1..], sep)
  }

  /** Swift's `replacingOccurrences(of:with:)` and Python's `str.replace`:
      every non-overlapping occurrence of `pat`, scanning from the left, is
      replaced by `rep`. */
  function ReplaceAll(s: string, pat: string, rep: string): string
    requires |pat| > 0
    decreases |s|
  {
    if |s| == 0 then ""
    else if HasPrefix(s, pat) then rep + ReplaceAll(s[|pat|..], pat, rep)
    else [s[0]] + ReplaceAll(s[1..], pat, rep)
  }

  /** `replacingOccurrences(of:with:options: .caseInsensitive)`: like
      `ReplaceAll`, matching a window of `s` when it lower-cases to the
      lower-cased pattern. */
  function ReplaceAllCaseless(s: string, pat: string, rep: string): string
    requires |pat| > 0
    decreases |s|
  {
    if |s| == 0 then ""
    else if HasPrefix(Lower(s), Lower(pat)) then rep + ReplaceAllCaseless(s[|pat|..], pat, rep)
    else [s[0]] + ReplaceAllCaseless(s[1..], pat, rep)
  }

  /** Lower-casing commutes with taking a prefix or a suffix. */
  lemma LowerSlices(s: string, k: nat)
    requires k <= |s|
    ensures Lower(s)[..k] == Lower(s[..k]) && Lower(s)[k..] == Lower(s[k..])
  {
  }

  /** Caseless replacement of an all-lower-case pattern in an all-lower-case
      text is plain replacement. */
  lemma {:induction false} ReplaceCaselessOfLower(s: string, pat: string, rep: string)
    requires |pat| > 0 && Lower(s) == s && Lower(pat) == pat
    ensures ReplaceAllCaseless(s, pat, rep) == ReplaceAll(s, pat, rep)
    decreases |s|
  {
    if |s| > 0 {
      LowerSlices(s, 1);
      if HasPrefix(s, pat) {
        LowerSlices(s, |pat|);
        ReplaceCaselessOfLower(s[|pat|..], pat, rep);
      } else {
        ReplaceCaselessOfLower(s[1..], pat, rep);
      }
    }
  }

  lemma {:induction false} JoinSplitFrom(s: string, sep: string, cur: string)
    requires |sep| > 0
    ensures Join(SplitFrom(s, sep, cur), sep) == cur + s
    decreases |s|
  {
    if |s| == 0 {
    } else if HasPrefix(s, sep) {
      var rest := SplitFrom(s[|sep|..], sep, "");
      JoinSplitFrom(s[|sep|..], sep, "");
      assert ([cur] + rest)[1..] == rest;
      assert s == sep + s[|sep|..];
    } else {
      JoinSplitFrom(s[1..], sep, cur + [s[0]]);
      assert s == [s[0]] + s[1..];
    }
  }

  /** Joining the pieces of a split with the same separator gives the string back. */
  lemma JoinSplit(s: string, sep: string)
    requires |sep| > 0
    ensures Join(Split(s, sep), sep) == s
  {
    JoinSplitFrom(s, sep, "");
  }

  lemma {:induction false} ReplaceAsSplitFrom(s: string, pat: string, rep: string, cur: string)
    requires |pat| > 0
    ensures cur + ReplaceAll(s, pat, rep) == Join(SplitFrom(s, pat, cur), rep)
    decreases |s|
  {
    if |s| == 0 {
    } else if HasPrefix(s, pat) {
      var rest := SplitFrom(s[|pat|..], pat, "");
      ReplaceAsSplitFrom(s[|pat|..], pat, rep, "");
      assert ([cur] + rest)[1..] == rest;
    } else {
      ReplaceAsSplitFrom(s[1..], pat, rep, cur + [s[0]]);
    }
  }

  /** Replacing is splitting at the pattern and joining with the replacement:
      the two definitions agree on every input. */
  lemma ReplaceIsSplitJoin(s: string, pat: string, rep: string)
    requires |pat| > 0
    ensures ReplaceAll(s, pat, rep) == Join(Split(s, pat), rep)
  {
    ReplaceAsSplitFrom(s, pat, rep, "");
  }

  /** A string without the pattern is left unchanged by replacing. */
  lemma {:induction false} ReplaceAbsent(s: string, pat: string, rep: string)
    requires |pat| > 0
    requires !Contains(s, pat)
    ensures ReplaceAll(s, pat, rep) == s
    decreases |s|
  {
    if |s| > 0 {
      ReplaceAbsent(s[1..], pat, rep);
      assert s == [s[0]] + s[1..];
    }
  }

  /** A one-character pattern occurs exactly where its character does. */
  lemma ContainsChar(s: string, c: char)
    ensures Contains(s, [c]) <==> exists i :: 0 <= i < |s| && s[i] == c
  {
    ContainsIffOccurs(s, [c]);
    if Contains(s, [c]) {
      var i :| OccursAt(s, [c], i);
      assert s[i..i + 1][0] == s[i];
    }
    if exists i :: 0 <= i < |s| && s[i] == c {
      var i :| 0 <= i < |s| && s[i] == c;
      assert OccursAt(s, [c], i);
    }
  }

  /** Deleting every `c` leaves no `c`, and keeps only characters of `s`. */
  lemma {:induction false} DeleteCharSpec(s: string, c: char)
    ensures forall i :: 0 <= i < |ReplaceAll(s, [c], "")| ==>
              ReplaceAll(s, [c], "")[i] != c && ReplaceAll(s, [c], "")[i] in s
    decreases |s|
  {
    if |s| > 0 {
      DeleteCharSpec(s[1..], c);
      var rest := ReplaceAll(s[1..], [c], "");
      assert forall x :: x in s[1..] ==> x in s;
      if !HasPrefix(s, [c]) {
        assert s[..1] == [s[0]];
        var r := [s[0]] + rest;
        assert forall i :: 1 <= i < |r| ==> r[i] == rest[i - 1];
      }
    }
  }

  /** Splits `s` at every character of the class, keeping empty pieces and
      prefixing the first piece with `cur`. */
  function SplitOnClassFrom(s: string, p: char -> bool, cur: string): (r: seq<string>)
    ensures |r| >= 1
    decreases |s|
  {
    if |s| == 0 then [cur]
    else if p(s[0]) then [cur] + SplitOnClassFrom(s[1..], p, "")
    else SplitOnClassFrom(s[1..], p, cur + [s[0]])
  }

  /** `components(separatedBy:)` with a character set. */
  function SplitOnClass(s: string, p: char -> bool): (r: seq<string>)
    ensures |r| >= 1
  {
    SplitOnClassFrom(s, p, "")
  }

  /** No piece holds a character of the class. */
  lemma {:induction false} SplitOnClassPieces(s: string, p: char -> bool, cur: string)
    requires forall j :: 0 <= j < |cur| ==> !p(cur[j])
    ensures forall k, j :: 0 <= k < |SplitOnClassFrom(s, p, cur)| && 0 <= j < |SplitOnClassFrom(s, p, cur)[k]| ==>
              !p(SplitOnClassFrom(s, p, cur)[k][j])
    decreases |s|
  {
    if |s| > 0 {
      if p(s[0]) {
        SplitOnClassPieces(s[1..], p, "");
        var rest := SplitOnClassFrom(s[1..], p, "");
        var r := [cur] + rest;
        assert forall k :: 1 <= k < |r| ==> r[k] == rest[k - 1];
      } else {
        var next := cur + [s[0]];
        assert forall j :: 0 <= j < |next| ==> !p(next[j]);
        SplitOnClassPieces(s[1..], p, next);
      }
    }
  }

  /** Text without a character of the class comes back as one piece. */
  lemma {:induction false} SplitOnClassNone(s: string, p: char -> bool, cur: string)
    requires forall j :: 0 <= j < |s| ==> !p(s[j])
    ensures SplitOnClassFrom(s, p, cur) == [cur + s]
    decreases |s|
  {
    if |s| > 0 {
      SplitOnClassNone(s[1..], p, cur + [s[0]]);
      assert cur + [s[0]] + s[1..] == cur + s;
    } else {
      assert cur + s == cur;
    }
  }

  /** No occurrence of `sep` starts inside `v` when `v` is followed by `sep`:
      the separator written after `v` is the first one a left-to-right scan finds. */
  predicate NoEarlySeparator(v: string, sep: string) {
    forall i :: 0 <= i < |v| ==> !HasPrefix((v + sep)[i..], sep)
  }

  /** No occurrence of `sep` starts anywhere inside `v`. */
  predicate SeparatorFree(v: string, sep: string) {
    forall i :: 0 <= i < |v| ==> !HasPrefix(v[i..], sep)
  }

  /** The pieces of a split hold no separator, provided the scan has not
      passed one already in `cur`. */
  lemma {:induction false} SplitFromPiecesFree(s: string, sep: string, cur: string)
    requires |sep| > 0
    requires forall i :: 0 <= i < |cur| ==> !HasPrefix((cur + s)[i..], sep)
    ensures forall k :: 0 <= k < |SplitFrom(s, sep, cur)| ==> SeparatorFree(SplitFrom(s, sep, cur)[k], sep)
    decreases |s|
  {
    if |s| == 0 {
      assert cur + s == cur;
    } else if HasPrefix(s, sep) {
      forall i | 0 <= i < |cur| ensures !HasPrefix(cur[i..], sep) {
        assert !HasPrefix((cur + s)[i..], sep);
        if |sep| <= |cur| - i {
          assert cur[i..][..|sep|] == (cur + s)[i..][..|sep|];
        }
      }
      SplitFromPiecesFree(s[|sep|..], sep, "");
    } else {
      var next := cur + [s[0]];
      assert next + s[1..] == cur + s;
      assert (cur + s)[|cur|..] == s;
      SplitFromPiecesFree(s[1..], sep, next);
    }
  }

  /** The pieces of `Split(s, sep)` hold no separator. */
  lemma SplitPiecesFree(s: string, sep: string)
    requires |sep| > 0
    ensures forall k :: 0 <= k < |Split(s, sep)| ==> SeparatorFree(Split(s, sep)[k], sep)
  {
    SplitFromPiecesFree(s, sep, "");
  }

  /** A separator-free string is not cut: it comes back as one piece. */
  lemma {:induction false} SplitFromFree(s: string, sep: string, cur: string)
    requires |sep| > 0
    requires SeparatorFree(s, sep)
    ensures SplitFrom(s, sep, cur) == [cur + s]
    decreases |s|
  {
    if |s| == 0 {
      assert cur + s == cur;
    } else {
      assert !HasPrefix(s[0..], sep);
      assert s[0..] == s;
      forall i | 0 <= i < |s[1..]| ensures !HasPrefix(s[1..][i..], sep) {
        assert s[1..][i..] == s[i + 1..];
      }
      SplitFromFree(s[1..], sep, cur + [s[0]]);
      assert cur + [s[0]] + s[1..] == cur + s;
    }
  }

  /** A slice of a separator-free string is separator-free. */
  lemma SeparatorFreeSlice(v: string, lo: int, hi: int, sep: string)
    requires 0 <= lo <= hi <= |v|
    requires SeparatorFree(v, sep)
    ensures SeparatorFree(v[lo..hi], sep)
  {
    forall i | 0 <= i < hi - lo ensures !HasPrefix(v[lo..hi][i..], sep) {
      assert !HasPrefix(v[lo + i..], sep);
      if |sep| <= hi - lo - i {
        assert v[lo..hi][i..][..|sep|] == v[lo + i..][..|sep|];
      }
    }
  }

  lemma {:induction false} SplitSkipsPiece(v: string, rest: string, sep: string, cur: string)
    requires |sep| > 0
    requires forall i :: 0 <= i < |v| ==> !HasPrefix((v + rest)[i..], sep)
    ensures SplitFrom(v + rest, sep, cur) == SplitFrom(rest, sep, cur + v)
    decreases |v|
  {
    if |v| > 0 {
      var s := v + rest;
      assert !HasPrefix(s[0..], sep);
      assert s[0..] == s;
      assert s[1..] == v[1..] + rest;
      forall i | 0 <= i < |v[1..]|
        ensures !HasPrefix((v[1..] + rest)[i..], sep)
      {
        assert (v[1..] + rest)[i..] == s[i + 1..];
      }
      SplitSkipsPiece(v[1..], rest, sep, cur + [v[0]]);
      assert cur + [v[0]] + v[1..] == cur + v;
    } else {
      assert v + rest == rest && cur + v == cur;
    }
  }

  lemma NoEarlyInPrefix(v: string, rest: string, sep: string)
    requires NoEarlySeparator(v, sep)
    requires HasPrefix(rest, sep) || (|rest| == 0 && |sep| > 0)
    ensures forall i :: 0 <= i < |v| ==> !HasPrefix((v + rest)[i..], sep)
  {
    forall i | 0 <= i < |v|
      ensures HasPrefix((v + rest)[i..], sep) ==> HasPrefix((v + sep)[i..], sep)
    {
      if |rest| > 0 {
        assert (v + rest)[i..][..|sep|] == (v + sep)[i..][..|sep|];
      } else if |v| - i >= |sep| {
        assert (v + rest)[i..][..|sep|] == (v + sep)[i..][..|sep|];
      }
    }
  }

  /** Splitting a join gives the pieces back when no piece lets the scan find a
      separator early. */
  lemma {:induction false} SplitJoin(parts: seq<string>, sep: string)
    requires |sep| > 0
    requires |parts| > 0
    requires forall k :: 0 <= k < |parts| ==> NoEarlySeparator(parts[k], sep)
    ensures Split(Join(parts, sep), sep) == parts
    decreases |parts|
  {
    if |parts| == 1 {
      NoEarlyInPrefix(parts[0], "", sep);
      assert parts[0] + "" == parts[0];
      SplitSkipsPiece(parts[0], "", sep, "");
      assert "" + parts[0] == parts[0];
      assert SplitFrom("", sep, parts[0]) == [parts[0]];
      assert parts == [parts[0]];
    } else {
      var tail := Join(parts[1..], sep);
      var rest := sep + tail;
      assert HasPrefix(rest, sep);
      NoEarlyInPrefix(parts[0], rest, sep);
      assert Join(parts, sep) == parts[0] + rest;
      SplitSkipsPiece(parts[0], rest, sep, "");
      assert "" + parts[0] == parts[0];
      assert rest[|sep|..] == tail;
      assert SplitFrom(rest, sep, parts[0]) == [parts[0]] + SplitFrom(tail, sep, "");
      SplitJoin(parts[1..], sep);
      assert parts == [parts[0]] + parts[1..];
    }
  }

  // ---------------------------------------------------------------------------
  // Decimal printing
  // ---------------------------------------------------------------------------

  function DigitChar(d: int): (c: char)
    requires 0 <= d <= 9
    ensures IsDigit(c)
  {
    ('0' as int + d) as char
  }

  function DigitValue(c: char): (d: int)
    requires IsDigit(c)
    ensures 0 <= d <= 9
  {
    c as int - '0' as int
  }

  function Pow10(k: nat): (r: nat)
    ensures r >= 1
  {
    if k == 0 then 1 else 10 * Pow10(k - 1)
  }

  /** Value of a string of ASCII digits, leading zeros allowed. */
  function DigitsValue(s: string): nat
    requires AllDigits(s)
    decreases |s|
  {
    if |s| == 0 then 0 else DigitsValue(s[..|s| - 1]) * 10 + DigitValue(s[|s| - 1])
  }

  /** Shortest decimal representation of a natural number (Swift's
      `description` and `\(n)`, Python's `str`, `%d`). */
  function NatToString(n: nat): (r: string)
    ensures |r| >= 1 && AllDigits(r)
  {
    if n < 10 then [DigitChar(n)]
    else
      var r := NatToString(n / 10) + [DigitChar(n % 10)];
      assert forall i :: 0 <= i < |r| - 1 ==> r[i] == NatToString(n / 10)[i];
      assert IsDigit(r[|r| - 1]);
      r
  }

  /** `\(n)` / `String(n)` / `n.description` for a signed integer. */
  function IntToString(n: int): (r: string)
    ensures |r| >= 1
  {
    if n < 0 then "-" + NatToString(-n) else NatToString(n)
  }

  /** Printing and reading back a natural number is the identity. */
  lemma {:induction false} ValueOfNatToString(n: nat)
    ensures DigitsValue(NatToString(n)) == n
  {
    if n >= 10 {
      ValueOfNatToString(n / 10);
      var s := NatToString(n);
      assert s[..|s| - 1] == NatToString(n / 10);
    }
  }

  lemma NatToStringInjective(a: nat, b: nat)
    requires NatToString(a) == NatToString(b)
    ensures a == b
  {
    ValueOfNatToString(a);
    ValueOfNatToString(b);
  }

  /** The text of a number starts with '-' exactly when the number is negative. */
  lemma IntToStringSign(n: int)
    ensures IntToString(n)[0] == '-' <==> n < 0
  {
    if n >= 0 {
      assert IsDigit(NatToString(n)[0]);
    }
  }

  lemma IntToStringInjective(a: int, b: int)
    requires IntToString(a) == IntToString(b)
    ensures a == b
  {
    IntToStringSign(a);
    IntToStringSign(b);
    if a < 0 {
      assert IntToString(a)[1..] == NatToString(-a);
      assert IntToString(b)[1..] == NatToString(-b);
      NatToStringInjective(-a, -b);
    } else {
      NatToStringInjective(a, b);
    }
  }

  /** Numbers from 10^k on need more than k digits. */
  lemma {:induction false} NatToStringLength(n: nat, k: nat)
    requires n >= Pow10(k)
    ensures |NatToString(n)| > k
  {
    if k > 0 {
      NatToStringLength(n / 10, k - 1);
    }
  }

  function Zeros(k: nat): (r: string)
    ensures |r| == k && forall i :: 0 <= i < k ==> r[i] == '0'
  {
    seq(k, _ => '0')
  }

  /** Python's `str.zfill(width)` on a string of digits: left-pads with '0'
      up to `width` characters and never shortens. */
  function ZeroPad(s: string, width: nat): (r: string)
    ensures |r| == if |s| >= width then |s| else width
    ensures HasSuffix(r, s)
    ensures forall i :: 0 <= i < |r| - |s| ==> r[i] == '0'
  {
    if |s| >= width then s else Zeros(width - |s|) + s
  }

  lemma MulDistributes(x: nat, y: nat, z: nat)
    ensures (x * y + z) * 10 == x * (10 * y) + z * 10
  {
  }

  lemma {:induction false} DigitsValueConcat(a: string, b: string)
    requires AllDigits(a) && AllDigits(b)
    ensures AllDigits(a + b)
    ensures DigitsValue(a + b) == DigitsValue(a) * Pow10(|b|) + DigitsValue(b)
    decreases |b|
  {
    if |b| > 0 {
      var b' := b[..|b| - 1];
      var d := DigitValue(b[|b| - 1]);
      assert (a + b)[..|a + b| - 1] == a + b';
      assert (a + b)[|a + b| - 1] == b[|b| - 1];
      DigitsValueConcat(a, b');
      var va, vb', p := DigitsValue(a), DigitsValue(b'), Pow10(|b'|);
      assert DigitsValue(a + b) == (va * p + vb') * 10 + d;
      assert (va * p + vb') * 10 == va * (10 * p) + vb' * 10 by {
        MulDistributes(va, p, vb');
      }
    } else {
      assert a + b == a;
    }
  }

  lemma {:induction false} ZerosValue(k: nat)
    ensures AllDigits(Zeros(k)) && DigitsValue(Zeros(k)) == 0
  {
    if k > 0 {
      assert Zeros(k)[..k - 1] == Zeros(k - 1);
      ZerosValue(k - 1);
    }
  }

  /** Zero padding keeps the numeric value. */
  lemma ZeroPadValue(s: string, width: nat)
    requires AllDigits(s)
    ensures AllDigits(ZeroPad(s, width))
    ensures DigitsValue(ZeroPad(s, width)) == DigitsValue(s)
  {
    if |s| < width {
      ZerosValue(width - |s|);
      DigitsValueConcat(Zeros(width - |s|), s);
    }
  }

  /** `String(format: "%03d", n)`: zero padding to a width of three, the sign
      counting towards the width. */
  function Pad3(n: int): (r: string)
    ensures |r| >= 3
  {
    if n >= 0 then ZeroPad(NatToString(n), 3)
    else
      var z := ZeroPad(NatToString(-n), 2);
      assert |z| >= 2;
      "-" + z
  }

  /** `%03d` of a non-negative number is three or more digits that read back
      as the number; of a negative one, a minus sign followed by such digits. */
  lemma Pad3Digits(n: int)
    ensures n >= 0 ==> AllDigits(Pad3(n)) && DigitsValue(Pad3(n)) == n
    ensures n < 0 ==> Pad3(n)[0] == '-' && AllDigits(Pad3(n)[1..]) && DigitsValue(Pad3(n)[1..]) == -n
  {
    if n >= 0 {
      ZeroPadValue(NatToString(n), 3);
      ValueOfNatToString(n);
    } else {
      ZeroPadValue(NatToString(-n), 2);
      ValueOfNatToString(-n);
      assert Pad3(n)[1..] == ZeroPad(NatToString(-n), 2);
    }
  }

  /** Distinct numbers are never padded to the same text. */
  lemma Pad3Injective(a: int, b: int)
    requires Pad3(a) == Pad3(b)
    ensures a == b
  {
    Pad3Digits(a);
    Pad3Digits(b);
    assert Pad3(a)[0] == '-' <==> a < 0;
    assert Pad3(b)[0] == '-' <==> b < 0;
  }

  const Int32Span: int := 0x1_0000_0000
  const Int32Min: int := -0x8000_0000

  /** The C `int` that a `%d` conversion reads when Swift hands a 64-bit
      `Int` to `String(format:)`: the low 32 bits, as a signed number. */
  function CInt(n: int): (r: int)
    ensures Int32Min <= r < -Int32Min
    ensures Int32Min <= n < -Int32Min ==> r == n
    ensures (n - r) % Int32Span == 0
  {
    (n - Int32Min) % Int32Span + Int32Min
  }

  /** Two numbers reach `%d` as the same `int` exactly when they differ by a
      multiple of 2^32. */
  lemma CIntSame(a: int, b: int)
    ensures CInt(a) == CInt(b) <==> (a - b) % Int32Span == 0
  {
    var qa, qb := (a - Int32Min) / Int32Span, (b - Int32Min) / Int32Span;
    assert a == qa * Int32Span + CInt(a);
    assert b == qb * Int32Span + CInt(b);
    assert a - b == (qa - qb) * Int32Span + (CInt(a) - CInt(b));
    if (a - b) % Int32Span == 0 {
      var k := (a - b) / Int32Span;
      assert CInt(a) - CInt(b) == (k - qa + qb) * Int32Span;
      assert -Int32Span < CInt(a) - CInt(b) < Int32Span;
    }
  }

  /** Swift's `String(format: "%03d", n)` for an `Int`: `%03d` applied to the
      number's low 32 bits. */
  function SwiftPad3(n: int): (r: string)
    ensures |r| >= 3
  {
    Pad3(CInt(n))
  }

  /** Two hymn numbers are formatted alike exactly when their low 32 bits
      agree; inside the 32-bit range this is plain `%03d`. */
  lemma SwiftPad3Same(a: int, b: int)
    ensures SwiftPad3(a) == SwiftPad3(b) <==> (a - b) % Int32Span == 0
    ensures Int32Min <= a < -Int32Min ==> SwiftPad3(a) == Pad3(a)
  {
    CIntSame(a, b);
    if SwiftPad3(a) == SwiftPad3(b) {
      Pad3Injective(CInt(a), CInt(b));
    }
  }

  /** Hymn 2^32 + 1 is formatted as hymn 1, and `Int.max` as -1. */
  lemma SwiftPad3Wraps()
    ensures SwiftPad3(Int32Span + 1) == SwiftPad3(1) == "001"
    ensures SwiftPad3(0x7FFF_FFFF_FFFF_FFFF) == "-01"
  {
    assert CInt(Int32Span + 1) == 1;
    assert CInt(0x7FFF_FFFF_FFFF_FFFF) == -1;
    assert NatToString(1) == "1";
  }

  // ---------------------------------------------------------------------------
  // Decimal parsing
  // ---------------------------------------------------------------------------

  const IntMax: int := 0x7FFF_FFFF_FFFF_FFFF
  const IntMin: int := -0x8000_0000_0000_0000

  /** Swift's `Int(_: String)` in radix 10: an optional '+' or '-' followed by
      one or more ASCII digits, nothing else, and the value must fit in 64 bits. */
  function SwiftInt(s: string): (r: Option<int>)
    ensures r.Some? ==> IntMin <= r.value <= IntMax
  {
    if |s| > 0 && (s[0] == '+' || s[0] == '-') then
      var body := s[1..];
      if |body| > 0 && AllDigits(body) then
        var v: int := if s[0] == '-' then -(DigitsValue(body) as int) else DigitsValue(body);
        if IntMin <= v <= IntMax then Some(v) else None
      else None
    else if |s| > 0 && AllDigits(s) && DigitsValue(s) <= IntMax then Some(DigitsValue(s))
    else None
  }

  /** Swift reads back what it prints for every 64-bit integer. */
  lemma SwiftIntOfIntToString(n: int)
    requires IntMin <= n <= IntMax
    ensures SwiftInt(IntToString(n)) == Some(n)
  {
    if n < 0 {
      ValueOfNatToString(-n);
      assert IntToString(n)[1..] == NatToString(-n);
    } else {
      ValueOfNatToString(n);
    }
  }

  /** Digits separated by single underscores, as Python's `int` accepts them. */
  predicate PyDigitBody(b: string) {
    && |b| > 0 && IsDigit(b[0]) && IsDigit(b[|b| - 1])
    && (forall i :: 0 <= i < |b| ==> IsDigit(b[i]) || b[i] == '_')
    && (forall i :: 0 <= i < |b| - 1 ==> !(b[i] == '_' && b[i + 1] == '_'))
  }

  function DropUnderscores(b: string): (r: string)
    ensures forall i :: 0 <= i < |r| ==> r[i] != '_'
    ensures (forall i :: 0 <= i < |b| ==> IsDigit(b[i]) || b[i] == '_') ==> AllDigits(r)
  {
    if |b| == 0 then ""
    else if b[0] == '_' then DropUnderscores(b[1..])
    else [b[0]] + DropUnderscores(b[1..])
  }

  /** Python's `int(s)` in base 10: surrounding whitespace is ignored, an
      optional sign, then ASCII digits possibly grouped by single underscores;
      anything else raises `ValueError` (here `None`). */
  function PyInt(s: string): Option<int> {
    var t := PyStrip(s);
    var signed := |t| > 0 && (t[0] == '+' || t[0] == '-');
    var body := if signed then t[1..] else t;
    if PyDigitBody(body) then
      var v: int := DigitsValue(DropUnderscores(body));
      Some(if signed && t[0] == '-' then -v else v)
    else None
  }

  /** Python reads back the decimal text of every natural number. */
  lemma PyIntOfNatToString(n: nat)
    ensures PyInt(NatToString(n)) == Some(n)
  {
    var s := NatToString(n);
    assert IsDigit(s[0]) && IsDigit(s[|s| - 1]);
    TrimOfTrimmed(s, IsPySpace);
    assert PyStrip(s) == s;
    assert !(s[0] == '+' || s[0] == '-');
    assert forall i :: 0 <= i < |s| - 1 ==> IsDigit(s[i]);
    assert PyDigitBody(s);
    DropNoUnderscores(s);
    ValueOfNatToString(n);
  }

  /** Python reads back any non-empty run of ASCII digits, leading zeros
      included. */
  lemma PyIntOfDigits(s: string)
    requires |s| > 0 && AllDigits(s)
    ensures PyInt(s) == Some(DigitsValue(s))
  {
    assert IsDigit(s[0]) && IsDigit(s[|s| - 1]);
    TrimOfTrimmed(s, IsPySpace);
    assert PyStrip(s) == s;
    assert !(s[0] == '+' || s[0] == '-');
    assert forall i :: 0 <= i < |s| - 1 ==> IsDigit(s[i]);
    assert PyDigitBody(s);
    DropNoUnderscores(s);
  }

  /** Python's `s[front:-back]`: empty when the two ends overlap. */
  function PySlice(s: string, front: nat, back: nat): (r: string)
    requires back > 0
    ensures |s| >= front + back ==> r == s[front..|s| - back]
    ensures |s| < front + back ==> r == ""
  {
    if |s| >= front + back then s[front..|s| - back] else ""
  }

  /** Slicing off a prefix and a suffix of the sliced lengths gives the middle back. */
  lemma PySliceOfWrapped(pre: string, mid: string, post: string)
    requires |post| > 0
    ensures PySlice(pre + mid + post, |pre|, |post|) == mid
    ensures HasPrefix(pre + mid + post, pre)
  {
    var s := pre + mid + post;
    assert s[|pre|..|s| - |post|] == mid;
    assert s[..|pre|] == pre;
  }

  lemma {:induction false} DropNoUnderscores(s: string)
    requires AllDigits(s)
    ensures DropUnderscores(s) == s
  {
    if |s| > 0 {
      DropNoUnderscores(s[1..]);
    }
  }
}
