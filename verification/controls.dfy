/** Small input and state rules of the views: the number pad's entry, its
    Go button, the sheet-music page buttons, and the `m:ss` clock text. */
module Controls {
  import opened Wrappers
  import opened Text
  import opened Languages
  import opened Hymns
  import Readings
  import Hymnal

  // ---------------------------------------------------------------------------
  // Number pad entry
  // ---------------------------------------------------------------------------

  /** The most characters the entry takes. */
  const MaxDigits: nat := 3

  /** The pad's key labels: "1" to "9" in three rows, then a blank key and "0". */
  function KeyLabels(): (r: seq<string>)
    ensures |r| == 11
  {
    seq(9, i requires 0 <= i < 9 => IntToString(i + 1)) + ["", "0"]
  }

  /** Every key is blank or a single digit, and every digit has a key. */
  lemma KeyLabelsAreDigits()
    ensures forall k :: 0 <= k < |KeyLabels()| ==> |KeyLabels()[k]| == 0 || (|KeyLabels()[k]| == 1 && IsDigit(KeyLabels()[k][0]))
    ensures forall d :: 0 <= d <= 9 ==> [DigitChar(d)] in KeyLabels()
  {
    forall d | 0 <= d <= 9 ensures [DigitChar(d)] in KeyLabels() {
      if d > 0 {
        assert KeyLabels()[d - 1] == IntToString(d);
      } else {
        assert KeyLabels()[10] == "0";
      }
    }
  }

  /** What the pad can show: at most three digits. */
  predicate ValidEntry(entry: string) {
    |entry| <= MaxDigits && AllDigits(entry)
  }

  /** A key press appends the key's label when the label is not blank and
      fewer than three characters are entered. */
  function Press(entry: string, key: string): (r: string)
    requires key in KeyLabels()
    ensures ValidEntry(entry) ==> ValidEntry(r)
    ensures |key| > 0 && |entry| < MaxDigits ==> r == entry + key
    ensures |key| == 0 || |entry| >= MaxDigits ==> r == entry
  {
    KeyLabelsAreDigits();
    if |key| > 0 && |entry| < MaxDigits then entry + key else entry
  }

  /** The delete key drops the last character; on an empty entry it does
      nothing. */
  function Delete(entry: string): (r: string)
    ensures |entry| == 0 ==> r == entry
    ensures |entry| > 0 ==> |r| == |entry| - 1 && entry == r + [entry[|entry| - 1]]
    ensures ValidEntry(entry) ==> ValidEntry(r)
  {
    if |entry| == 0 then entry else entry[..|entry| - 1]
  }

  /** Pressing a digit key and then delete gives the entry back. */
  lemma PressThenDelete(entry: string, key: string)
    requires key in KeyLabels() && |key| > 0 && |entry| < MaxDigits
    ensures Delete(Press(entry, key)) == entry
  {
    KeyLabelsAreDigits();
  }

  /** `Int(enteredNumber)` of what the pad can show. */
  lemma EntryValue(entry: string)
    requires ValidEntry(entry) && |entry| > 0
    ensures SwiftInt(entry) == Some(DigitsValue(entry))
  {
    DigitsBelow(entry);
  }

  lemma {:induction false} DigitsBelow(s: string)
    requires AllDigits(s)
    ensures DigitsValue(s) < Pow10(|s|)
    decreases |s|
  {
    if |s| > 0 {
      DigitsBelow(s[..|s| - 1]);
    }
  }

  lemma {:induction false} ZeroValueIsZeros(s: string)
    requires AllDigits(s)
    ensures DigitsValue(s) == 0 <==> forall i :: 0 <= i < |s| ==> s[i] == '0'
    decreases |s|
  {
    if |s| > 0 {
      var init := s[..|s| - 1];
      ZeroValueIsZeros(init);
      assert forall i :: 0 <= i < |init| ==> init[i] == s[i];
    }
  }

  /** Go is disabled for an empty entry or one that reads as zero. */
  predicate GoDisabled(entry: string) {
    |entry| == 0 || SwiftInt(entry) == Some(0)
  }

  /** Go is highlighted for a non-empty entry that reads as a positive number. */
  predicate GoHighlighted(entry: string) {
    |entry| > 0 && SwiftInt(entry).GetOr(0) > 0
  }

  /** On anything the pad can show, Go is disabled exactly when the entry is
      all zeros ("", "0", "00", "000"), and highlighted exactly when enabled. */
  lemma GoEnabling(entry: string)
    requires ValidEntry(entry)
    ensures GoDisabled(entry) <==> forall i :: 0 <= i < |entry| ==> entry[i] == '0'
    ensures GoHighlighted(entry) <==> !GoDisabled(entry)
  {
    ZeroValueIsZeros(entry);
    if |entry| > 0 {
      EntryValue(entry);
    }
  }

  // ---------------------------------------------------------------------------
  // Go routing
  // ---------------------------------------------------------------------------

  datatype Selection = Nothing | ShowReading(reading: Readings.Reading) | ShowHymn(hymn: Hymn)

  /** A number the 1985 hymnal may route to a responsive reading. */
  predicate InReadingRange(n: int) {
    696 <= n <= 920
  }

  /** The Go action: a responsive reading first (1985 hymnal, 696..920, and
      one with that number exists), else the hymn with that number, else
      nothing; an entry that does not read as a number selects nothing. */
  function Go(entry: string, language: HymnalLanguage, readings: seq<Readings.Reading>, hymns: seq<Hymn>): (r: Selection)
    ensures SwiftInt(entry).None? ==> r == Nothing
    ensures r.ShowReading? ==> SwiftInt(entry).Some? && r.reading.number == SwiftInt(entry).value && r.reading in readings
    ensures r.ShowHymn? ==> SwiftInt(entry).Some? && r.hymn.number == SwiftInt(entry).value && r.hymn in hymns
    ensures r.ShowReading? ==>
              exists i :: 0 <= i < |readings| && readings[i] == r.reading &&
                          forall j :: 0 <= j < i ==> readings[j].number != r.reading.number
    ensures r.ShowHymn? ==>
              exists i :: 0 <= i < |hymns| && hymns[i] == r.hymn &&
                          forall j :: 0 <= j < i ==> hymns[j].number != r.hymn.number
  {
    match SwiftInt(entry)
    case None => Nothing
    case Some(n) =>
      if language == English1985 && InReadingRange(n) && Readings.ReadingFor(readings, n).Some? then
        ShowReading(Readings.ReadingFor(readings, n).value)
      else if Hymnal.HymnByNumber(hymns, n).Some? then
        ShowHymn(Hymnal.HymnByNumber(hymns, n).value)
      else Nothing
  }

  /** Which kind of selection Go makes, in terms of what exists. */
  lemma GoChooses(entry: string, language: HymnalLanguage, readings: seq<Readings.Reading>, hymns: seq<Hymn>, n: int)
    requires SwiftInt(entry) == Some(n)
    ensures Go(entry, language, readings, hymns).ShowReading? <==>
            language == English1985 && InReadingRange(n) && exists i :: 0 <= i < |readings| && readings[i].number == n
    ensures Go(entry, language, readings, hymns).Nothing? <==>
            (forall i :: 0 <= i < |hymns| ==> hymns[i].number != n) &&
            !(language == English1985 && InReadingRange(n) && exists i :: 0 <= i < |readings| && readings[i].number == n)
  {
  }

  /** Outside the 1985 reading range, typing a listed hymn's number opens
      that hymn. */
  lemma GoFindsHymn(hymns: seq<Hymn>, language: HymnalLanguage, readings: seq<Readings.Reading>, k: nat)
    requires k < |hymns| && IntMin <= hymns[k].number <= IntMax
    requires language != English1985 || !InReadingRange(hymns[k].number)
    ensures Go(IntToString(hymns[k].number), language, readings, hymns).ShowHymn?
    ensures Go(IntToString(hymns[k].number), language, readings, hymns).hymn.number == hymns[k].number
  {
    SwiftIntOfIntToString(hymns[k].number);
  }

  // ---------------------------------------------------------------------------
  // Sheet-music pages
  // ---------------------------------------------------------------------------

  /** The page buttons and the page dots appear only for more than one page. */
  predicate ShowsPageControls(count: int) {
    count > 1
  }

  function PreviousPage(page: int): (r: int)
    ensures r == page - 1 || (r == 0 && page <= 0)
    ensures 0 <= page ==> 0 <= r <= page
  {
    if page - 1 > 0 then page - 1 else 0
  }

  function NextPage(page: int, count: int): (r: int)
    ensures r == page + 1 || (r == count - 1 && page + 1 >= count - 1)
    ensures 0 <= page < count ==> page <= r < count
  {
    if count - 1 < page + 1 then count - 1 else page + 1
  }

  predicate PreviousDisabled(page: int) {
    page == 0
  }

  predicate NextDisabled(page: int, count: int) {
    page == count - 1
  }

  /** On a page in range, a button is disabled exactly when pressing it
      would not move, and each button undoes the other. */
  lemma PagingSpec(page: int, count: int)
    requires 0 <= page < count
    ensures PreviousDisabled(page) <==> PreviousPage(page) == page
    ensures NextDisabled(page, count) <==> NextPage(page, count) == page
    ensures !PreviousDisabled(page) ==> NextPage(PreviousPage(page), count) == page
    ensures !NextDisabled(page, count) ==> PreviousPage(NextPage(page, count)) == page
  {
  }

  /** The page controls appear exactly when the buttons have somewhere to
      go: with one page or none, both buttons would stay put on every page;
      with more, some page lets Next move, and on every page at least one of
      the buttons moves. */
  lemma PageControlsSpec(count: int)
    ensures ShowsPageControls(count) <==> exists page :: 0 <= page < count && NextPage(page, count) != page
    ensures !ShowsPageControls(count) ==>
              forall page :: 0 <= page < count ==> PreviousPage(page) == page && NextPage(page, count) == page
    ensures ShowsPageControls(count) ==>
              forall page :: 0 <= page < count ==> PreviousPage(page) != page || NextPage(page, count) != page
  {
    if ShowsPageControls(count) {
      assert NextPage(0, count) != 0;
    }
  }

  /** The page indicator "(page+1) of count". */
  function PageLabel(page: int, count: int): string {
    IntToString(page + 1) + " of " + IntToString(count)
  }

  lemma IntToStringHasNoSpace(n: int)
    ensures forall i :: 0 <= i < |IntToString(n)| ==> IntToString(n)[i] != ' '
  {
    if n < 0 {
      assert forall i :: 1 <= i < |IntToString(n)| ==> IntToString(n)[i] == NatToString(-n)[i - 1];
    }
  }

  /** A piece without the separator's first character lets no separator
      start inside it. */
  lemma NoEarlyWithoutFirst(v: string, sep: string)
    requires |sep| > 0
    requires forall i :: 0 <= i < |v| ==> v[i] != sep[0]
    ensures NoEarlySeparator(v, sep)
  {
    forall i | 0 <= i < |v| ensures !HasPrefix((v + sep)[i..], sep) {
      assert (v + sep)[i..][0] == v[i];
    }
  }

  /** The indicator names the page and the count, and can be read back. */
  lemma PageLabelReadsBack(page: int, count: int)
    requires IntMin <= page + 1 <= IntMax && IntMin <= count <= IntMax
    ensures |Split(PageLabel(page, count), " of ")| == 2
    ensures SwiftInt(Split(PageLabel(page, count), " of ")[0]) == Some(page + 1)
    ensures SwiftInt(Split(PageLabel(page, count), " of ")[1]) == Some(count)
  {
    var parts := [IntToString(page + 1), IntToString(count)];
    IntToStringHasNoSpace(page + 1);
    IntToStringHasNoSpace(count);
    NoEarlyWithoutFirst(parts[0], " of ");
    NoEarlyWithoutFirst(parts[1], " of ");
    assert parts[1..] == [IntToString(count)];
    assert Join(parts, " of ") == PageLabel(page, count);
    SplitJoin(parts, " of ");
    SwiftIntOfIntToString(page + 1);
    SwiftIntOfIntToString(count);
  }

  // ---------------------------------------------------------------------------
  // Clock text
  // ---------------------------------------------------------------------------

  /** Swift's `/` on `Int`: the quotient rounded toward zero. */
  function TruncDiv(a: int, b: int): (q: int)
    requires b > 0
    ensures a >= 0 ==> q == a / b
    ensures a < 0 ==> q == -((-a) / b)
  {
    if a >= 0 then a / b else -((-a) / b)
  }

  /** Swift's `%` on `Int`: the remainder takes the sign of `a`. */
  function TruncMod(a: int, b: int): (m: int)
    requires b > 0
    ensures a == TruncDiv(a, b) * b + m
    ensures a >= 0 ==> 0 <= m < b
    ensures a < 0 ==> -b < m <= 0
  {
    a - TruncDiv(a, b) * b
  }

  /** `%02d`: zero padding to a width of two, the sign counting towards it. */
  function Pad2(n: int): (r: string)
    ensures |r| >= 2
  {
    if n >= 0 then ZeroPad(NatToString(n), 2) else "-" + NatToString(-n)
  }

  /** `formatTime` on whole seconds: minutes, a colon, two-digit seconds.
      Both numbers go through `%d`, so only their low 32 bits show. */
  function FormatTime(seconds: int): string {
    IntToString(CInt(TruncDiv(seconds, 60))) + ":" + Pad2(CInt(TruncMod(seconds, 60)))
  }

  /** `t` reads as `m:ss` for `s` seconds: one colon, digits before it,
      exactly two digits after it below 60, and m * 60 + ss == s. */
  predicate ClockText(t: string, s: nat) {
    && |t| >= 4 && t[|t| - 3] == ':'
    && (forall i :: 0 <= i < |t| && t[i] == ':' ==> i == |t| - 3)
    && AllDigits(t[..|t| - 3]) && AllDigits(t[|t| - 2..])
    && DigitsValue(t[|t| - 2..]) < 60
    && DigitsValue(t[..|t| - 3]) * 60 + DigitsValue(t[|t| - 2..]) == s
  }

  lemma SecondsField(m: nat)
    requires m < 60
    ensures |Pad2(m)| == 2 && AllDigits(Pad2(m)) && DigitsValue(Pad2(m)) == m
  {
    ZeroPadValue(NatToString(m), 2);
    ValueOfNatToString(m);
    if m >= 10 {
      assert NatToString(m / 10) == [DigitChar(m / 10)];
    }
  }

  /** Digits, a colon and two digits below 60 make a clock reading. */
  lemma ClockOfFields(m: string, ss: string, s: nat)
    requires |m| >= 1 && AllDigits(m) && |ss| == 2 && AllDigits(ss) && DigitsValue(ss) < 60
    requires DigitsValue(m) * 60 + DigitsValue(ss) == s
    ensures ClockText(m + ":" + ss, s)
  {
    var t := m + ":" + ss;
    assert t[..|t| - 3] == m;
    assert t[|t| - 2..] == ss;
  }

  /** For a non-negative time, the minutes' low 32 bits and the seconds. */
  lemma FormatTimeFields(s: nat)
    ensures FormatTime(s) == IntToString(CInt(s / 60)) + ":" + Pad2(s % 60)
    ensures |Pad2(s % 60)| == 2 && AllDigits(Pad2(s % 60)) && DigitsValue(Pad2(s % 60)) == s % 60
  {
    SecondsField(s % 60);
  }

  /** 2^32 minutes later the minutes field has the same low 32 bits. */
  lemma MinutesWrap(s: nat)
    ensures (s + Int32Span * 60) / 60 == s / 60 + Int32Span
    ensures (s + Int32Span * 60) % 60 == s % 60
    ensures CInt((s + Int32Span * 60) / 60) == CInt(s / 60)
  {
    CIntSame(s / 60 + Int32Span, s / 60);
  }

  /** While the minutes fit in 32 bits the text is the clock reading. */
  lemma ClockWithin(s: nat)
    requires s / 60 < -Int32Min
    ensures ClockText(FormatTime(s), s)
  {
    FormatTimeFields(s);
    assert IntToString(CInt(s / 60)) == NatToString(s / 60);
    ValueOfNatToString(s / 60);
    ClockOfFields(NatToString(s / 60), Pad2(s % 60), s);
  }

  /** 2^32 minutes later the text repeats. */
  lemma ClockRepeats(s: nat)
    ensures FormatTime(s + Int32Span * 60) == FormatTime(s)
  {
    FormatTimeFields(s);
    FormatTimeFields(s + Int32Span * 60);
    MinutesWrap(s);
  }

  /** The text for a non-negative number of seconds is the clock reading as
      long as the minutes fit in 32 bits; 2^32 minutes later it repeats. */
  lemma FormatTimeReadsBack(s: nat)
    ensures s / 60 < -Int32Min ==> ClockText(FormatTime(s), s)
    ensures FormatTime(s + Int32Span * 60) == FormatTime(s)
  {
    if s / 60 < -Int32Min {
      ClockWithin(s);
    }
    ClockRepeats(s);
  }

  /** Two non-negative times show the same text exactly when their seconds
      agree and their minutes agree in the low 32 bits; while the minutes fit
      in 32 bits, different times show different text. */
  lemma FormatTimeInjective(a: nat, b: nat)
    ensures FormatTime(a) == FormatTime(b) <==> (a / 60 - b / 60) % Int32Span == 0 && a % 60 == b % 60
    ensures a / 60 < -Int32Min && b / 60 < -Int32Min ==> (FormatTime(a) == FormatTime(b) <==> a == b)
  {
    CIntSame(a / 60, b / 60);
    FormatTimeFields(a);
    FormatTimeFields(b);
    var ma, mb := IntToString(CInt(a / 60)), IntToString(CInt(b / 60));
    var sa, sb := Pad2(a % 60), Pad2(b % 60);
    if ma + ":" + sa == mb + ":" + sb {
      SplitClock(ma, sa, mb, sb);
      IntToStringInjective(CInt(a / 60), CInt(b / 60));
    }
    if a / 60 < -Int32Min && b / 60 < -Int32Min && a % 60 == b % 60 && (a / 60 - b / 60) % Int32Span == 0 {
      assert a / 60 == b / 60;
    }
  }

  /** With two-character seconds, equal texts have equal fields. */
  lemma SplitClock(ma: string, sa: string, mb: string, sb: string)
    requires |sa| == 2 && |sb| == 2 && ma + ":" + sa == mb + ":" + sb
    ensures ma == mb && sa == sb
  {
    var t := ma + ":" + sa;
    assert t[..|t| - 3] == ma;
    assert t[|t| - 2..] == sa;
    var u := mb + ":" + sb;
    assert u[..|u| - 3] == mb;
    assert u[|u| - 2..] == sb;
  }
}
