/** The missing-audio reports: `check_missing_1985.py`,
    `check_1985_range.py` and `find_missing.py`. Each reads hymn numbers
    out of `en_NNN.mp3` names and lists the numbers of 1..695 that have no
    file. */
module MissingReports {
  import opened Wrappers
  import opened Text
  import opened Seqs
  import opened Languages

  /** The last hymn number of the 1985 hymnal. */
  const LastHymn: int := 695

  /** The reports cover the whole current hymnal. */
  lemma LastHymnIsHymnCount()
    ensures LastHymn == NumberOfHymns(Current)
  {
  }

  /** `int(filename[3:-4])`. */
  function NumberOf(name: string): Option<int> {
    PyInt(PySlice(name, 3, 4))
  }

  /** The numbers of the listed `en_` names that parse; the others are
      reported and skipped. */
  function ExistingNumbers(files: seq<string>): (r: set<int>)
    ensures forall i :: 0 <= i < |files| && HasPrefix(files[i], "en_") && NumberOf(files[i]).Some? ==>
              NumberOf(files[i]).value in r
    ensures forall n :: n in r ==> exists i :: 0 <= i < |files| && HasPrefix(files[i], "en_") && NumberOf(files[i]) == Some(n)
  {
    set i | 0 <= i < |files| && HasPrefix(files[i], "en_") && NumberOf(files[i]).Some? :: NumberOf(files[i]).value
  }

  /** The numbers `lo..hi` without a file, ascending. */
  function MissingIn(existing: set<int>, lo: int, hi: int): seq<int>
    decreases hi - lo + 1
  {
    if lo > hi then []
    else if lo in existing then MissingIn(existing, lo + 1, hi)
    else [lo] + MissingIn(existing, lo + 1, hi)
  }

  /** The list is strictly ascending and holds exactly the numbers of the
      range that have no file: with the existing numbers of the range it
      makes up the whole range, and the two never meet. */
  lemma {:induction false} MissingInSpec(existing: set<int>, lo: int, hi: int)
    ensures forall i, j :: 0 <= i < j < |MissingIn(existing, lo, hi)| ==> MissingIn(existing, lo, hi)[i] < MissingIn(existing, lo, hi)[j]
    ensures forall i :: 0 <= i < |MissingIn(existing, lo, hi)| ==>
              lo <= MissingIn(existing, lo, hi)[i] <= hi && MissingIn(existing, lo, hi)[i] !in existing
    ensures forall k :: lo <= k <= hi ==> (k in MissingIn(existing, lo, hi) <==> k !in existing)
    decreases hi - lo + 1
  {
    if lo <= hi {
      MissingInSpec(existing, lo + 1, hi);
      var rest := MissingIn(existing, lo + 1, hi);
      if lo !in existing {
        var r := [lo] + rest;
        assert forall i :: 1 <= i < |r| ==> r[i] == rest[i - 1];
      }
    }
  }

  /** Splitting the range splits the list. */
  lemma {:induction false} MissingInSplit(existing: set<int>, lo: int, mid: int, hi: int)
    requires lo <= mid + 1 && mid <= hi
    ensures MissingIn(existing, lo, hi) == MissingIn(existing, lo, mid) + MissingIn(existing, mid + 1, hi)
    decreases mid - lo + 1
  {
    var right := MissingIn(existing, mid + 1, hi);
    if lo <= mid {
      MissingInSplit(existing, lo + 1, mid, hi);
      var left := MissingIn(existing, lo + 1, mid);
      var head := MissingInHead(existing, lo);
      MissingInStep(existing, lo, hi);
      MissingInStep(existing, lo, mid);
      ConcatAssoc(head, left, right);
    } else {
      assert MissingIn(existing, lo, mid) == [];
      assert [] + right == right;
    }
  }

  /** `lo` itself, when it has no file. */
  function MissingInHead(existing: set<int>, lo: int): seq<int> {
    if lo in existing then [] else [lo]
  }

  /** The list for a non-empty range starts with its first number, when that
      one is missing. */
  lemma MissingInStep(existing: set<int>, lo: int, hi: int)
    requires lo <= hi
    ensures MissingIn(existing, lo, hi) == MissingInHead(existing, lo) + MissingIn(existing, lo + 1, hi)
  {
    if lo in existing {
      assert [] + MissingIn(existing, lo + 1, hi) == MissingIn(existing, lo + 1, hi);
    }
  }

  // ---------------------------------------------------------------------------
  // check_missing_1985.py
  // ---------------------------------------------------------------------------

  /** `en_{num:03d}.mp3`. */
  function ReportName(n: int): string {
    "en_" + Pad3(n) + ".mp3"
  }

  datatype Report = Report(names: seq<string>, total: int)

  /** `check_missing_files`: the numbers of 1..695 without a file, printed
      as file names, and their count. */
  function CheckMissing(files: seq<string>): (r: Report)
    ensures |r.names| == r.total
  {
    var missing := MissingIn(ExistingNumbers(files), 1, LastHymn);
    Report(seq(|missing|, i requires 0 <= i < |missing| => ReportName(missing[i])), |missing|)
  }

  /** Reading a reported name back gives its number, so distinct numbers
      give distinct names. */
  lemma ReportNameReadsBack(n: int)
    requires 1 <= n
    ensures HasPrefix(ReportName(n), "en_") && NumberOf(ReportName(n)) == Some(n)
  {
    Pad3Digits(n);
    PySliceOfWrapped("en_", Pad3(n), ".mp3");
    PyIntOfDigits(Pad3(n));
  }

  /** A reported name that reads back as a number of `lo..hi` with no file. */
  predicate NamesMissing(name: string, existing: set<int>, lo: int, hi: int) {
    NumberOf(name).Some? && lo <= NumberOf(name).value <= hi && NumberOf(name).value !in existing
  }

  /** The names of `MissingIn(existing, lo, hi)`, for any range of positive
      numbers: each reads back as a missing number, every missing number is
      named, and no name repeats. */
  lemma MissingNamesSpec(existing: set<int>, lo: int, hi: int, names: seq<string>)
    requires 1 <= lo
    requires names == seq(|MissingIn(existing, lo, hi)|, i requires 0 <= i < |MissingIn(existing, lo, hi)| => ReportName(MissingIn(existing, lo, hi)[i]))
    ensures forall i :: 0 <= i < |names| ==> NamesMissing(names[i], existing, lo, hi)
    ensures forall k :: lo <= k <= hi && k !in existing ==> ReportName(k) in names
    ensures Distinct(names)
  {
    var missing := MissingIn(existing, lo, hi);
    MissingInSpec(existing, lo, hi);
    forall i | 0 <= i < |names|
      ensures NumberOf(names[i]) == Some(missing[i])
    {
      ReportNameReadsBack(missing[i]);
    }
    forall k | lo <= k <= hi && k !in existing ensures ReportName(k) in names {
      var i :| 0 <= i < |missing| && missing[i] == k;
      assert names[i] == ReportName(k);
    }
    forall i, j | 0 <= i < j < |names| ensures names[i] != names[j] {
      assert NumberOf(names[i]) == Some(missing[i]);
      assert NumberOf(names[j]) == Some(missing[j]);
    }
  }

  /** The report names exactly the hymns of 1..695 without a file: each
      reported name reads back as a missing number, and a name is reported
      for every number of the range without a file. */
  lemma CheckMissingSpec(files: seq<string>)
    ensures forall i :: 0 <= i < |CheckMissing(files).names| ==>
              NamesMissing(CheckMissing(files).names[i], ExistingNumbers(files), 1, LastHymn)
    ensures forall k :: 1 <= k <= LastHymn && k !in ExistingNumbers(files) ==> ReportName(k) in CheckMissing(files).names
    ensures Distinct(CheckMissing(files).names)
  {
    MissingNamesSpec(ExistingNumbers(files), 1, LastHymn, CheckMissing(files).names);
  }

  // ---------------------------------------------------------------------------
  // check_1985_range.py
  // ---------------------------------------------------------------------------

  /** The seven ranges the report walks. */
  const Ranges: seq<(int, int)> :=
    [(1, 100), (101, 200), (201, 300), (301, 400), (401, 500), (501, 600), (601, 695)]

  /** The ranges run from 1 to 695, each starting right after the last. */
  lemma RangesPartition()
    ensures Ranges[0].0 == 1 && Chained(Ranges, LastHymn)
  {
  }

  datatype RangeReport = RangeReport(start: int, end: int, missing: seq<int>)

  /** The printed block for one range: none when nothing in it is missing. */
  function Block(existing: set<int>, lo: int, hi: int): (r: seq<RangeReport>)
    ensures |r| <= 1
    ensures forall b :: 0 <= b < |r| ==> r[b] == RangeReport(lo, hi, MissingIn(existing, lo, hi))
  {
    var m := MissingIn(existing, lo, hi);
    if |m| > 0 then [RangeReport(lo, hi, m)] else []
  }

  /** The printed blocks for a list of ranges, in order: ranges with nothing
      missing are not printed. */
  function RangeBlocks(existing: set<int>, ranges: seq<(int, int)>): (r: seq<RangeReport>)
    ensures forall b :: 0 <= b < |r| ==> |r[b].missing| > 0
    decreases |ranges|
  {
    if |ranges| == 0 then []
    else Block(existing, ranges[0].0, ranges[0].1) + RangeBlocks(existing, ranges[1..])
  }

  /** The numbers the printed blocks list, in order. */
  function Listed(blocks: seq<RangeReport>): seq<int>
    decreases |blocks|
  {
    if |blocks| == 0 then [] else blocks[0].missing + Listed(blocks[1..])
  }

  /** `total_missing`. */
  function Total(blocks: seq<RangeReport>): int
    decreases |blocks|
  {
    if |blocks| == 0 then 0 else |blocks[0].missing| + Total(blocks[1..])
  }

  lemma {:induction false} TotalIsListed(blocks: seq<RangeReport>)
    ensures Total(blocks) == |Listed(blocks)|
    decreases |blocks|
  {
    if |blocks| > 0 {
      TotalIsListed(blocks[1..]);
    }
  }

  /** A single block lists the missing numbers of its range. */
  lemma BlockLists(existing: set<int>, lo: int, hi: int)
    ensures Listed(Block(existing, lo, hi)) == MissingIn(existing, lo, hi)
  {
    var m := MissingIn(existing, lo, hi);
    if |m| > 0 {
      assert Listed(Block(existing, lo, hi)) == m + Listed([]);
    }
  }

  /** Ranges that are non-empty, follow one another without gap or overlap
      and end at `hi`. */
  predicate Chained(ranges: seq<(int, int)>, hi: int) {
    && |ranges| > 0
    && ranges[|ranges| - 1].1 == hi
    && (forall k :: 0 <= k < |ranges| ==> ranges[k].0 <= ranges[k].1 <= hi)
    && (forall k :: 0 < k < |ranges| ==> ranges[k].0 == ranges[k - 1].1 + 1)
  }

  /** Read one after the other, the blocks of chained ranges list the missing
      numbers of the whole span. */
  lemma {:induction false} BlocksListSpan(existing: set<int>, ranges: seq<(int, int)>, hi: int)
    requires Chained(ranges, hi)
    ensures Listed(RangeBlocks(existing, ranges)) == MissingIn(existing, ranges[0].0, hi)
    decreases |ranges|
  {
    var head := Block(existing, ranges[0].0, ranges[0].1);
    var rest := RangeBlocks(existing, ranges[1..]);
    assert RangeBlocks(existing, ranges) == head + rest;
    ListedConcat(head, rest);
    BlockLists(existing, ranges[0].0, ranges[0].1);
    MissingInSplit(existing, ranges[0].0, ranges[0].1, hi);
    if |ranges| > 1 {
      ChainedTail(ranges, hi);
      BlocksListSpan(existing, ranges[1..], hi);
    } else {
      assert MissingIn(existing, hi + 1, hi) == [];
      assert Listed(rest) == [];
    }
  }

  /** Dropping the first of several chained ranges leaves chained ranges
      that start right after it. */
  lemma ChainedTail(ranges: seq<(int, int)>, hi: int)
    requires Chained(ranges, hi) && |ranges| > 1
    ensures Chained(ranges[1..], hi) && ranges[1..][0].0 == ranges[0].1 + 1
  {
    var tail := ranges[1..];
    assert forall k :: 0 < k < |tail| ==> tail[k] == ranges[k + 1] && tail[k - 1] == ranges[k];
  }

  lemma {:induction false} ListedConcat(a: seq<RangeReport>, b: seq<RangeReport>)
    ensures Listed(a + b) == Listed(a) + Listed(b)
    decreases |a|
  {
    if |a| > 0 {
      assert (a + b)[1..] == a[1..] + b;
      ListedConcat(a[1..], b);
    } else {
      assert a + b == b;
    }
  }

  /** `check_hymn_range`: the printed blocks and the total. */
  function CheckRanges(files: seq<string>): (r: (seq<RangeReport>, int))
    ensures r.1 == Total(r.0)
  {
    var blocks := RangeBlocks(ExistingNumbers(files), Ranges);
    (blocks, Total(blocks))
  }

  /** Read one after the other, the blocks list exactly what the missing
      report lists, so the two totals agree. */
  lemma CheckRangesAgrees(files: seq<string>)
    ensures Listed(CheckRanges(files).0) == MissingIn(ExistingNumbers(files), 1, LastHymn)
    ensures CheckRanges(files).1 == CheckMissing(files).total
  {
    var existing := ExistingNumbers(files);
    RangesPartition();
    BlocksListSpan(existing, Ranges, LastHymn);
    TotalIsListed(RangeBlocks(existing, Ranges));
  }

  // ---------------------------------------------------------------------------
  // find_missing.py
  // ---------------------------------------------------------------------------

  /** The names `find_missing.py` reads a number from. */
  predicate Considered(name: string) {
    HasPrefix(name, "en_") && HasSuffix(name, ".mp3")
  }

  /** The numbers `parse` reads from the names `consider` accepts, or the
      first accepted name it cannot read. */
  function Gather(files: seq<string>, consider: string -> bool, parse: string -> Option<int>): (r: Result<set<int>, string>)
    decreases |files|
  {
    if |files| == 0 then Ok({})
    else if consider(files[0]) then
      match parse(files[0])
      case None => Err(files[0])
      case Some(n) =>
        match Gather(files[1..], consider, parse)
        case Err(e) => Err(e)
        case Ok(s) => Ok({n} + s)
    else Gather(files[1..], consider, parse)
  }

  /** Gathering fails exactly when an accepted name cannot be read, and
      otherwise collects the number of every accepted name and nothing else. */
  lemma {:induction false} GatherSpec(files: seq<string>, consider: string -> bool, parse: string -> Option<int>)
    ensures Gather(files, consider, parse).Err? <==>
              exists i :: 0 <= i < |files| && consider(files[i]) && parse(files[i]).None?
    ensures Gather(files, consider, parse).Ok? ==> forall n :: n in Gather(files, consider, parse).value <==>
              exists i :: 0 <= i < |files| && consider(files[i]) && parse(files[i]) == Some(n)
    decreases |files|
  {
    if |files| > 0 {
      var tail := files[1..];
      GatherSpec(tail, consider, parse);
      if exists i :: 0 <= i < |tail| && consider(tail[i]) && parse(tail[i]).None? {
        var i :| 0 <= i < |tail| && consider(tail[i]) && parse(tail[i]).None?;
        assert files[i + 1] == tail[i];
      }
      if exists i :: 0 <= i < |files| && consider(files[i]) && parse(files[i]).None? {
        var i :| 0 <= i < |files| && consider(files[i]) && parse(files[i]).None?;
        if i > 0 {
          assert tail[i - 1] == files[i];
        }
      }
      if Gather(files, consider, parse).Ok? {
        forall n ensures n in Gather(files, consider, parse).value <==>
                         exists i :: 0 <= i < |files| && consider(files[i]) && parse(files[i]) == Some(n) {
          if exists i :: 0 <= i < |tail| && consider(tail[i]) && parse(tail[i]) == Some(n) {
            var i :| 0 <= i < |tail| && consider(tail[i]) && parse(tail[i]) == Some(n);
            assert files[i + 1] == tail[i];
          }
          if exists i :: 0 <= i < |files| && consider(files[i]) && parse(files[i]) == Some(n) {
            var i :| 0 <= i < |files| && consider(files[i]) && parse(files[i]) == Some(n);
            if i > 0 {
              assert tail[i - 1] == files[i];
            }
          }
        }
      }
    }
  }

  /** The downloaded numbers, or the first considered name whose number does
      not parse: there is no guard, so that name stops the script. */
  function Downloaded(files: seq<string>): Result<set<int>, string> {
    Gather(files, Considered, NumberOf)
  }

  /** The script stops exactly when a considered name does not parse, and
      otherwise collects the number of every considered name and nothing else. */
  lemma DownloadedSpec(files: seq<string>)
    ensures Downloaded(files).Err? <==> exists i :: 0 <= i < |files| && Considered(files[i]) && NumberOf(files[i]).None?
    ensures Downloaded(files).Ok? ==> forall n :: n in Downloaded(files).value <==>
              exists i :: 0 <= i < |files| && Considered(files[i]) && NumberOf(files[i]) == Some(n)
  {
    GatherSpec(files, Considered, NumberOf);
  }

  /** The script's printed list: the numbers of 1..695 without a download,
      or the name that stopped it. */
  function FindMissing(files: seq<string>): Result<seq<int>, string> {
    match Downloaded(files)
    case Err(e) => Err(e)
    case Ok(s) => Ok(MissingIn(s, 1, LastHymn))
  }

  /** The script stops exactly when some listed `en_…mp3` name has no
      number; otherwise it prints, ascending, exactly the numbers 1..695
      that no listed name carries. */
  lemma FindMissingSpec(files: seq<string>)
    ensures FindMissing(files).Err? <==>
            exists i :: 0 <= i < |files| && Considered(files[i]) && NumberOf(files[i]).None?
    ensures FindMissing(files).Ok? ==>
              forall i, j :: 0 <= i < j < |FindMissing(files).value| ==>
                FindMissing(files).value[i] < FindMissing(files).value[j]
    ensures FindMissing(files).Ok? ==>
              forall k :: k in FindMissing(files).value <==>
                1 <= k <= LastHymn &&
                forall i :: 0 <= i < |files| && Considered(files[i]) ==> NumberOf(files[i]) != Some(k)
  {
    DownloadedSpec(files);
    if Downloaded(files).Ok? {
      var s := Downloaded(files).value;
      MissingInSpec(s, 1, LastHymn);
      forall k ensures k in FindMissing(files).value ==> 1 <= k <= LastHymn {
        if k in FindMissing(files).value {
          var m :| 0 <= m < |FindMissing(files).value| && FindMissing(files).value[m] == k;
        }
      }
    }
  }

  /** A folder holding `en_001.mp3` and a stray `en_final.mp3` stops the script. */
  lemma FindMissingStops()
    ensures FindMissing(["en_001.mp3", "en_final.mp3"]).Err?
  {
    var bad := "en_final.mp3";
    assert Considered(bad) by {
      assert bad[..3] == "en_";
      assert bad[|bad| - 4..] == ".mp3";
    }
    assert PySlice(bad, 3, 4) == "final";
    assert PyStrip("final") == "final" by {
      TrimOfTrimmed("final", IsPySpace);
    }
    assert !IsDigit("final"[0]);
    assert NumberOf(bad).None?;
    DownloadedSpec(["en_001.mp3", "en_final.mp3"]);
    assert ["en_001.mp3", "en_final.mp3"][1] == bad;
  }
}
