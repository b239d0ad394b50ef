/** The audio-folder maintenance scripts: `fix_1985_filenames.py`,
    `pad_1985_filenames.py` and `rename_1941_files.py`. A folder is the set
    of its file names; each script walks a listing of the `*.mp3` names taken
    before it starts and renames file after file in the live folder. */
module AudioFiles {
  import opened Wrappers
  import opened Text
  import opened Seqs

  type Folder = set<string>

  /** What the existence check before a rename does. */
  datatype Guard =
    | Overwrite          // no check: `os.rename` replaces an existing target
    | SkipIfExists       // skip when the target exists
    | SkipIfOtherExists  // skip when the target exists and is another file

  predicate Skips(g: Guard, folder: Folder, name: string, target: string) {
    match g
    case Overwrite => false
    case SkipIfExists => target in folder
    case SkipIfOtherExists => target in folder && target != name
  }

  /** The files of a listing in order: a name the plan has no target for is
      left alone, a guarded rename may be skipped, and renaming a file that
      is no longer there stops the script with that name. */
  function RenameAll(folder: Folder, files: seq<string>, plan: string -> Option<string>, g: Guard): Result<Folder, string>
    decreases |files|
  {
    if |files| == 0 then Ok(folder)
    else
      var name := files[0];
      match plan(name)
      case None => RenameAll(folder, files[1..], plan, g)
      case Some(t) =>
        if Skips(g, folder, name, t) then RenameAll(folder, files[1..], plan, g)
        else if name !in folder then Err(name)
        else RenameAll(folder - {name} + {t}, files[1..], plan, g)
  }

  /** The `glob("*.mp3")` listing of a folder: distinct `.mp3` names of the folder. */
  predicate Listing(files: seq<string>, folder: Folder) {
    Distinct(files) && forall i :: 0 <= i < |files| ==> files[i] in folder && HasSuffix(files[i], ".mp3")
  }

  /** A plan whose targets it never renames again. */
  ghost predicate Settled(plan: string -> Option<string>) {
    forall x, t :: plan(x) == Some(t) ==> plan(t).None?
  }

  lemma DistinctTail(files: seq<string>)
    requires |files| > 0 && Distinct(files)
    ensures Distinct(files[1..]) && files[0] !in files[1..]
  {
  }

  /** Every listed file is still there when its turn comes, so no script stops. */
  lemma {:induction false} RenameAllSucceeds(folder: Folder, files: seq<string>, plan: string -> Option<string>, g: Guard)
    requires Distinct(files) && forall i :: 0 <= i < |files| ==> files[i] in folder
    ensures RenameAll(folder, files, plan, g).Ok?
    decreases |files|
  {
    if |files| > 0 {
      var name := files[0];
      DistinctTail(files);
      assert forall i :: 0 <= i < |files[1..]| ==> files[1..][i] == files[i + 1];
      match plan(name)
      case None => RenameAllSucceeds(folder, files[1..], plan, g);
      case Some(t) =>
        if Skips(g, folder, name, t) {
          RenameAllSucceeds(folder, files[1..], plan, g);
        } else {
          RenameAllSucceeds(folder - {name} + {t}, files[1..], plan, g);
        }
    }
  }

  /** A name the plan leaves alone is never removed. */
  lemma {:induction false} RenameAllKeeps(folder: Folder, files: seq<string>, plan: string -> Option<string>, g: Guard, x: string)
    requires x in folder && plan(x).None?
    ensures RenameAll(folder, files, plan, g).Ok? ==> x in RenameAll(folder, files, plan, g).value
    decreases |files|
  {
    if |files| > 0 {
      var name := files[0];
      match plan(name)
      case None => RenameAllKeeps(folder, files[1..], plan, g, x);
      case Some(t) =>
        if Skips(g, folder, name, t) {
          RenameAllKeeps(folder, files[1..], plan, g, x);
        } else if name in folder {
          RenameAllKeeps(folder - {name} + {t}, files[1..], plan, g, x);
        }
    }
  }

  /** A name the plan renames, once absent, never comes back under a
      settled plan. */
  lemma {:induction false} RenameAllStaysOut(folder: Folder, files: seq<string>, plan: string -> Option<string>, g: Guard, x: string)
    requires Settled(plan) && x !in folder && plan(x).Some?
    ensures RenameAll(folder, files, plan, g).Ok? ==> x !in RenameAll(folder, files, plan, g).value
    decreases |files|
  {
    if |files| > 0 {
      var name := files[0];
      match plan(name)
      case None => RenameAllStaysOut(folder, files[1..], plan, g, x);
      case Some(t) =>
        assert plan(t).None?;
        if Skips(g, folder, name, t) {
          RenameAllStaysOut(folder, files[1..], plan, g, x);
        } else if name in folder {
          RenameAllStaysOut(folder - {name} + {t}, files[1..], plan, g, x);
        }
    }
  }

  /** Under a settled plan every planned target is in the folder at the end;
      without a guard the listed file itself is gone. */
  lemma {:induction false} RenameAllPlaces(folder: Folder, files: seq<string>, plan: string -> Option<string>, g: Guard)
    requires Settled(plan)
    requires Distinct(files) && forall i :: 0 <= i < |files| ==> files[i] in folder
    ensures RenameAll(folder, files, plan, g).Ok?
    ensures forall i :: 0 <= i < |files| && plan(files[i]).Some? ==>
              plan(files[i]).value in RenameAll(folder, files, plan, g).value
    ensures g == Overwrite ==> forall i :: 0 <= i < |files| && plan(files[i]).Some? ==>
              files[i] !in RenameAll(folder, files, plan, g).value
    decreases |files|
  {
    RenameAllSucceeds(folder, files, plan, g);
    if |files| > 0 {
      var name := files[0];
      var rest := files[1..];
      DistinctTail(files);
      assert forall i :: 0 <= i < |rest| ==> rest[i] == files[i + 1];
      match plan(name)
      case None =>
        RenameAllPlaces(folder, rest, plan, g);
      case Some(t) =>
        assert plan(t).None?;
        if Skips(g, folder, name, t) {
          RenameAllPlaces(folder, rest, plan, g);
          RenameAllKeeps(folder, rest, plan, g, t);
        } else {
          var next := folder - {name} + {t};
          RenameAllPlaces(next, rest, plan, g);
          RenameAllKeeps(next, rest, plan, g, t);
          if g == Overwrite {
            assert name != t;
            RenameAllStaysOut(next, rest, plan, g, name);
          }
        }
    }
  }

  /** With a guard, no file is ever replaced: the number of files stays. */
  lemma {:induction false} RenameAllCount(folder: Folder, files: seq<string>, plan: string -> Option<string>, g: Guard)
    requires g != Overwrite
    requires Distinct(files) && forall i :: 0 <= i < |files| ==> files[i] in folder
    ensures RenameAll(folder, files, plan, g).Ok?
    ensures |RenameAll(folder, files, plan, g).value| == |folder|
    decreases |files|
  {
    RenameAllSucceeds(folder, files, plan, g);
    if |files| > 0 {
      var name := files[0];
      var rest := files[1..];
      DistinctTail(files);
      assert forall i :: 0 <= i < |rest| ==> rest[i] == files[i + 1];
      match plan(name)
      case None => RenameAllCount(folder, rest, plan, g);
      case Some(t) =>
        if Skips(g, folder, name, t) {
          RenameAllCount(folder, rest, plan, g);
        } else {
          var next := folder - {name} + {t};
          if t == name {
            assert next == folder;
          } else {
            assert t !in folder - {name};
            assert |folder - {name}| == |folder| - 1;
          }
          RenameAllCount(next, rest, plan, g);
        }
    }
  }

  // ---------------------------------------------------------------------------
  // fix_1985_filenames.py
  // ---------------------------------------------------------------------------

  /** `^en_\d{3}\.mp3$`. */
  predicate IsPaddedName(name: string) {
    |name| == 10 && HasPrefix(name, "en_") && AllDigits(name[3..6]) && name[6..] == ".mp3"
  }

  /** `^\d+\.mp3$`. */
  predicate IsNumberName(name: string) {
    |name| >= 5 && AllDigits(name[..|name| - 4]) && name[|name| - 4..] == ".mp3"
  }

  /** `"en_" + digits.zfill(3) + ".mp3"`. */
  function EnName(digits: string): string {
    "en_" + ZeroPad(digits, 3) + ".mp3"
  }

  /** Padded names are skipped, a bare number is renamed to its padded
      `en_` name, any other name is reported and left alone. */
  function FixPlan(name: string): Option<string> {
    if IsPaddedName(name) then None
    else if IsNumberName(name) then Some(EnName(name[..|name| - 4]))
    else None
  }

  /** The digits between "en_" and ".mp3". */
  function EnDigits(name: string): string
    requires |name| >= 7
  {
    name[3..|name| - 4]
  }

  /** An `en_` name built from digits holds at least three digits with the
      same value. */
  lemma EnNameShape(digits: string)
    requires AllDigits(digits) && |digits| > 0
    ensures |EnName(digits)| >= 10 && HasPrefix(EnName(digits), "en_")
    ensures EnName(digits)[|EnName(digits)| - 4..] == ".mp3"
    ensures EnDigits(EnName(digits)) == ZeroPad(digits, 3)
    ensures AllDigits(EnDigits(EnName(digits))) && |EnDigits(EnName(digits))| >= 3
    ensures DigitsValue(EnDigits(EnName(digits))) == DigitsValue(digits)
    ensures |digits| >= 3 ==> EnDigits(EnName(digits)) == digits
  {
    ZeroPadValue(digits, 3);
    var n := EnName(digits);
    assert n[3..|n| - 4] == ZeroPad(digits, 3);
  }

  /** Exactly the bare-number names get a target, holding the same number
      in at least three digits, and no target is renamed again. */
  lemma FixPlanSpec(name: string)
    ensures FixPlan(name).Some? <==> IsNumberName(name)
    ensures IsNumberName(name) ==>
              var t := FixPlan(name).value;
              && HasPrefix(t, "en_") && |t| >= 10 && t[|t| - 4..] == ".mp3"
              && AllDigits(EnDigits(t)) && |EnDigits(t)| >= 3
              && DigitsValue(EnDigits(t)) == DigitsValue(name[..|name| - 4])
              && FixPlan(t).None?
  {
    if IsNumberName(name) {
      assert IsDigit(name[0]);
      assert !IsPaddedName(name);
      EnNameShape(name[..|name| - 4]);
      var t := FixPlan(name).value;
      assert t[0] == 'e';
      assert !IsDigit(t[..|t| - 4][0]);
    }
  }

  lemma FixPlanSettled()
    ensures Settled(FixPlan)
  {
    forall x, t | FixPlan(x) == Some(t) ensures FixPlan(t).None? {
      FixPlanSpec(x);
    }
  }

  /** `fix_filenames`. */
  function FixFilenames(folder: Folder, files: seq<string>): Result<Folder, string> {
    RenameAll(folder, files, FixPlan, SkipIfExists)
  }

  /** The script never stops, never loses a file, leaves every name that is
      not a bare number alone, and every bare number's padded name exists
      at the end. */
  lemma FixFilenamesSpec(folder: Folder, files: seq<string>)
    requires Listing(files, folder)
    ensures FixFilenames(folder, files).Ok?
    ensures |FixFilenames(folder, files).value| == |folder|
    ensures forall x :: x in folder && !IsNumberName(x) ==> x in FixFilenames(folder, files).value
    ensures forall i :: 0 <= i < |files| && IsNumberName(files[i]) ==>
              EnName(files[i][..|files[i]| - 4]) in FixFilenames(folder, files).value
  {
    FixPlanSettled();
    RenameAllCount(folder, files, FixPlan, SkipIfExists);
    RenameAllPlaces(folder, files, FixPlan, SkipIfExists);
    forall x | x in folder && !IsNumberName(x) ensures x in FixFilenames(folder, files).value {
      FixPlanSpec(x);
      RenameAllKeeps(folder, files, FixPlan, SkipIfExists, x);
    }
    forall i | 0 <= i < |files| && IsNumberName(files[i])
      ensures EnName(files[i][..|files[i]| - 4]) in FixFilenames(folder, files).value
    {
      FixPlanSpec(files[i]);
    }
  }

  // ---------------------------------------------------------------------------
  // pad_1985_filenames.py
  // ---------------------------------------------------------------------------

  /** `^en_(\d+)\.mp3$`. */
  predicate IsEnNumberName(name: string) {
    |name| >= 8 && HasPrefix(name, "en_") && name[|name| - 4..] == ".mp3" && AllDigits(EnDigits(name))
  }

  /** `en_` names with fewer than three digits are padded; nothing else is touched. */
  function PadPlan(name: string): Option<string> {
    if IsEnNumberName(name) && |EnDigits(name)| < 3 then Some(EnName(EnDigits(name))) else None
  }

  /** Exactly the short `en_` names get a target, which holds the same
      number in exactly three digits and is not renamed again. */
  lemma PadPlanSpec(name: string)
    ensures PadPlan(name).Some? <==> IsEnNumberName(name) && |EnDigits(name)| < 3
    ensures PadPlan(name).Some? ==>
              var t := PadPlan(name).value;
              && t != name && IsEnNumberName(t) && |EnDigits(t)| == 3
              && DigitsValue(EnDigits(t)) == DigitsValue(EnDigits(name))
              && PadPlan(t).None?
  {
    if IsEnNumberName(name) && |EnDigits(name)| < 3 {
      EnNameShape(EnDigits(name));
    }
  }

  lemma PadPlanSettled()
    ensures Settled(PadPlan)
  {
    forall x, t | PadPlan(x) == Some(t) ensures PadPlan(t).None? {
      PadPlanSpec(x);
    }
  }

  /** `pad_filenames`. */
  function PadFilenames(folder: Folder, files: seq<string>): Result<Folder, string> {
    RenameAll(folder, files, PadPlan, SkipIfOtherExists)
  }

  /** The script never stops, never loses a file, touches only short `en_`
      names, and each one's three-digit name exists at the end. */
  lemma PadFilenamesSpec(folder: Folder, files: seq<string>)
    requires Listing(files, folder)
    ensures PadFilenames(folder, files).Ok?
    ensures |PadFilenames(folder, files).value| == |folder|
    ensures forall x :: x in folder && PadPlan(x).None? ==> x in PadFilenames(folder, files).value
    ensures forall i :: 0 <= i < |files| && PadPlan(files[i]).Some? ==>
              PadPlan(files[i]).value in PadFilenames(folder, files).value
  {
    PadPlanSettled();
    RenameAllCount(folder, files, PadPlan, SkipIfOtherExists);
    RenameAllPlaces(folder, files, PadPlan, SkipIfOtherExists);
    forall x | x in folder && PadPlan(x).None? ensures x in PadFilenames(folder, files).value {
      RenameAllKeeps(folder, files, PadPlan, SkipIfOtherExists, x);
    }
  }

  // ---------------------------------------------------------------------------
  // rename_1941_files.py
  // ---------------------------------------------------------------------------

  /** `name[3:-4]`: what lies between "en_" and ".mp3". */
  function Middle(name: string): string {
    PySlice(name, 3, 4)
  }

  /** Every `en_` name becomes `old_` + its middle + ".mp3". */
  function OldPlan(name: string): Option<string> {
    if HasPrefix(name, "en_") then Some("old_" + Middle(name) + ".mp3") else None
  }

  /** The target keeps the middle part and is not renamed again. */
  lemma OldPlanSpec(name: string)
    ensures OldPlan(name).Some? <==> HasPrefix(name, "en_")
    ensures OldPlan(name).Some? ==>
              var t := OldPlan(name).value;
              && HasPrefix(t, "old_") && t[4..|t| - 4] == Middle(name) && OldPlan(t).None?
  {
    if HasPrefix(name, "en_") {
      var t := OldPlan(name).value;
      assert t[0] == 'o';
    }
  }

  lemma OldPlanSettled()
    ensures Settled(OldPlan)
  {
    forall x, t | OldPlan(x) == Some(t) ensures OldPlan(t).None? {
      OldPlanSpec(x);
    }
  }

  /** `rename_files`: no existence check. */
  function Rename1941(folder: Folder, files: seq<string>): Result<Folder, string> {
    RenameAll(folder, files, OldPlan, Overwrite)
  }

  /** Every listed `en_` file is gone and its `old_` name exists; every
      other name stays. */
  lemma Rename1941Spec(folder: Folder, files: seq<string>)
    requires Listing(files, folder)
    ensures Rename1941(folder, files).Ok?
    ensures forall i :: 0 <= i < |files| && HasPrefix(files[i], "en_") ==>
              files[i] !in Rename1941(folder, files).value &&
              "old_" + Middle(files[i]) + ".mp3" in Rename1941(folder, files).value
    ensures forall x :: x in folder && !HasPrefix(x, "en_") ==> x in Rename1941(folder, files).value
  {
    OldPlanSettled();
    RenameAllPlaces(folder, files, OldPlan, Overwrite);
    forall x | x in folder && !HasPrefix(x, "en_") ensures x in Rename1941(folder, files).value {
      RenameAllKeeps(folder, files, OldPlan, Overwrite, x);
    }
  }

  /** Without a check an existing `old_` file is replaced: two files go in,
      one comes out. */
  lemma Rename1941LosesFile()
    ensures Rename1941({"en_001.mp3", "old_001.mp3"}, ["en_001.mp3", "old_001.mp3"]) == Ok({"old_001.mp3"})
  {
    var folder: Folder := {"en_001.mp3", "old_001.mp3"};
    assert Middle("en_001.mp3") == "001";
    assert HasPrefix("en_001.mp3", "en_");
    assert "old_" + "001" + ".mp3" == "old_001.mp3";
    assert OldPlan("en_001.mp3") == Some("old_001.mp3");
    assert "old_001.mp3"[..3][0] == 'o';
    assert OldPlan("old_001.mp3").None?;
    assert ["en_001.mp3", "old_001.mp3"][1..] == ["old_001.mp3"];
    assert ["old_001.mp3"][1..] == [];
    assert folder - {"en_001.mp3"} + {"old_001.mp3"} == {"old_001.mp3"};
    assert RenameAll({"old_001.mp3"}, [], OldPlan, Overwrite) == Ok({"old_001.mp3"});
    assert RenameAll({"old_001.mp3"}, ["old_001.mp3"], OldPlan, Overwrite) == Ok({"old_001.mp3"});
  }
}
