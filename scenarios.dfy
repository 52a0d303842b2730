/**
 * Concrete runs of the decision, with the lower directory /data/lower and the
 * upper directory /data/upper. Each run is first proved for any strings that
 * parse to the paths involved, then instantiated with the strings themselves.
 */
module Scenarios {
  import opened Wrappers
  import opened Paths
  import opened Config
  import opened Fs
  import opened Redir

  function Abs(comps: seq<string>): Path {
    Path(true, comps)
  }

  lemma LowerDirParses()
    ensures ParsePath("/data/lower") == Abs(["data", "lower"])
  {
    var p := Abs(["data", "lower"]);
    assert Interleave(p.comps) == "data" + "/" + "lower";
    assert Render(p) == "/data/lower";
    RenderParses(p);
  }

  lemma UpperDirParses()
    ensures ParsePath("/data/upper") == Abs(["data", "upper"])
  {
    var p := Abs(["data", "upper"]);
    assert Interleave(p.comps) == "data" + "/" + "upper";
    assert Render(p) == "/data/upper";
    RenderParses(p);
  }

  lemma SiblingParses()
    ensures ParsePath("/data/lowerX/f") == Abs(["data", "lowerX", "f"])
  {
    var p := Abs(["data", "lowerX", "f"]);
    assert Interleave(["lowerX", "f"]) == "lowerX/f";
    assert Interleave(p.comps) == "data/lowerX/f";
    assert Render(p) == "/data/lowerX/f";
    RenderParses(p);
  }

  lemma XParses()
    ensures ParsePath("/data/lower/x.txt") == Abs(["data", "lower", "x.txt"])
  {
    var p := Abs(["data", "lower", "x.txt"]);
    assert Interleave(["lower", "x.txt"]) == "lower/x.txt";
    assert Interleave(p.comps) == "data/lower/x.txt";
    assert Render(p) == "/data/lower/x.txt";
    RenderParses(p);
  }

  /** Four components joined by separators after a leading one parse back to themselves. */
  lemma FourComponentsParse(a: string, b: string, c: string, d: string)
    requires IsComponent(a) && IsComponent(b) && IsComponent(c) && IsComponent(d)
    ensures ParsePath([Separator] + a + [Separator] + b + [Separator] + c + [Separator] + d) == Abs([a, b, c, d])
  {
    var p := Abs([a, b, c, d]);
    assert Interleave([c, d]) == c + [Separator] + d;
    assert Interleave([b, c, d]) == b + [Separator] + (c + [Separator] + d);
    assert Interleave(p.comps) == a + [Separator] + (b + [Separator] + (c + [Separator] + d));
    assert Render(p) == [Separator] + a + [Separator] + b + [Separator] + c + [Separator] + d;
    RenderParses(p);
  }

  const NewInMissingDir: string := "/data/lower/new_dir/new_file.txt"

  lemma NewInMissingDirParses()
    ensures ParsePath(NewInMissingDir) == Abs(["data", "lower", "new_dir", "new_file.txt"])
  {
    FourComponentsParse("data", "lower", "new_dir", "new_file.txt");
    assert [Separator] + "data" + [Separator] + "lower" + [Separator] + "new_dir" + [Separator] + "new_file.txt"
      == NewInMissingDir;
  }

  /** Three components joined by separators after a leading one parse back to themselves. */
  lemma ThreeComponentsParse(a: string, b: string, c: string)
    requires IsComponent(a) && IsComponent(b) && IsComponent(c)
    ensures ParsePath([Separator] + a + [Separator] + b + [Separator] + c) == Abs([a, b, c])
  {
    var p := Abs([a, b, c]);
    assert Interleave([b, c]) == b + [Separator] + c;
    assert Interleave(p.comps) == a + [Separator] + (b + [Separator] + c);
    assert Render(p) == [Separator] + a + [Separator] + b + [Separator] + c;
    RenderParses(p);
  }

  const NewInLower: string := "/data/lower/new_file.txt"

  lemma NewFileParses()
    ensures ParsePath(NewInLower) == Abs(["data", "lower", "new_file.txt"])
  {
    ThreeComponentsParse("data", "lower", "new_file.txt");
    assert [Separator] + "data" + [Separator] + "lower" + [Separator] + "new_file.txt" == NewInLower;
  }

  /** A lower directory given with a trailing separator names the same directory. */
  lemma TrailingSeparatorLowerDir()
    ensures ParsePath("/data/lower/") == ParsePath("/data/lower") == Abs(["data", "lower"])
  {
    LowerDirParses();
    assert "/data/lower" + [Separator] == "/data/lower/";
    TrailingSeparatorIgnored("/data/lower");
  }

  lemma SiblingOfLower(lowerDir: string, upperDir: string, path: string, s: FsState, write: bool, f: Faults)
    requires ParsePath(lowerDir) == Abs(["data", "lower"])
    requires ParsePath(path) == Abs(["data", "lowerX", "f"])
    ensures Redirect(Some(Config(lowerDir, upperDir, false)), s, path, write, f) == Outcome(None, s)
  {
    assert "lower" != "lowerX" by {
      assert |"lower"| != |"lowerX"|;
    }
    assert ["data", "lower"][1] != ["data", "lowerX", "f"][1];
    OutsideLowerPassesThrough(Some(Config(lowerDir, upperDir, false)), s, path, write, f);
  }

  /** "/data/lowerX/f" shares its first characters with the lower directory but not its components. */
  lemma SiblingIsNotUnderLower(s: FsState, write: bool, f: Faults)
    ensures Redirect(Some(Config("/data/lower", "/data/upper", false)), s, "/data/lowerX/f", write, f) == Outcome(None, s)
  {
    LowerDirParses();
    SiblingParses();
    SiblingOfLower("/data/lower", "/data/upper", "/data/lowerX/f", s, write, f);
  }

  /** The lower tree holds x.txt = "hi", read-only; the upper directory is empty. */
  const Before := FsState(
    {Root, Abs(["data"]), Abs(["data", "lower"]), Abs(["data", "upper"])},
    map[Abs(["data", "lower", "x.txt"]) := FileData([104, 105], true)])

  lemma BeforeIsConsistent()
    ensures Consistent(Before)
  {
    assert Prefix(Abs(["data", "lower"]), 1) == Abs(["data"]);
    assert Prefix(Abs(["data", "upper"]), 1) == Abs(["data"]);
    assert Prefix(Abs(["data", "lower", "x.txt"]), 2) == Abs(["data", "lower"]);
  }

  lemma XCandidate(lowerDir: string, upperDir: string, path: string)
    requires ParsePath(lowerDir) == Abs(["data", "lower"])
    requires ParsePath(upperDir) == Abs(["data", "upper"])
    requires ParsePath(path) == Abs(["data", "lower", "x.txt"])
    ensures Candidate(Some(Config(lowerDir, upperDir, false)), path) == Some(Abs(["data", "upper", "x.txt"]))
  {
    assert StripPrefix(ParsePath(path), ParsePath(lowerDir)) == Some(Path(false, ["x.txt"]));
    assert "x.txt" != "." by {
      assert |"x.txt"| != |"."|;
    }
    assert Join(ParsePath(upperDir), Path(false, ["x.txt"])) == Abs(["data", "upper", "x.txt"]);
  }

  lemma WriteCopiesUp(lowerDir: string, upperDir: string, path: string)
    requires ParsePath(lowerDir) == Abs(["data", "lower"])
    requires ParsePath(upperDir) == Abs(["data", "upper"])
    requires ParsePath(path) == Abs(["data", "lower", "x.txt"])
    ensures var upperX := Abs(["data", "upper", "x.txt"]);
      var o := Redirect(Some(Config(lowerDir, upperDir, false)), Before, path, true, NoFaults);
      && o.target == Some(upperX)
      && upperX in o.fs.files && o.fs.files[upperX] == FileData([104, 105], false)
  {
    var cfg := Some(Config(lowerDir, upperDir, false));
    var upperX := Abs(["data", "upper", "x.txt"]);
    XCandidate(lowerDir, upperDir, path);
    BeforeIsConsistent();
    var up := Abs(["data", "upper"]);
    assert Parent(upperX).value == up;
    forall k | 1 <= k <= |up.comps|
      ensures Prefix(up, k) !in Before.files
    {
      assert |Prefix(up, k).comps| == k < 3;
    }
    assert Levels(up) !! Before.files.Keys;
    assert Parent(Abs(["data", "lower", "x.txt"])).value == Abs(["data", "lower"]);
    CopyUpWithoutFaultsSucceeds(cfg, Before, path);
    CopiedUpIsWritableCopy(cfg, Before, path, NoFaults);
  }

  lemma WriteThenRead(lowerDir: string, upperDir: string, path: string, again: Faults)
    requires ParsePath(lowerDir) == Abs(["data", "lower"])
    requires ParsePath(upperDir) == Abs(["data", "upper"])
    requires ParsePath(path) == Abs(["data", "lower", "x.txt"])
    ensures var cfg, upperX := Some(Config(lowerDir, upperDir, false)), Abs(["data", "upper", "x.txt"]);
      var o := Redirect(cfg, Before, path, true, NoFaults);
      && o.target == Some(upperX)
      && upperX in o.fs.files && o.fs.files[upperX] == FileData([104, 105], false)
      && Redirect(cfg, o.fs, path, false, again) == Outcome(Some(upperX), o.fs)
  {
    var cfg := Some(Config(lowerDir, upperDir, false));
    XCandidate(lowerDir, upperDir, path);
    WriteCopiesUp(lowerDir, upperDir, path);
    var o := Redirect(cfg, Before, path, true, NoFaults);
    UpperShadowsLower(cfg, o.fs, path, false, again);
  }

  /**
   * Opening x.txt for writing redirects to the upper directory and leaves a
   * writable copy holding "hi" there; a later read-only open of the same
   * path is redirected to that copy as well.
   */
  lemma WriteThenReadScenario(again: Faults)
    ensures var cfg, upperX := Some(Config("/data/lower", "/data/upper", false)), Abs(["data", "upper", "x.txt"]);
      var o := Redirect(cfg, Before, "/data/lower/x.txt", true, NoFaults);
      && o.target == Some(upperX)
      && upperX in o.fs.files && o.fs.files[upperX] == FileData([104, 105], false)
      && Redirect(cfg, o.fs, "/data/lower/x.txt", false, again) == Outcome(Some(upperX), o.fs)
  {
    LowerDirParses();
    UpperDirParses();
    XParses();
    WriteThenRead("/data/lower", "/data/upper", "/data/lower/x.txt", again);
  }

  lemma NewFileInMissingDir(lowerDir: string, upperDir: string, path: string, f: Faults)
    requires ParsePath(lowerDir) == Abs(["data", "lower"])
    requires ParsePath(upperDir) == Abs(["data", "upper"])
    requires ParsePath(path) == Abs(["data", "lower", "new_dir", "new_file.txt"])
    ensures var upperNew := Abs(["data", "upper", "new_dir", "new_file.txt"]);
      && Redirect(Some(Config(lowerDir, upperDir, false)), Before, path, true, f) == Outcome(Some(upperNew), Before)
      && !ExistsIn(Before, Parent(upperNew).value)
  {
    var cfg := Some(Config(lowerDir, upperDir, false));
    var upperNew := Abs(["data", "upper", "new_dir", "new_file.txt"]);
    var rest := Path(false, ["new_dir", "new_file.txt"]);
    assert StripPrefix(ParsePath(path), ParsePath(lowerDir)) == Some(rest);
    assert "new_dir" != "." by {
      assert |"new_dir"| != |"."|;
    }
    assert Join(ParsePath(upperDir), rest) == upperNew;
    assert Candidate(cfg, path) == Some(upperNew);
    assert Parent(ParsePath(path)).value == Abs(["data", "lower", "new_dir"]);
    assert Parent(upperNew).value == Abs(["data", "upper", "new_dir"]);
    MissingLowerParentCreatesNothing(cfg, Before, path, f);
  }

  /**
   * Creating new_dir/new_file.txt where new_dir exists in neither tree is
   * redirected, but nothing is created: the upper parent is still missing,
   * so the open that follows cannot create the file.
   */
  lemma NewFileInMissingDirScenario(f: Faults)
    ensures var upperNew := Abs(["data", "upper", "new_dir", "new_file.txt"]);
      && Redirect(Some(Config("/data/lower", "/data/upper", false)), Before, NewInMissingDir, true, f)
         == Outcome(Some(upperNew), Before)
      && !ExistsIn(Before, Parent(upperNew).value)
  {
    LowerDirParses();
    UpperDirParses();
    NewInMissingDirParses();
    NewFileInMissingDir("/data/lower", "/data/upper", NewInMissingDir, f);
  }

  lemma NewFileInLower(lowerDir: string, upperDir: string, path: string, f: Faults)
    requires ParsePath(lowerDir) == Abs(["data", "lower"])
    requires ParsePath(upperDir) == Abs(["data", "upper"])
    requires ParsePath(path) == Abs(["data", "lower", "new_file.txt"])
    ensures Redirect(Some(Config(lowerDir, upperDir, false)), Before, path, true, f)
      == Outcome(Some(Abs(["data", "upper", "new_file.txt"])), Before)
  {
    var cfg := Some(Config(lowerDir, upperDir, false));
    var upperNew := Abs(["data", "upper", "new_file.txt"]);
    var up := Abs(["data", "upper"]);
    assert StripPrefix(ParsePath(path), ParsePath(lowerDir)) == Some(Path(false, ["new_file.txt"]));
    assert "new_file.txt" != "." by {
      assert |"new_file.txt"| != |"."|;
    }
    assert Join(ParsePath(upperDir), Path(false, ["new_file.txt"])) == upperNew;
    assert Candidate(cfg, path) == Some(upperNew);
    assert Parent(ParsePath(path)).value == Abs(["data", "lower"]);
    assert Parent(upperNew).value == up;
    assert Prefix(up, 1) == Abs(["data"]) && Prefix(up, 2) == up;
    forall k | 1 <= k <= |up.comps|
      ensures !BlockedAt(Before, up, f.mkdir, k)
    {
    }
    assert Levels(up) <= Before.dirs;
    var made := CreateDirAllStep(Before, up, f.mkdir);
    assert made.fs == Before;
  }

  /**
   * Creating new_file.txt directly in the lower directory, which has no such
   * file, is redirected to the upper directory whatever fails: the upper
   * directory already exists and there is nothing to copy, so nothing changes
   * and the open that follows creates the file in the upper directory.
   */
  lemma NewFileInLowerScenario(f: Faults)
    ensures Redirect(Some(Config("/data/lower", "/data/upper", false)), Before, NewInLower, true, f)
      == Outcome(Some(Abs(["data", "upper", "new_file.txt"])), Before)
  {
    LowerDirParses();
    UpperDirParses();
    NewFileParses();
    NewFileInLower("/data/lower", "/data/upper", NewInLower, f);
  }
}
