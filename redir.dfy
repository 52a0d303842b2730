/**
 * `redirect_path`: decides whether an access to `path` goes to the upper
 * directory instead, copying the lower file up first when the access may
 * write. `Redirect` states the decision and its effect on the filesystem as a
 * function; `RedirectPath` performs it step by step on a `FileSystem`.
 */
module Redir {
  import opened Wrappers
  import opened Paths
  import opened Config
  import opened Fs

  /**
   * The upper counterpart of `path`: defined only for an absolute path under
   * the lower directory (component-wise), and then the upper directory
   * joined with the rest of `path` below the lower directory.
   */
  function Candidate(cfg: Option<Config>, path: string): (c: Option<Path>)
    ensures c.Some? <==>
      !IsRelative(path) && cfg.Some? && StripPrefix(ParsePath(path), ParsePath(cfg.value.lowerDir)).Some?
  {
    if IsRelative(path) then None
    else match cfg
      case None => None
      case Some(config) =>
        match StripPrefix(ParsePath(path), ParsePath(config.lowerDir))
        case None => None
        case Some(inLower) => Some(Join(ParsePath(config.upperDir), inLower))
  }

  /** The target handed back (if any) and the filesystem afterwards. */
  datatype Outcome = Outcome(target: Option<Path>, fs: FsState)

  /**
   * The write branch once the candidate is known to be absent: make the
   * upper parent, then copy the lower file up if it is one. A step that
   * fails ends the decision with no target, keeping what the earlier steps
   * did.
   */
  function CopyUp(s: FsState, lower: Path, cand: Path, f: Faults): Outcome
    requires !ExistsIn(s, cand)
  {
    match Parent(lower)
    case None => Outcome(None, s)
    case Some(lowerParent) =>
      if !ExistsIn(s, lowerParent) then Outcome(Some(cand), s)
      else match Parent(cand)
        case None => Outcome(None, s)
        case Some(upperParent) =>
          var made := CreateDirAllStep(s, upperParent, f.mkdir);
          if !made.ok then Outcome(None, made.fs)
          else if !IsFileIn(made.fs, lower) then Outcome(Some(cand), made.fs)
          else CopyFile(made.fs, lower, cand, f)
  }

  /** Copy the lower file to the absent candidate, then make the copy writable. */
  function CopyFile(s: FsState, lower: Path, cand: Path, f: Faults): Outcome
    requires IsFileIn(s, lower) && !ExistsIn(s, cand)
  {
    var copied := CopyStep(s, lower, cand, f.copy);
    if !copied.ok then Outcome(None, copied.fs)
    else MakeWritable(copied.fs, cand, f)
  }

  /** Read the copy's permissions, clear its read-only flag and write them back. */
  function MakeWritable(s: FsState, cand: Path, f: Faults): Outcome {
    match MetadataStep(s, cand, f.metadataFails)
    case None => Outcome(None, s)
    case Some(perms) =>
      var updated := SetPermissionsStep(s, cand, perms.(readonly := false), f.setPermissionsFails);
      Outcome(if updated.ok then Some(cand) else None, updated.fs)
  }

  /** The whole decision of `redirect_path(path, write)` under configuration `cfg`. */
  function Redirect(cfg: Option<Config>, s: FsState, path: string, write: bool, f: Faults): (o: Outcome)
    ensures o.target.Some? ==> Candidate(cfg, path).Some?
    ensures o.fs != s ==> write && Candidate(cfg, path).Some? && !ExistsIn(s, Candidate(cfg, path).value)
  {
    match Candidate(cfg, path)
    case None => Outcome(None, s)
    case Some(cand) =>
      if ExistsIn(s, cand) then Outcome(Some(cand), s)
      else if !write then Outcome(None, s)
      else CopyUp(s, ParsePath(path), cand, f)
  }

  /** `redirect_path`, performed on the process's filesystem with the stored configuration. */
  method RedirectPath(proc: Process, fs: FileSystem, path: string, write: bool, faults: Faults)
    returns (target: Option<Path>)
    requires fs.Valid() && proc.Valid()
    modifies fs
    ensures fs.Valid() && proc.Valid()
    ensures proc.GetConfig() == old(proc.GetConfig())
    ensures Outcome(target, fs.State()) == Redirect(proc.GetConfig(), old(fs.State()), path, write, faults)
  {
    ghost var s := fs.State();
    if IsRelative(path) {
      return None;
    }
    var cfg := proc.GetConfig();
    if cfg.None? {
      return None;
    }
    var lower := ParsePath(path);
    var pathInLower := StripPrefix(lower, ParsePath(cfg.value.lowerDir));
    if pathInLower.None? {
      return None;
    }
    var pathToUpper := Join(ParsePath(cfg.value.upperDir), pathInLower.value);
    assert Candidate(cfg, path) == Some(pathToUpper);

    var redirect;
    if fs.Exists(pathToUpper) {
      redirect := true;
    } else if write {
      var copiedUp := CopyUpOn(fs, lower, pathToUpper, faults);
      if !copiedUp {
        return None;
      }
      redirect := true;
    } else {
      redirect := false;
    }

    if redirect {
      return Some(pathToUpper);
    } else {
      return None;
    }
  }

  /**
   * The write branch of `redirect_path` once the candidate is known to be
   * absent, performed on `fs`: false where the source returns `None` early.
   */
  method CopyUpOn(fs: FileSystem, lower: Path, pathToUpper: Path, faults: Faults) returns (ok: bool)
    requires fs.Valid() && !ExistsIn(fs.State(), pathToUpper)
    modifies fs
    ensures fs.Valid()
    ensures Outcome(if ok then Some(pathToUpper) else None, fs.State()) == CopyUp(old(fs.State()), lower, pathToUpper, faults)
  {
    var parentInLower := Parent(lower);
    if parentInLower.None? {
      return false;
    }
    if fs.Exists(parentInLower.value) {
      var parentInUpper := Parent(pathToUpper);
      if parentInUpper.None? {
        return false;
      }
      var made := fs.CreateDirAll(parentInUpper.value, faults.mkdir);
      if !made {
        return false;
      }
      if fs.IsFile(lower) {
        var copied := fs.Copy(lower, pathToUpper, faults.copy);
        if !copied {
          return false;
        }
        var perms := fs.Metadata(pathToUpper, faults.metadataFails);
        if perms.None? {
          return false;
        }
        var permsSet := fs.SetPermissions(pathToUpper, perms.value.(readonly := false), faults.setPermissionsFails);
        if !permsSet {
          return false;
        }
      }
    }
    return true;
  }

  // Properties of the decision.

  /** A relative path is never redirected and nothing is touched, whatever the configuration. */
  lemma RelativePathPassesThrough(cfg: Option<Config>, s: FsState, path: string, write: bool, f: Faults)
    requires IsRelative(path)
    ensures Redirect(cfg, s, path, write, f) == Outcome(None, s)
  {
  }

  /** Without a configuration, or outside the lower directory, nothing is redirected or touched. */
  lemma OutsideLowerPassesThrough(cfg: Option<Config>, s: FsState, path: string, write: bool, f: Faults)
    requires cfg.None? || StripPrefix(ParsePath(path), ParsePath(cfg.value.lowerDir)).None?
    ensures Redirect(cfg, s, path, write, f) == Outcome(None, s)
  {
  }

  /**
   * The candidate lies in the upper directory exactly where `path` lies in the
   * lower one. An empty lower directory strips nothing, and the candidate is
   * then `path` itself.
   */
  lemma CandidateMirrorsLower(cfg: Option<Config>, path: string)
    requires Candidate(cfg, path).Some?
    ensures var lowerDir, upperDir := ParsePath(cfg.value.lowerDir), ParsePath(cfg.value.upperDir);
      && (lowerDir != Path(false, []) ==>
            lowerDir.absolute &&
            StripPrefix(Candidate(cfg, path).value, upperDir) == StripPrefix(ParsePath(path), lowerDir))
      && (lowerDir == Path(false, []) ==> Candidate(cfg, path).value == ParsePath(path))
  {
    var lowerDir, upperDir := ParsePath(cfg.value.lowerDir), ParsePath(cfg.value.upperDir);
    var p := ParsePath(path);
    var rest := StripPrefix(p, lowerDir).value;
    if lowerDir != Path(false, []) {
      if rest.comps != [] {
        assert rest.comps[0] == p.comps[|lowerDir.comps|];
        assert IsComponent(p.comps[|lowerDir.comps|]);
      }
      StripJoin(upperDir, rest);
    }
  }

  /** Once the upper counterpart exists it is the target, for reads and writes alike, and nothing is touched. */
  lemma UpperShadowsLower(cfg: Option<Config>, s: FsState, path: string, write: bool, f: Faults)
    requires Candidate(cfg, path).Some? && ExistsIn(s, Candidate(cfg, path).value)
    ensures Redirect(cfg, s, path, write, f) == Outcome(Candidate(cfg, path), s)
  {
  }

  /** A read of something not in the upper directory goes to the lower one, untouched. */
  lemma ReadOfLowerPassesThrough(cfg: Option<Config>, s: FsState, path: string, f: Faults)
    requires Candidate(cfg, path).Some? && !ExistsIn(s, Candidate(cfg, path).value)
    ensures Redirect(cfg, s, path, false, f) == Outcome(None, s)
  {
  }

  /** A write whose lower parent does not exist is redirected without creating anything. */
  lemma MissingLowerParentCreatesNothing(cfg: Option<Config>, s: FsState, path: string, f: Faults)
    requires Candidate(cfg, path).Some? && !ExistsIn(s, Candidate(cfg, path).value)
    requires Parent(ParsePath(path)).Some? && !ExistsIn(s, Parent(ParsePath(path)).value)
    ensures Redirect(cfg, s, path, true, f) == Outcome(Candidate(cfg, path), s)
  {
  }

  // What each stage of the copy up does.

  lemma MakeWritableEffect(s: FsState, cand: Path, f: Faults)
    ensures var o := MakeWritable(s, cand, f);
      && o.fs.dirs == s.dirs && o.fs.files.Keys == s.files.Keys
      && (forall q :: q in s.files && q != cand ==> o.fs.files[q] == s.files[q])
      && (o.target.Some? ==> o.target == Some(cand) && (cand in s.files ==> o.fs.files[cand] == s.files[cand].(readonly := false)))
      && (o.target.None? ==> o.fs == s)
      && (o.target.Some? <==> !f.metadataFails && !f.setPermissionsFails && ExistsIn(s, cand))
  {
  }

  lemma CopyFileEffect(s: FsState, lower: Path, cand: Path, f: Faults)
    requires IsFileIn(s, lower) && !ExistsIn(s, cand)
    ensures var o := CopyFile(s, lower, cand, f);
      && o.fs.dirs == s.dirs
      && o.fs.files.Keys <= s.files.Keys + {cand}
      && (forall q :: q in s.files ==> q in o.fs.files && o.fs.files[q] == s.files[q])
      && (o.target.Some? ==> o.target == Some(cand) && cand in o.fs.files && o.fs.files[cand] == FileData(s.files[lower].content, false))
      && (o.target.None? && cand in o.fs.files ==>
            o.fs.files[cand].readonly == s.files[lower].readonly && o.fs.files[cand].content <= s.files[lower].content)
      && (f.copy == CopyFailsBeforeCreate ==> o == Outcome(None, s))
      && (ParentIsDir(s, cand) ==>
            && (o.target.None? <==> f.copy != CopyOk || f.metadataFails || f.setPermissionsFails)
            && (f.copy.CopyFailsAfterCreate? ==> cand in o.fs.files)
            && (f.copy == CopyOk && o.target.None? ==> cand in o.fs.files && o.fs.files[cand] == s.files[lower]))
  {
    var copied := CopyStep(s, lower, cand, f.copy);
    if copied.ok {
      MakeWritableEffect(copied.fs, cand, f);
    }
  }

  lemma CopyUpEffect(s: FsState, lower: Path, cand: Path, f: Faults)
    requires !ExistsIn(s, cand)
    ensures var o := CopyUp(s, lower, cand, f);
      && (o.fs == s || ConfinedTo(s, o.fs, cand))
      && (o.target.Some? ==> o.target == Some(cand))
      && (!IsFileIn(s, lower) ==> o.fs.files == s.files)
      && (o.target.Some? && IsFileIn(s, lower) && Parent(lower).Some? && ExistsIn(s, Parent(lower).value) ==>
            cand in o.fs.files && o.fs.files[cand] == FileData(s.files[lower].content, false))
      && (o.target.None? && cand in o.fs.files ==>
            IsFileIn(s, lower) &&
            o.fs.files[cand].readonly == s.files[lower].readonly && o.fs.files[cand].content <= s.files[lower].content)
      && (Parent(lower).Some? && ExistsIn(s, Parent(lower).value) && Parent(cand).Some? ==>
            o.fs.dirs == CreateDirAllStep(s, Parent(cand).value, f.mkdir).fs.dirs)
  {
    var o := CopyUp(s, lower, cand, f);
    if Parent(lower).None? || !ExistsIn(s, Parent(lower).value) || Parent(cand).None? {
      assert o.fs == s;
    } else {
      var made := CreateDirAllStep(s, Parent(cand).value, f.mkdir);
      if !made.ok {
        assert o == Outcome(None, made.fs);
      } else if !IsFileIn(made.fs, lower) {
        assert o == Outcome(Some(cand), made.fs);
      } else {
        CopyFileEffect(made.fs, lower, cand, f);
        assert o == CopyFile(made.fs, lower, cand, f);
      }
    }
  }

  /** A target is only ever the candidate. */
  lemma TargetIsCandidate(cfg: Option<Config>, s: FsState, path: string, write: bool, f: Faults)
    ensures Redirect(cfg, s, path, write, f).target.Some? ==>
      Redirect(cfg, s, path, write, f).target == Candidate(cfg, path)
  {
    var c := Candidate(cfg, path);
    if c.Some? && !ExistsIn(s, c.value) && write {
      CopyUpEffect(s, ParsePath(path), c.value, f);
    }
  }

  /**
   * When a lower file was copied up and the write is redirected, the upper
   * copy holds exactly the lower file's bytes and is not read-only.
   */
  lemma CopiedUpIsWritableCopy(cfg: Option<Config>, s: FsState, path: string, f: Faults)
    requires Candidate(cfg, path).Some? && !ExistsIn(s, Candidate(cfg, path).value)
    requires IsFileIn(s, ParsePath(path))
    requires Parent(ParsePath(path)).Some? && ExistsIn(s, Parent(ParsePath(path)).value)
    requires Redirect(cfg, s, path, true, f).target.Some?
    ensures var c, o := Candidate(cfg, path).value, Redirect(cfg, s, path, true, f);
      c in o.fs.files && o.fs.files[c] == FileData(s.files[ParsePath(path)].content, false)
  {
    CopyUpEffect(s, ParsePath(path), Candidate(cfg, path).value, f);
  }

  /**
   * A write that is not redirected may still leave an upper copy behind, but
   * only a copy of a prefix of the lower file's bytes that still has the lower
   * file's read-only flag: the steps that completed keep their effect.
   */
  lemma FailedCopyUpLeavesPartialCopy(cfg: Option<Config>, s: FsState, path: string, f: Faults)
    requires Candidate(cfg, path).Some? && !ExistsIn(s, Candidate(cfg, path).value)
    requires Redirect(cfg, s, path, true, f).target.None?
    ensures var c, o := Candidate(cfg, path).value, Redirect(cfg, s, path, true, f);
      c in o.fs.files ==>
        && IsFileIn(s, ParsePath(path))
        && o.fs.files[c].readonly == s.files[ParsePath(path)].readonly
        && o.fs.files[c].content <= s.files[ParsePath(path)].content
  {
    CopyUpEffect(s, ParsePath(path), Candidate(cfg, path).value, f);
  }

  /**
   * What a call may change, when it changes anything: the missing directories
   * up to the candidate's parent and the candidate itself. Existing files keep
   * their content and flag, and nothing is removed.
   */
  predicate ConfinedTo(s: FsState, t: FsState, c: Path) {
    && Parent(c).Some?
    && s.dirs <= t.dirs <= s.dirs + Levels(Parent(c).value)
    && t.files.Keys <= s.files.Keys + {c}
    && (forall q :: q in s.files ==> q in t.files && t.files[q] == s.files[q])
  }

  /** Only a write with a candidate changes the filesystem, and only within `ConfinedTo`; the lower file is only read. */
  lemma RedirectFrame(cfg: Option<Config>, s: FsState, path: string, write: bool, f: Faults)
    ensures var o := Redirect(cfg, s, path, write, f);
      o.fs == s || (write && Candidate(cfg, path).Some? && ConfinedTo(s, o.fs, Candidate(cfg, path).value))
  {
    var c := Candidate(cfg, path);
    if c.Some? && !ExistsIn(s, c.value) && write {
      CopyUpEffect(s, ParsePath(path), c.value, f);
    }
  }

  lemma CopyUpKeepsConsistent(s: FsState, lower: Path, cand: Path, f: Faults)
    requires Consistent(s) && !ExistsIn(s, cand)
    ensures Consistent(CopyUp(s, lower, cand, f).fs)
  {
    if Parent(lower).Some? && ExistsIn(s, Parent(lower).value) && Parent(cand).Some? {
      var made := CreateDirAllStep(s, Parent(cand).value, f.mkdir);
      CreateDirAllKeepsConsistent(s, Parent(cand).value, f.mkdir);
      if made.ok && IsFileIn(made.fs, lower) {
        var copied := CopyStep(made.fs, lower, cand, f.copy);
        CopyKeepsConsistent(made.fs, lower, cand, f.copy);
        var perms := MetadataStep(copied.fs, cand, f.metadataFails);
        if copied.ok && perms.Some? {
          SetPermissionsKeepsConsistent(copied.fs, cand, perms.value.(readonly := false), f.setPermissionsFails);
        }
      }
    }
  }

  /** Every decision leaves a consistent filesystem consistent. */
  lemma RedirectKeepsConsistent(cfg: Option<Config>, s: FsState, path: string, write: bool, f: Faults)
    requires Consistent(s)
    ensures Consistent(Redirect(cfg, s, path, write, f).fs)
  {
    var c := Candidate(cfg, path);
    if c.Some? && !ExistsIn(s, c.value) && write {
      CopyUpKeepsConsistent(s, ParsePath(path), c.value, f);
    }
  }

  /** `create_dir_all` that the oracle lets through succeeds unless a file is in the way. */
  lemma CreateDirAllWithoutFaultSucceeds(s: FsState, p: Path)
    requires Levels(p) !! s.files.Keys
    ensures CreateDirAllStep(s, p, MkdirOk).ok
  {
    forall k | 1 <= k <= |p.comps|
      ensures !BlockedAt(s, p, MkdirOk, k)
    {
      assert Prefix(p, k) in Levels(p);
    }
  }

  /** Copying into a directory where nothing is in the way succeeds when no call fails. */
  lemma CopyFileWithoutFaultsSucceeds(s: FsState, lower: Path, cand: Path)
    requires IsFileIn(s, lower) && !ExistsIn(s, cand) && ParentIsDir(s, cand)
    ensures CopyFile(s, lower, cand, NoFaults).target == Some(cand)
  {
    var copied := CopyStep(s, lower, cand, NoFaults.copy);
    assert copied.ok;
    assert MetadataStep(copied.fs, cand, false).Some?;
  }

  /**
   * After a successful `create_dir_all` of the candidate's parent, that parent
   * is a directory to create the candidate in, and the candidate is still not
   * a directory.
   */
  lemma MadeParentIsDir(s: FsState, cand: Path, fault: MkdirFault)
    requires Consistent(s) && !ExistsIn(s, cand)
    requires Parent(cand).Some? && CreateDirAllStep(s, Parent(cand).value, fault).ok
    ensures var t := CreateDirAllStep(s, Parent(cand).value, fault).fs;
      ParentIsDir(t, cand) && cand !in t.dirs
  {
    var up := Parent(cand).value;
    var t := CreateDirAllStep(s, up, fault).fs;
    forall k | 1 <= k <= |up.comps|
      ensures Prefix(up, k) != cand
    {
      assert |Prefix(up, k).comps| == k < |cand.comps|;
    }
    if up.comps != [] {
      assert up == Prefix(up, |up.comps|);
      assert up in Levels(up);
    }
  }

  /** Where no step fails and no file stands in the way of the upper parent, copying up succeeds. */
  lemma CopyUpWithoutFaultsSucceeds(cfg: Option<Config>, s: FsState, path: string)
    requires Consistent(s)
    requires Candidate(cfg, path).Some? && !ExistsIn(s, Candidate(cfg, path).value)
    requires IsFileIn(s, ParsePath(path))
    requires Parent(ParsePath(path)).Some? && ExistsIn(s, Parent(ParsePath(path)).value)
    requires Parent(Candidate(cfg, path).value).Some?
    requires Levels(Parent(Candidate(cfg, path).value).value) !! s.files.Keys
    ensures Redirect(cfg, s, path, true, NoFaults).target == Candidate(cfg, path)
  {
    var c := Candidate(cfg, path).value;
    var lower := ParsePath(path);
    var up := Parent(c).value;
    CreateDirAllWithoutFaultSucceeds(s, up);
    var made := CreateDirAllStep(s, up, MkdirOk);
    MadeParentIsDir(s, c, MkdirOk);
    CopyFileWithoutFaultsSucceeds(made.fs, lower, c);
    assert CopyUp(s, lower, c, NoFaults) == CopyFile(made.fs, lower, c, NoFaults);
  }

  /**
   * Once the lower parent exists, copying up ends with no target exactly when
   * `create_dir_all` is blocked at some level, or when there is a lower file to
   * copy and `copy`, `metadata` or `set_permissions` fails. Without a lower
   * file (a new file), only `create_dir_all` can fail.
   */
  lemma CopyUpFailsExactlyWhenAStepFails(s: FsState, lower: Path, cand: Path, f: Faults)
    requires Consistent(s) && !ExistsIn(s, cand)
    requires Parent(lower).Some? && ExistsIn(s, Parent(lower).value)
    requires Parent(cand).Some?
    ensures var up := Parent(cand).value;
      CopyUp(s, lower, cand, f).target.None? <==>
        (exists k :: 1 <= k <= |up.comps| && BlockedAt(s, up, f.mkdir, k))
        || (IsFileIn(s, lower) && (f.copy != CopyOk || f.metadataFails || f.setPermissionsFails))
  {
    var up := Parent(cand).value;
    var made := CreateDirAllStep(s, up, f.mkdir);
    if made.ok && IsFileIn(made.fs, lower) {
      MadeParentIsDir(s, cand, f.mkdir);
      CopyFileEffect(made.fs, lower, cand, f);
    }
  }

  /**
   * A write whose path has no parent, or whose lower parent exists but whose
   * candidate has no parent, ends with no target and changes nothing.
   */
  lemma NoParentFails(s: FsState, lower: Path, cand: Path, f: Faults)
    requires !ExistsIn(s, cand)
    requires Parent(lower).None? || (ExistsIn(s, Parent(lower).value) && Parent(cand).None?)
    ensures CopyUp(s, lower, cand, f) == Outcome(None, s)
  {
  }

  /**
   * A write whose copy completed but whose permissions could not be read or
   * changed is not redirected, and leaves a full copy of the lower file that
   * is still as read-only as the lower file.
   */
  lemma CopyLeftReadOnlyWhenPermissionsFail(cfg: Option<Config>, s: FsState, path: string, f: Faults)
    requires Consistent(s)
    requires Candidate(cfg, path).Some? && !ExistsIn(s, Candidate(cfg, path).value)
    requires IsFileIn(s, ParsePath(path))
    requires Parent(ParsePath(path)).Some? && ExistsIn(s, Parent(ParsePath(path)).value)
    requires Parent(Candidate(cfg, path).value).Some?
    requires CreateDirAllStep(s, Parent(Candidate(cfg, path).value).value, f.mkdir).ok
    requires f.copy == CopyOk && (f.metadataFails || f.setPermissionsFails)
    ensures var c, o := Candidate(cfg, path).value, Redirect(cfg, s, path, true, f);
      o.target.None? && c in o.fs.files && o.fs.files[c] == s.files[ParsePath(path)]
  {
    var c := Candidate(cfg, path).value;
    var lower := ParsePath(path);
    var made := CreateDirAllStep(s, Parent(c).value, f.mkdir);
    MadeParentIsDir(s, c, f.mkdir);
    CopyFileEffect(made.fs, lower, c, f);
  }

  /**
   * The directories `create_dir_all` made before it was blocked (all of them,
   * when it was not) stay, whatever happens after.
   */
  lemma CreatedDirectoriesRemain(cfg: Option<Config>, s: FsState, path: string, f: Faults)
    requires Candidate(cfg, path).Some? && !ExistsIn(s, Candidate(cfg, path).value)
    requires Parent(ParsePath(path)).Some? && ExistsIn(s, Parent(ParsePath(path)).value)
    requires Parent(Candidate(cfg, path).value).Some?
    ensures var up := Parent(Candidate(cfg, path).value).value;
      forall k :: 1 <= k < FirstBlocked(s, up, f.mkdir, 1) ==> Prefix(up, k) in Redirect(cfg, s, path, true, f).fs.dirs
  {
    CopyUpEffect(s, ParsePath(path), Candidate(cfg, path).value, f);
  }

  /** Asking `create_dir_all` again for directories it has just made changes nothing and succeeds. */
  lemma CreateDirAllAgain(s: FsState, p: Path, fault: MkdirFault, again: MkdirFault)
    requires CreateDirAllStep(s, p, fault).ok
    ensures var t := CreateDirAllStep(s, p, fault).fs; CreateDirAllStep(t, p, again) == Step(true, t)
  {
    var t := CreateDirAllStep(s, p, fault).fs;
    forall k | 1 <= k <= |p.comps|
      ensures !BlockedAt(t, p, again, k)
    {
      assert !BlockedAt(s, p, fault, k);
      assert Prefix(p, k) in Levels(p);
    }
    var stop := FirstBlocked(t, p, again, 1);
    assert (set k | 1 <= k < stop :: Prefix(p, k)) <= Levels(p);
  }

  /**
   * A redirected call repeated with the same intent (and any faults) returns
   * the same target and changes nothing: the copy up happens at most once.
   */
  lemma RepeatedRedirectChangesNothing(cfg: Option<Config>, s: FsState, path: string, write: bool, f: Faults, again: Faults)
    requires Redirect(cfg, s, path, write, f).target.Some?
    ensures var o := Redirect(cfg, s, path, write, f); Redirect(cfg, o.fs, path, write, again) == o
  {
    var o := Redirect(cfg, s, path, write, f);
    var c := Candidate(cfg, path).value;
    if !ExistsIn(s, c) {
      var lower := ParsePath(path);
      var lowerParent := Parent(lower).value;
      if ExistsIn(s, lowerParent) {
        var up := Parent(c).value;
        var made := CreateDirAllStep(s, up, f.mkdir);
        if !IsFileIn(made.fs, lower) {
          CreateDirAllAgain(s, up, f.mkdir, again.mkdir);
          assert o.fs == made.fs;
        } else {
          CopyFileEffect(made.fs, lower, c, f);
          assert ExistsIn(o.fs, c);
        }
      }
    }
  }
}
