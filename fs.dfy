/**
 * An abstract filesystem: the set of directories and, for every regular file,
 * its bytes and its read-only flag. The std::fs calls the redirection makes
 * (`Path::exists`, `Path::is_file`, `create_dir_all`, `copy`, `metadata`,
 * `set_permissions`) are given as transitions of this state; whether a call
 * that could fail for reasons outside the model does fail is supplied by a
 * fault oracle.
 */
module Fs {
  import opened Wrappers
  import opened Paths

  newtype byte = x: int | 0 <= x < 256

  datatype FileData = FileData(content: seq<byte>, readonly: bool)

  /** What `metadata(..).permissions()` exposes of a file: only the read-only bit is modelled. */
  datatype Permissions = Permissions(readonly: bool)

  datatype FsState = FsState(dirs: set<Path>, files: map<Path, FileData>)

  /** Whether a call succeeded, and the filesystem afterwards. */
  datatype Step = Step(ok: bool, fs: FsState)

  /** `create_dir_all` either succeeds or fails when it tries to create the directory at the given depth. */
  datatype MkdirFault = MkdirOk | MkdirFailsAt(level: nat)

  /** `copy` either succeeds, fails before creating the target, or fails after writing some bytes. */
  datatype CopyFault = CopyOk | CopyFailsBeforeCreate | CopyFailsAfterCreate(written: nat)

  datatype Faults = Faults(mkdir: MkdirFault, copy: CopyFault, metadataFails: bool, setPermissionsFails: bool)

  const NoFaults := Faults(MkdirOk, CopyOk, false, false)

  const Root := Path(true, [])

  /** The empty path; it names nothing (`Path::new("").exists()` is false). */
  const Empty := Path(false, [])

  predicate ExistsIn(s: FsState, p: Path) {
    p in s.dirs || p in s.files
  }

  predicate IsFileIn(s: FsState, p: Path) {
    p in s.files
  }

  /** The first `k` components of `p`, with its root. */
  function Prefix(p: Path, k: int): Path
    requires 0 <= k <= |p.comps|
  {
    Path(p.absolute, p.comps[..k])
  }

  /** The directories `create_dir_all(p)` makes sure of: `p` and each of its ancestors below the root. */
  function Levels(p: Path): set<Path> {
    set k | 1 <= k <= |p.comps| :: Prefix(p, k)
  }

  /**
   * A filesystem the model can start from: the root is a directory, the empty
   * path names nothing, no path is both a directory and a file, and every
   * entry deeper than one component sits in a directory.
   */
  predicate Consistent(s: FsState) {
    && Root in s.dirs
    && Empty !in s.dirs && Empty !in s.files
    && (forall p :: p in s.files ==> p !in s.dirs)
    && (forall p :: p in s.dirs && |p.comps| >= 2 ==> Prefix(p, |p.comps| - 1) in s.dirs)
    && (forall p :: p in s.files && |p.comps| >= 2 ==> Prefix(p, |p.comps| - 1) in s.dirs)
  }

  /** Creating the directory at depth `k` of `p` fails: a file is in the way, or the oracle says so for a missing directory. */
  predicate BlockedAt(s: FsState, p: Path, fault: MkdirFault, k: nat)
    requires 1 <= k <= |p.comps|
  {
    Prefix(p, k) in s.files || (fault == MkdirFailsAt(k) && Prefix(p, k) !in s.dirs)
  }

  /** The first depth from `k` on where `create_dir_all(p)` is blocked; one past the last depth if none. */
  function FirstBlocked(s: FsState, p: Path, fault: MkdirFault, k: nat): (b: nat)
    requires 1 <= k <= |p.comps| + 1
    decreases |p.comps| + 1 - k
    ensures k <= b <= |p.comps| + 1
    ensures forall j :: k <= j < b ==> !BlockedAt(s, p, fault, j)
    ensures b <= |p.comps| ==> BlockedAt(s, p, fault, b)
  {
    if k > |p.comps| then k
    else if BlockedAt(s, p, fault, k) then k
    else FirstBlocked(s, p, fault, k + 1)
  }

  /**
   * `create_dir_all(p)`: creates the missing directories from the top down; it
   * stops at the first depth that is blocked, keeping what it already made.
   */
  function CreateDirAllStep(s: FsState, p: Path, fault: MkdirFault): (r: Step)
    ensures r.fs.files == s.files
    ensures s.dirs <= r.fs.dirs <= s.dirs + Levels(p)
    ensures r.ok <==> forall k :: 1 <= k <= |p.comps| ==> !BlockedAt(s, p, fault, k)
    ensures r.ok ==> Levels(p) <= r.fs.dirs
    ensures forall k :: 1 <= k < FirstBlocked(s, p, fault, 1) ==> Prefix(p, k) in r.fs.dirs
  {
    var stop := FirstBlocked(s, p, fault, 1);
    Step(stop > |p.comps|, s.(dirs := s.dirs + (set k | 1 <= k < stop :: Prefix(p, k))))
  }

  /** `create_dir_all(p)` makes nothing at or below the first blocked depth: those levels are directories afterwards exactly when they were before. */
  lemma CreateDirAllStopsAtBlock(s: FsState, p: Path, fault: MkdirFault)
    ensures var stop := FirstBlocked(s, p, fault, 1);
      forall k :: stop <= k <= |p.comps| ==>
        (Prefix(p, k) in CreateDirAllStep(s, p, fault).fs.dirs <==> Prefix(p, k) in s.dirs)
  {
    var stop := FirstBlocked(s, p, fault, 1);
    forall k | stop <= k <= |p.comps|
      ensures Prefix(p, k) in CreateDirAllStep(s, p, fault).fs.dirs <==> Prefix(p, k) in s.dirs
    {
      forall j | 1 <= j < stop
        ensures Prefix(p, j) != Prefix(p, k)
      {
        assert |Prefix(p, j).comps| == j;
      }
    }
  }

  /** The parent of `p` is a directory to create `p` in (the empty parent is the working directory). */
  predicate ParentIsDir(s: FsState, p: Path) {
    match Parent(p)
    case None => false
    case Some(q) => q == Empty || q in s.dirs
  }

  /**
   * `copy(from, to)`: `from` must be a file and `to` must be creatable. The
   * target is created with the source's permissions and then filled with the
   * source's bytes; a copy that fails after creating the target leaves it
   * holding only the bytes written so far.
   */
  function CopyStep(s: FsState, from: Path, to: Path, fault: CopyFault): (r: Step)
    requires from != to
    ensures r.ok <==> from in s.files && to !in s.dirs && ParentIsDir(s, to) && fault == CopyOk
    ensures fault.CopyFailsAfterCreate? && from in s.files && to !in s.dirs && ParentIsDir(s, to) ==> to in r.fs.files
    ensures !r.ok && !(fault.CopyFailsAfterCreate? && from in s.files && to !in s.dirs && ParentIsDir(s, to)) ==> r.fs == s
    ensures r.fs.dirs == s.dirs
    ensures forall q :: q != to ==> (q in r.fs.files <==> q in s.files)
    ensures forall q :: q != to && q in s.files ==> r.fs.files[q] == s.files[q]
    ensures r.ok ==> from in s.files && to in r.fs.files && r.fs.files[to] == s.files[from]
    ensures to in r.fs.files && to !in s.files ==>
      from in s.files && r.fs.files[to].readonly == s.files[from].readonly &&
      r.fs.files[to].content <= s.files[from].content
  {
    if from !in s.files || to in s.dirs || !ParentIsDir(s, to) || fault == CopyFailsBeforeCreate then
      Step(false, s)
    else
      var src := s.files[from];
      if fault == CopyOk then
        Step(true, s.(files := s.files[to := src]))
      else
        var n := if fault.written < |src.content| then fault.written else |src.content|;
        Step(false, s.(files := s.files[to := FileData(src.content[..n], src.readonly)]))
  }

  /** `metadata(p).permissions()`: fails when nothing is at `p` or the oracle says so; directories are not read-only. */
  function MetadataStep(s: FsState, p: Path, fails: bool): (perms: Option<Permissions>)
    ensures perms.Some? <==> !fails && ExistsIn(s, p)
    ensures perms.Some? && p in s.files ==> perms.value.readonly == s.files[p].readonly
  {
    if fails || !ExistsIn(s, p) then None
    else if p in s.files then Some(Permissions(s.files[p].readonly))
    else Some(Permissions(false))
  }

  /** `set_permissions(p, perms)`: sets the read-only flag of a file; a directory's permissions are not modelled. */
  function SetPermissionsStep(s: FsState, p: Path, perms: Permissions, fails: bool): (r: Step)
    ensures r.ok <==> !fails && ExistsIn(s, p)
    ensures r.fs.dirs == s.dirs && r.fs.files.Keys == s.files.Keys
    ensures forall q :: q in s.files && q != p ==> r.fs.files[q] == s.files[q]
    ensures r.ok && p in s.files ==> r.fs.files[p] == s.files[p].(readonly := perms.readonly)
    ensures !r.ok ==> r.fs == s
  {
    if fails || !ExistsIn(s, p) then Step(false, s)
    else if p in s.files then Step(true, s.(files := s.files[p := s.files[p].(readonly := perms.readonly)]))
    else Step(true, s)
  }

  lemma CreateDirAllKeepsConsistent(s: FsState, p: Path, fault: MkdirFault)
    requires Consistent(s)
    ensures Consistent(CreateDirAllStep(s, p, fault).fs)
  {
    var stop := FirstBlocked(s, p, fault, 1);
    forall k | 1 <= k < stop
      ensures Prefix(p, k) !in s.files
    {
      assert !BlockedAt(s, p, fault, k);
    }
    AddLevelsKeepsConsistent(s, p, stop);
  }

  /** Adding the first levels of `p` below `stop` as directories, where no file is, keeps the filesystem consistent. */
  lemma AddLevelsKeepsConsistent(s: FsState, p: Path, stop: nat)
    requires Consistent(s)
    requires 1 <= stop <= |p.comps| + 1
    requires forall k :: 1 <= k < stop ==> Prefix(p, k) !in s.files
    ensures Consistent(s.(dirs := s.dirs + (set k | 1 <= k < stop :: Prefix(p, k))))
  {
    var made := set k | 1 <= k < stop :: Prefix(p, k);
    var t := s.(dirs := s.dirs + made);
    forall q | q in t.dirs && |q.comps| >= 2
      ensures Prefix(q, |q.comps| - 1) in t.dirs
    {
      if q in made {
        var k :| 1 <= k < stop && q == Prefix(p, k);
        assert Prefix(q, k - 1) == Prefix(p, k - 1);
        assert Prefix(p, k - 1) in made;
      }
    }
  }

  /** A file may be put wherever its parent is a directory and no directory is. */
  lemma AddFileKeepsConsistent(s: FsState, to: Path, d: FileData)
    requires Consistent(s)
    requires to !in s.dirs && ParentIsDir(s, to)
    ensures Consistent(s.(files := s.files[to := d]))
  {
    var t := s.(files := s.files[to := d]);
    assert to != Empty;
    forall q | q in t.files && |q.comps| >= 2
      ensures Prefix(q, |q.comps| - 1) in t.dirs
    {
      if q == to {
        assert Prefix(to, |to.comps| - 1) == Parent(to).value;
      }
    }
  }

  lemma CopyKeepsConsistent(s: FsState, from: Path, to: Path, fault: CopyFault)
    requires Consistent(s)
    requires from != to
    ensures Consistent(CopyStep(s, from, to, fault).fs)
  {
    if !(from !in s.files || to in s.dirs || !ParentIsDir(s, to) || fault == CopyFailsBeforeCreate) {
      var src := s.files[from];
      if fault == CopyOk {
        AddFileKeepsConsistent(s, to, src);
      } else {
        var n := if fault.written < |src.content| then fault.written else |src.content|;
        AddFileKeepsConsistent(s, to, FileData(src.content[..n], src.readonly));
      }
    }
  }

  lemma SetPermissionsKeepsConsistent(s: FsState, p: Path, perms: Permissions, fails: bool)
    requires Consistent(s)
    ensures Consistent(SetPermissionsStep(s, p, perms, fails).fs)
  {
  }

  /** The filesystem as the running process sees it. */
  class FileSystem {
    var dirs: set<Path>
    var files: map<Path, FileData>

    function State(): FsState
      reads this
    {
      FsState(dirs, files)
    }

    ghost predicate Valid()
      reads this
    {
      Consistent(State())
    }

    constructor (init: FsState)
      requires Consistent(init)
      ensures Valid() && State() == init
    {
      dirs, files := init.dirs, init.files;
    }

    /** `Path::exists`. */
    function Exists(p: Path): (b: bool)
      reads this
      ensures b <==> ExistsIn(State(), p)
    {
      p in dirs || p in files
    }

    /** `Path::is_file`. */
    function IsFile(p: Path): (b: bool)
      reads this
      ensures b <==> IsFileIn(State(), p)
    {
      p in files
    }

    method CreateDirAll(p: Path, fault: MkdirFault) returns (ok: bool)
      requires Valid()
      modifies this
      ensures Valid()
      ensures Step(ok, State()) == CreateDirAllStep(old(State()), p, fault)
    {
      CreateDirAllKeepsConsistent(State(), p, fault);
      var r := CreateDirAllStep(State(), p, fault);
      ok, dirs, files := r.ok, r.fs.dirs, r.fs.files;
    }

    method Copy(from: Path, to: Path, fault: CopyFault) returns (ok: bool)
      requires Valid()
      requires from != to
      modifies this
      ensures Valid()
      ensures Step(ok, State()) == CopyStep(old(State()), from, to, fault)
    {
      CopyKeepsConsistent(State(), from, to, fault);
      var r := CopyStep(State(), from, to, fault);
      ok, dirs, files := r.ok, r.fs.dirs, r.fs.files;
    }

    method Metadata(p: Path, fails: bool) returns (perms: Option<Permissions>)
      ensures perms == MetadataStep(State(), p, fails)
    {
      perms := MetadataStep(State(), p, fails);
    }

    method SetPermissions(p: Path, perms: Permissions, fails: bool) returns (ok: bool)
      requires Valid()
      modifies this
      ensures Valid()
      ensures Step(ok, State()) == SetPermissionsStep(old(State()), p, perms, fails)
    {
      SetPermissionsKeepsConsistent(State(), p, perms, fails);
      var r := SetPermissionsStep(State(), p, perms, fails);
      ok, dirs, files := r.ok, r.fs.dirs, r.fs.files;
    }
  }
}
