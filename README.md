# liboverlay: the redirection decision and its configuration

liboverlay is a preloaded shared library that lays a writable **upper**
directory over a read-mostly **lower** directory. Every intercepted access asks
`redirect_path(path, write)` whether to use a path in the upper tree instead.
When the access may write and the upper counterpart is missing, the call first
copies the lower file up: it makes the parent directories, copies the bytes and
clears the read-only bit. The configuration (both directories and a debug flag)
is read from the environment once at load time and kept in a process-wide slot.

This project models that decision and that configuration, and proves what they
promise:

- `Paths`: paths as std::path sees them on Unix, that is a root flag and a
  sequence of components. It models parsing a string (`PathBuf::from` followed
  by `components`), `is_relative`, `strip_prefix`, `join` and `parent`, and
  proves parsing against its inverse, display.
- `Config`: `Config::from_env` as a function of an environment map and
  `if_debug` as a gate. `Process` is a class holding the `CONFIG` slot, with
  `init_config_impl` (its one store) and `get_config`.
- `Fs`: an abstract filesystem made of a set of directories and a map from file
  paths to bytes plus a read-only flag.
  - The std::fs calls the decision makes are pure transitions: `exists`,
    `is_file`, `create_dir_all`, `copy`, `metadata` and `set_permissions`.
    A `FileSystem` class performs them in place.
  - Whether a fallible call fails is given by a fault oracle (`Faults`).
  - Every transition keeps the filesystem `Consistent`.
- `Redir`: `Redirect` is the whole decision as a function: the target it
  returns and the filesystem afterwards. `RedirectPath` performs the same
  decision step by step on a `FileSystem`, following the branches of
  `redirect_path`, and is proved equal to `Redirect`. The lemmas cover:
  - pass-through cases;
  - shadowing by the upper tree;
  - the contents and permissions of a copy;
  - partial effects of failed steps;
  - the frame of what may change;
  - copying at most once.
- `Scenarios`: concrete runs with `/data/lower` and `/data/upper`, matching the
  behaviour the integration tests check.

The model follows the code in three places a reader might not expect:

- The directories are taken exactly as the environment gives them. Nothing
  requires them to be absolute.
- A failure of `create_dir_all` ends the decision with no target. Directories
  it created before failing stay in place.
- A write whose lower parent does not exist is still redirected, and nothing is
  created.

## Model

| member | source | states |
|---|---|---|
| Paths.ParsePath | src/config.rs:13 | A string denotes an absolute path exactly when it starts with the separator, that is exactly when `is_relative` (`IsRelative`) does not hold of it. Its components are never empty or "." except a leading "." of a relative path. |
| Paths.RenderRelative | src/redir.rs:6 | `is_relative` (`IsRelative`) holds of a path's display exactly when the path has no root, so the relativity test gives the same answer on a parsed path and on its display. |
| Paths.TrailingSeparatorIgnored | src/config.rs:13 | A trailing separator does not change the path a non-empty string names. |
| Paths.DoubledSeparatorIgnored | src/config.rs:13 | A doubled separator anywhere names the same path as a single one. |
| Paths.DotPieceIgnored | src/config.rs:13 | A "." piece between separators names the same path as the separator alone. |
| Paths.TrailingDotIgnored | src/config.rs:13 | A trailing "/." after a non-empty string names the same path as the string alone, so "/data/lower/." is "/data/lower". |
| Paths.RenderParses | src/config.rs:13 | Parsing the displayed form of any well-formed path gives that path back. |
| Paths.StripPrefix | src/redir.rs:14 | For a non-empty base, stripping succeeds iff the root flags agree and the base's components are a prefix of the path's. Then the base's components followed by the rest are the path's. An empty base strips nothing and yields the path itself. |
| Paths.Join | src/redir.rs:16 | An absolute second path replaces the base. Joining onto the empty path gives the second path unchanged. Otherwise the result keeps the base's root and is the base's components followed by the relative path's components, except that a leading "." of the relative path is dropped. |
| Paths.Parent | src/redir.rs:23 | There is no parent exactly for a path without components. Otherwise the parent followed by the last component is the path. |
| Paths.StripJoin | src/redir.rs:14-16 | Stripping the base off a path joined onto it gives back the joined relative path. |
| Paths.JoinStrip | src/redir.rs:14-16 | Joining the stripped rest back onto the base rebuilds the path. |
| Paths.JoinParent | src/redir.rs:23-27 | A non-empty path is its parent joined with its last component. |
| Config.Var | src/config.rs:12 | An environment variable has a value iff it is set and is Unicode text, and the value is that text. |
| Config.FromEnv | src/config.rs:11-35 | A configuration exists iff both directory variables are set and readable. Its directories are those values exactly. Its debug flag is on iff the debug variable is exactly "1". |
| Config.DebugVarDoesNotGate | src/config.rs:28 | Changing the debug variable never changes whether a configuration exists, nor its directories. |
| Config.IfDebugFromEnv | src/config.rs:62-66 | `if_debug` (`IfDebug`): on the configuration read from an environment, the callback runs iff both directory variables are readable and the debug variable is exactly "1". Otherwise nothing happens. |
| Config.Process.constructor | src/config.rs:38 | Before initialisation the stored configuration is absent, and the slot's invariant holds. |
| Config.Process.InitConfig | src/config.rs:43-46 | Initialisation runs once and stores the configuration read from the environment; from then on the invariant ties the slot to that environment's `from_env` result. |
| Config.GetConfigReturnsStored | src/config.rs:57-59 | `get_config` returns nothing before initialisation and, after it, the `from_env` result for the load-time environment. |
| Fs.FirstBlocked | src/redir.rs:28 | Finds the first depth at which `create_dir_all` is blocked; no depth before it is blocked. |
| Fs.CreateDirAllStep | src/redir.rs:28-36 | Files are untouched and only directories on the way to the target are added. The call succeeds iff no depth is blocked by a file or by the oracle, and then every level exists as a directory. Whether or not it fails, every level above the first blocked one exists afterwards. |
| Fs.CreateDirAllStopsAtBlock | src/redir.rs:28 | `create_dir_all` makes nothing at or below the first blocked level: each of those levels is a directory afterwards exactly when it was one before. |
| Fs.CopyStep | src/redir.rs:45-54 | The copy succeeds iff the source is a file, the target is not a directory, the target's parent is a directory and the oracle lets it through. Directories and every other entry are untouched. A successful copy gives the target the source's bytes and flag. A copy that fails after creating the target leaves it in place, holding a prefix of the source's bytes with the source's flag. Any other failure, including one before the target is created, changes nothing. |
| Fs.MetadataStep | src/redir.rs:55 | Permissions are available iff something is at the path and the oracle lets the call succeed. For a file they carry its read-only flag. |
| Fs.SetPermissionsStep | src/redir.rs:56-57 | The call succeeds iff something is at the path and the oracle allows it. It then changes only that file's read-only flag. A failure changes nothing. |
| Fs.AddLevelsKeepsConsistent | src/redir.rs:28 | Adding the upper levels of a path as directories, where no file stands, keeps the filesystem consistent. |
| Fs.CreateDirAllKeepsConsistent | src/redir.rs:28 | `create_dir_all` keeps a consistent filesystem consistent, whether it succeeds or not. |
| Fs.AddFileKeepsConsistent | src/redir.rs:45 | A file created where its parent is a directory keeps the filesystem consistent. |
| Fs.CopyKeepsConsistent | src/redir.rs:45 | `copy` keeps a consistent filesystem consistent, including a partial copy. |
| Fs.SetPermissionsKeepsConsistent | src/redir.rs:57 | `set_permissions` keeps a consistent filesystem consistent. |
| Fs.FileSystem.Exists | src/redir.rs:19 | `exists` holds iff the path is a directory or a file. |
| Fs.FileSystem.IsFile | src/redir.rs:39 | `is_file` holds iff the path is a file. |
| Fs.FileSystem.CreateDirAll | src/redir.rs:28 | Performs `create_dir_all` in place as its transition states, keeping the filesystem consistent. |
| Fs.FileSystem.Copy | src/redir.rs:45 | Performs `copy` in place as its transition states, keeping the filesystem consistent. |
| Fs.FileSystem.Metadata | src/redir.rs:55 | Reads the permissions as the transition states, changing nothing. |
| Fs.FileSystem.SetPermissions | src/redir.rs:57 | Performs `set_permissions` in place as its transition states, keeping the filesystem consistent. |
| Redir.Candidate | src/redir.rs:6-16 | An upper counterpart exists iff the path is absolute, a configuration exists and the lower directory is a component-wise prefix of the path. |
| Redir.Redirect | src/redir.rs:5-75 | A target exists only where a counterpart does, and only a write whose counterpart is absent can change the filesystem. |
| Redir.RedirectPath | src/redir.rs:5-75 | The step-by-step decision returns the target and leaves the filesystem that `Redirect` prescribes. It keeps the filesystem consistent and never changes the stored configuration, which keeps its invariant. |
| Redir.CopyUpOn | src/redir.rs:22-60 | The write branch carried out on the filesystem in place: the target it returns and the filesystem it leaves are those `CopyUp` prescribes, and the filesystem stays consistent. |
| Redir.RelativePathPassesThrough | src/redir.rs:6-9 | A relative path is never redirected and nothing is touched, whatever the configuration. |
| Redir.OutsideLowerPassesThrough | src/redir.rs:12-14 | Without a configuration, or for a path outside the lower directory, nothing is redirected and nothing is touched. |
| Redir.CandidateMirrorsLower | src/redir.rs:14-16 | The counterpart lies below the upper directory exactly as the path lies below the lower one. With an empty lower directory the counterpart is the path itself. |
| Redir.UpperShadowsLower | src/redir.rs:19-20 | When the counterpart exists it is the target, for reads and writes alike, and nothing is touched. |
| Redir.ReadOfLowerPassesThrough | src/redir.rs:61-63 | A read whose counterpart is absent is not redirected and touches nothing. |
| Redir.MissingLowerParentCreatesNothing | src/redir.rs:22-60 | A write whose lower parent does not exist is redirected to the absent counterpart, and nothing is created. |
| Redir.MakeWritableEffect | src/redir.rs:55-57 | Clearing the read-only bit succeeds iff something is at the candidate and neither `metadata` nor `set_permissions` fails. It changes only the copy's flag, and only on success; a failure leaves no target and no change. |
| Redir.CopyFileEffect | src/redir.rs:45-57 | On success the copy holds the lower file's bytes and is writable. Where the candidate's parent is a directory, the stage fails exactly when `copy`, `metadata` or `set_permissions` fails. A copy that fails after creating the target leaves it in place; one that fails before creating it leaves no target and changes nothing. A completed copy whose permissions step fails stays a full copy with the lower file's flag. Any copy left by a failure holds a prefix of the lower bytes with the lower flag. Other files are untouched. |
| Redir.CopyUpEffect | src/redir.rs:23-58 | Copying up changes nothing or changes only within the counterpart's frame. Its target is only ever the counterpart. When there is no lower file to copy, no file is added or changed. Once the lower parent exists, the directories afterwards are exactly those `create_dir_all` left, whatever fails later. The contents of the copy are stated for both success and failure. |
| Redir.TargetIsCandidate | src/redir.rs:65-74 | Any target returned is the counterpart. |
| Redir.CopiedUpIsWritableCopy | src/redir.rs:39-58 | After a redirected write that copied a lower file up, the counterpart holds exactly the lower file's bytes and is not read-only. |
| Redir.FailedCopyUpLeavesPartialCopy | src/redir.rs:45-57 | A write that is not redirected may leave a counterpart only as a prefix of the lower file's bytes with the lower file's read-only flag. |
| Redir.RedirectFrame | src/redir.rs:22-60 | Only a write with a counterpart changes the filesystem. It only adds directories on the way to the counterpart's parent and adds the counterpart itself. Existing files keep their bytes and flags. |
| Redir.CopyUpKeepsConsistent | src/redir.rs:22-60 | The copy-up branch keeps a consistent filesystem consistent at every outcome. |
| Redir.RedirectKeepsConsistent | src/redir.rs:5-75 | Every decision keeps a consistent filesystem consistent. |
| Redir.CreateDirAllWithoutFaultSucceeds | src/redir.rs:28-36 | `create_dir_all` succeeds when no call fails and no file stands on any level of the path. |
| Redir.CopyFileWithoutFaultsSucceeds | src/redir.rs:45-57 | Copying a file into an existing directory where nothing is in the way, and making the copy writable, succeeds when no call fails. |
| Redir.MadeParentIsDir | src/redir.rs:27-36 | After `create_dir_all` of the candidate's parent succeeds, that parent is a directory to create the candidate in, and the candidate is not a directory. |
| Redir.CopyUpWithoutFaultsSucceeds | src/redir.rs:22-60 | If no call fails, the lower file and its parent exist, and no file blocks the upper parent, then a write is redirected to the counterpart. |
| Redir.CopyUpFailsExactlyWhenAStepFails | src/redir.rs:25-60 | Once the lower parent exists, the write ends with no target exactly when `create_dir_all` is blocked at some level, or when there is a lower file and `copy`, `metadata` or `set_permissions` fails. For a new file only `create_dir_all` can fail. |
| Redir.NoParentFails | src/redir.rs:23-27 | A write whose path has no parent, or whose lower parent exists while the candidate has no parent, ends with no target and changes nothing. |
| Redir.CopyLeftReadOnlyWhenPermissionsFail | src/redir.rs:45-57 | When the copy completes but `metadata` or `set_permissions` fails, the write is not redirected and the candidate holds the whole lower file, still with its read-only flag. |
| Redir.CreatedDirectoriesRemain | src/redir.rs:28-36 | The directories `create_dir_all` made before it was blocked, or all of them when it was not, still exist after the decision, whatever failed. |
| Redir.CreateDirAllAgain | src/redir.rs:28 | `create_dir_all` repeated after it succeeded succeeds and changes nothing. |
| Redir.RepeatedRedirectChangesNothing | src/redir.rs:19-20 | Repeating a redirected call with the same intent, under any faults, returns the same target and changes nothing, so the copy happens at most once. |
| Scenarios.TrailingSeparatorLowerDir | src/config.rs:12-13 | "/data/lower/" and "/data/lower" as the lower directory name the same directory. |
| Scenarios.SiblingOfLower | src/redir.rs:12-14 | Under lower directory /data/lower, a path parsing to /data/lowerX/f is not redirected and touches nothing. |
| Scenarios.SiblingIsNotUnderLower | src/redir.rs:12-14 | The string "/data/lowerX/f" is not under "/data/lower" although it starts with the same characters. |
| Scenarios.XCandidate | src/redir.rs:14-16 | The counterpart of /data/lower/x.txt is /data/upper/x.txt. |
| Scenarios.WriteCopiesUp | src/redir.rs:22-60 | Opening /data/lower/x.txt, which holds "hi" read-only, for writing redirects to /data/upper/x.txt and leaves a writable "hi" there. |
| Scenarios.WriteThenRead | test/test.py:56-76 | After that write, a read of the same path also goes to the upper copy and changes nothing. |
| Scenarios.WriteThenReadScenario | test/test.py:56-76 | The same, for the literal directory and path strings. |
| Scenarios.NewFileInLower | test/test.py:79-87 | Creating new_file.txt directly in the lower directory is redirected to /data/upper/new_file.txt under any faults, and nothing changes. |
| Scenarios.NewFileInLowerScenario | test/test.py:79-87 | The same, for the literal strings. |
| Scenarios.NewFileInMissingDir | test/test.py:89-96 | A write to new_dir/new_file.txt, where new_dir exists in neither tree, is redirected and creates nothing. The upper parent stays missing, so the open that follows cannot create the file. |
| Scenarios.NewFileInMissingDirScenario | test/test.py:89-96 | The same, for the literal strings. |

## Left out

- src/lib.rs is not part of this model. It contains the lazy `dlsym` call-through, the `open`/`open64` wrappers and an older configuration type; these are foreign calls and lock-free concurrency.
- test/test.py is not modelled as a program. Its runs are only mirrored by the scenarios.
- Diagnostics: everything `eprintln!` prints, including the line `init_config_impl` logs under debug, is not modelled. `IfDebug` models the gate, with the callback as a state transformation.
- Thread safety: the copy up is not atomic and concurrent callers are not modelled. Each decision is one sequential step.
- The reliance of `copy` on opening the source before the target exists concerns interception, which is not modelled.
- The `.ctors` load-time mechanism is not modelled. `Process.InitConfig` stands for it and may be called once, before any decision.
- Paths: symbolic links, `..` and the working directory are not resolved. A relative upper directory stays a relative path. `Render` shows components joined by one separator, not the exact bytes of a `PathBuf`.
- Paths: a trailing separator, or a trailing "." after a file name, is dropped along with the empty and "." pieces. So `exists` and `is_file` of "f/" are modelled as those of "f", whereas the system fails to stat "f/" when f is a file. A write to "x.txt/" under the lower directory is therefore modelled as copying x.txt up, where the code copies nothing and still redirects.
- Paths are Unicode text as the configuration delivers them. Non-Unicode environment values are modelled only as unreadable.
- Filesystem: permissions are only the read-only flag of a file; directory permissions, ownership and timestamps are not modelled. Why a real call fails (I/O errors, permissions, quotas) is replaced by the fault oracle.
- Fs.CopyStep: requires distinct source and target. Copying a file onto itself is not modelled because the decision only copies to an absent counterpart.
- Fs.FileSystem.Metadata: returns the same permissions for every directory (not read-only), since directory permissions are not modelled.
