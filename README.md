# Test-tree helpers: copy, walk and directory assertions

This project models the file-tree helpers in `test/__init__.py`:

- **copytree** copies a source tree into a destination. First it lists every entry of the source as a `(path, isdir)` pair, optionally skipping entries whose name starts with a dot. Only then does it create the destination. Finally it replays the list: it creates each directory once, remembered in `seen_dirs`, and copies each file with `shutil.copy2`.
- **walk** is `os.walk` with dot-entries pruned in place through `remove_in_place`.
- **assertDirectory** compares the entries found under a root with an expected list. It reports the paths that are missing and, in the exact form, the extra ones. It reports them as `relpaths` relative to the root.

## How the model is built

- **The file system** is a tree value (`FileTree.Node`): a file, or a directory holding named children. A path is a sequence of names, so `os.path.join` is concatenation and `[]` is the root itself. `os.listdir` order is the order of the children.
- **The hidden-name test** `i[0] == '.'` is `FileTree.Hidden`.
- **The file-system calls** copytree makes are functions from the tree before to the tree after, or `None` when the call raises (module `FsOps`). They are `os.makedirs(p, exist_ok=True)`, the write that `shutil.copy2` performs, and `shutil.copy2` itself.
- **Where the source changes state, the model does too:**
  - `remove_in_place` is a method with a reverse loop over a mutable list class.
  - `walk` prunes the two lists of a level in place, then descends into the directories that are left.
  - `copytree` is a method on a `FileSystem` class whose tree it updates call by call.
- **Specification functions.** Each method is proved equal to a function: `Kept`, `WalkLevels` and `CopyTreeSpec`. The lemmas state what those functions guarantee.
- **The copy proofs** follow the replay path by path. After any prefix of the list, each path has the kind that the last listed item naming it gave it. Otherwise it keeps the kind it had after `os.makedirs(dst)` (`CopyTreeFacts.KindAfter`).

## Model

| member | source | states |
|---|---|---|
| Listing.MutableList.Delete | test/__init__.py:104 | `del x[i]` removes exactly the element at `i`; the others keep their order |
| Listing.RemoveInPlace | test/__init__.py:101-104 | after the reverse loop the list is `Kept(old list, func)`; the loop invariant is "prefix not yet visited + filtered suffix" |
| Listing.KeptIsOrderedSelection | test/__init__.py:101-104 | the result is the original list read at strictly increasing positions, namely exactly the positions where `func` is false |
| Listing.KeptMembers | test/__init__.py:101-104 | a value remains exactly when it was in the list and `func` rejects it |
| Listing.KeptIdempotent | test/__init__.py:101-104 | removing a second time removes nothing more |
| Listing.KeptAppend | test/__init__.py:101-104 | removal from a concatenation is removal from each part |
| Walk.PruneLevel | test/__init__.py:109-111 | without `include_hidden`, both lists lose exactly their dot-names, in place and in order; with it, both are unchanged |
| Walk.Walk | test/__init__.py:107-112 | the levels produced equal `WalkLevels`: each directory's pruned subdirectory and file names, top-down, descending only into the kept subdirectories |
| Walk.DescendInto | test/__init__.py:108-112 | walking the kept subdirectories one after the other yields `Descend` over them |
| WalkFacts.WalkExact | test/__init__.py:107-112 | a path is joined from some level exactly when it lies strictly below the top, exists, and `include_hidden` holds or no component below the top is hidden, so a hidden directory's subtree is never entered |
| FileTree.LookupAppend | test/__init__.py:47 | following `join(p, q)` is following `p`, then `q` from where `p` led |
| FileTree.Find | test/__init__.py:42 | the entry found has the requested name and no earlier entry has it |
| DirectoryCheck.CommonPrefixLength | test/__init__.py:116 | the length of the longest common prefix of two paths: both agree up to it and differ right after it |
| DirectoryCheck.Ups | test/__init__.py:116 | `k` parent steps `..` |
| DirectoryCheck.RelPathOfJoin | test/__init__.py:116 | `relpath(join(start, r), start) == r` |
| DirectoryCheck.JoinOfRelPath | test/__init__.py:116 | `join(start, relpath(p, start)) == p` for every `p` under `start` |
| DirectoryCheck.RelPathsOneToOne | test/__init__.py:115-116 | for paths under `base`, `r` is reported exactly when `base/r` is in the set, and no two paths collapse onto one relative path |
| DirectoryCheck.AssertDirectory | test/__init__.py:123-144 | the defaults are `include_hidden=False` and `allow_extra=False`; with `allow_extra` extras are never reported and the check passes iff expected ⊆ actual; without it missing-only is never reported and the check passes iff actual = expected |
| DirectoryCheck.ActualSetExact | test/__init__.py:125-127 | the actual set holds exactly the paths below the root that exist and are not pruned by the hidden rule; a root that does not exist gives the empty set |
| DirectoryCheck.ExactPolicy | test/__init__.py:137-144 | the exact check passes iff the expected list and the entries shown under the root contain the same paths |
| DirectoryCheck.SupersetPolicy | test/__init__.py:131-136 | the `allow_extra` check passes iff every expected path is shown under the root |
| DirectoryCheck.FailureReport | test/__init__.py:129-143 | `missing` is the expected paths not shown; `extra` is the shown paths not expected; a failure reports at least one path |
| Manifest.AccumulateExact | test/__init__.py:41-51 | `accumulate` yields `(p, isdir)` exactly when `p` names an entry of that kind strictly below the listed directory and no component of it is hidden when `ignore_hidden` holds |
| Manifest.EntryExact | test/__init__.py:43-51 | the same for what one listed name contributes: the entry, then everything below it when it is a directory |
| ManifestPruning.AccumulateSkipsHidden | test/__init__.py:43-44 | with `ignore_hidden`, no yielded path has a hidden component, so nothing below a hidden directory is listed either |
| ManifestOrder.AccumulateParentsFirst | test/__init__.py:47-49 | every yielded path lies below the start, and an entry deeper than one level comes after its parent's directory item |
| ManifestOrder.AccumulateAncestorsFirst | test/__init__.py:47-49 | no entry is yielded before any of its ancestors |
| FsOps.MakeDirsEffect | test/__init__.py:66 | a successful `os.makedirs(p, exist_ok=True)` makes every prefix of `p` a directory and leaves the kind or absence of every other path as it was |
| FsOps.MakeDirsSucceeds | test/__init__.py:66 | `os.makedirs` succeeds exactly when no prefix of `p`, `p` included, is a file |
| CopyTreeResults.MakeDirsExisting | test/__init__.py:66 | `os.makedirs(p, exist_ok=True)` on an existing directory succeeds and changes the kind of no path |
| FsOps.WriteFileEffect | test/__init__.py:68 | the write done by `shutil.copy2` makes the target a file and changes nothing else |
| FsOps.WriteFileSucceeds | test/__init__.py:68 | the write succeeds exactly when the target's parent is a directory and the target is not |
| FsOps.MakeDirsWellFormed | test/__init__.py:66 | creating directories along a path of valid names keeps every directory's names distinct and non-empty |
| FsOps.WriteFileWellFormed | test/__init__.py:68 | the same for writing a file |
| CopyTree.FileSystem.MakeDirs | test/__init__.py:58 | the tree becomes the one `os.makedirs` produces; when it raises, nothing changes |
| CopyTree.FileSystem.Copy2 | test/__init__.py:68 | the tree becomes the one `shutil.copy2` produces; when it raises, nothing changes |
| CopyTree.FileSystem.ReplayItem | test/__init__.py:59-68 | one pass of the loop is `Step`: a directory not yet in `seen_dirs` is added to it and created, a directory already seen changes nothing, a file is copied; a raising call leaves the tree as it was; `os.makedirs` is called exactly for a directory not yet in `seen_dirs` |
| CopyTree.FileSystem.ReplayAll | test/__init__.py:57-68 | the loop over the list, from an empty `seen_dirs`, ends in the state `Replay` gives, stopping at the first call that raises; the paths handed to `os.makedirs` in it are pairwise distinct and are exactly `seen_dirs` |
| CopyTree.FileSystem.CopyTree | test/__init__.py:40-68 | `ignore_hidden` defaults to true; the outcome, the final tree and `seen_dirs` equal `CopyTreeSpec`; the paths handed to `os.makedirs` in the loop are pairwise distinct and are exactly `seen_dirs` |
| CopyTree.ToCopyNonEmpty | test/__init__.py:55 | every listed path is non-empty |
| CopyTree.ReplayStops | test/__init__.py:59-68 | once a call has raised, the rest of the list is not replayed |
| CopyTreeFacts.ReplayPrefix | test/__init__.py:59-68 | after the first `k` items nothing has raised, `seen_dirs` is their directory paths, and every path has the kind the last of them naming it gave it, or its kind before the loop |
| CopyTreeFacts.StepKeeps | test/__init__.py:63-68 | one iteration keeps that invariant, covering the case where the directory was already seen, a new directory, and a file |
| CopyTreeFacts.ManifestExact | test/__init__.py:41-55 | the list holds `(q, isdir)` exactly when `q` is non-empty, `src/q` has that kind, and `q` has no hidden component when `ignore_hidden` holds |
| CopyTreeFacts.ManifestConsistent | test/__init__.py:55 | no path is listed with both kinds |
| CopyTreeFacts.CopyTreeOutcome | test/__init__.py:40-68 | for a directory `src`, a `dst` that crosses no file and differs from `src`, and listed destinations that are free or of the same kind, the copy succeeds. `dst` is a directory. `seen_dirs` holds the listed directories. Every listed entry exists under `dst` with its kind. No existing path changes kind. Every new path is an ancestor of `dst` or a listed entry under it |
| CopyTreeFacts.ReplaySeen | test/__init__.py:63-66 | `seen_dirs` only grows, and once every item is replayed it is the set of listed directory paths |
| CopyTreeFacts.CopyTreeSeen | test/__init__.py:56 | whenever `copytree` returns normally, `seen_dirs` is the set of directory paths of the list |
| CopyTreeResults.FreshCopyMirrors | test/__init__.py:40-68 | copying into a destination that does not exist succeeds, and the destination then shows exactly the entries the source showed, under the same hidden rule |
| CopyTreeResults.FreshCopyExcludesHidden | test/__init__.py:40-44 | after `copytree(src, dst)` with its default arguments, no path below a fresh destination has a hidden component |
| CopyTreeResults.FreshCopyPassesSameChecks | test/__init__.py:40-68 | after a fresh copy, `assertDirectory` on the destination passes exactly when it passes on the source, for any expected list, in exact and superset form |
| CopyTreeResults.CopyIntoSource | test/__init__.py:53-58 | copying a directory into a new entry of itself succeeds, and the new entry shows exactly what the source showed before the copy |
| CopyTreeResults.CopyTreeWellFormed | test/__init__.py:58-68 | the copy keeps names distinct and non-empty |
| CopyTreeResults.CopyTreeIdempotent | test/__init__.py:58-68 | a second copy between the same unrelated source and destination succeeds and changes the kind of no path |
| CopyTreeResults.CopyTreeErrors | test/__init__.py:42 | a source that is not a directory, or a `dst` across a file, raises before anything is written |
| CopyTreeResults.SelfCopyFails | test/__init__.py:68 | copying a directory onto itself raises as soon as a file is listed, because `shutil.copy2` refuses to copy a file onto itself |
| Scenarios.ExactMatchPasses | test/__init__.py:137-144 | `{a, a/b, c}` expected of a root holding `a`, `a/b`, `c` passes |
| Scenarios.ExactMatchReportsExtra | test/__init__.py:137-144 | `{a, c}` expected of the same root fails with missing `{}` and extra `{a/b}` |
| Scenarios.ExactMatchReportsMissing | test/__init__.py:137-144 | `{a, a/b, c, d}` expected of the same root fails with missing `{d}` and extra `{}` |
| Scenarios.AllowExtraExamples | test/__init__.py:131-144 | with `a`, `b` on disk and `{a}` expected, the superset form passes and the exact form reports extra `{b}` |
| Scenarios.HiddenDefaultExamples | test/__init__.py:123-144 | with only `.x` on disk and nothing expected, the check passes with the default `include_hidden=False` and reports extra `{.x}` with `include_hidden=True` |

## Left out

- Paths are sequences of names. `os.path.normpath` is not modelled. Nor are `.` and `..` components in the expected list, or absolute expected paths: the expected paths are taken as already-normal relative paths.
- `os.path.relpath` is modelled on component paths (`DirectoryCheck.RelPath`). `relpaths` yields a set, because the model does not fix the order of `relpaths`' list or the text of the failure message. The verdict carries the missing and extra sets.
- `os.listdir` and `os.walk` return entries in an order the operating system chooses. The model fixes it as the order of a directory's children.
- `walk` is a generator. The model returns the whole list of levels; laziness is not modelled.
- Symbolic links are not modelled. Neither are permissions, or the race with concurrent changes to the tree.
- File contents, modification times and permission bits are not modelled. `shutil.copy2` is modelled as "the target becomes a file, overwriting an existing file". Its `copystat` step is left out, so `CopyTreeResults.CopyTreeIdempotent` speaks of kinds, not contents.
- Which exception a call raises is not modelled. A raising call is `ok == false`, and the tree is left as the earlier calls made it, with no rollback.
- The hidden test `i[0] == '.'` would raise on an empty name. Names in the model are never empty, `.` or `..` and hold no `/` (`FileTree.ValidName`, required by `FileTree.WellFormed`), as for names a directory listing returns, so `FileTree.Hidden` also requires a non-empty name.
- `copytree` paths are taken from the root of the tree. The working directory (`stage_dir`, `pushd`) is not part of this model.
- `CopyTreeFacts.CopyTreeOutcome`: its premises exclude listed destinations that already exist with the other kind. In that case `os.makedirs` raises, or `shutil.copy2` writes into the directory it finds. `CopyTreeSpec` models both; the theorem does not characterise them.
- `CopyTreeResults.CopyTreeIdempotent`: it holds for a source and destination neither of which contains the other. When the destination lies inside the source, the second run lists the first copy as well and copies it again.
- `stage_dir`, `pushd`, `check_output`, `check_call_silent`, `git_config`, `git_init`, `commit_files`, `match_redir` and the clearing of the stage directory are test scaffolding (processes, git, the working directory), and are not part of this model.
