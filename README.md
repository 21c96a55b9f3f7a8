# One-way folder synchronization, modelled in Dafny

The program keeps a replica directory tree as a one-way mirror of a source tree. One pass of
`synchronize` works one directory level at a time, comparing entry names only:

- it lists the source names, recreates the replica directory if it has vanished, and lists the
  replica names;
- it computes the names to copy (source minus replica) and the names to delete (replica minus
  source);
- for every source entry, a directory is created in the replica when missing and is then always
  recursed into, and a regular file is copied only when its name was missing from the replica
  listing;
- every replica-only file or link is removed, and every replica-only directory is removed with
  its subtree.

The model has four modules.

- `FileTree` (`file_tree.dfy`): the filesystem as a value. An `Entry` is a `File` with its
  bytes, a `Dir` mapping names to entries, an opaque `Link`, or a `Special` entry (FIFO, socket,
  device). Paths are sequences of names. `Get` and `Put` read and replace the entry at a path,
  and lemmas relate them.
- `Comparator` (`comparator.dfy`): the name-level diff of one level.
- `Mirror` (`mirror.dfy`): what one pass makes of a replica directory, as pure functions.
  `ChildAfterPass` gives the outcome for one name. `Pass` gives the new listing. `Fails` says
  when the pass raises. `SyncResult` combines them. The lemmas prove convergence, deletion
  completeness, stale-file survival, the type-mismatch corners, self-healing and idempotence.
- `SyncEngine` (`sync_engine.dfy`): the pass as the program runs it.
  - The class `Replica` holds the replica tree (`None` when the replica root does not exist)
    and the log of events.
  - `os.listdir`, `os.makedirs`, `shutil.copy2`, `os.remove` and `shutil.rmtree` are methods
    that update the tree.
  - `Synchronize` is the recursive method with its two loops. Its contract ties the new tree to
    `Mirror.SyncResult`, so every property proved about `SyncResult` holds of the method.

The source tree is a read-only parameter. The set iteration order of Python is modelled in the
loops by an arbitrary choice (`:|`). The contracts therefore hold for every order.

Where the code falls short of its docstring's aim of an exact, one-way copy of the source
(synchronize_folders.py:4-7), the model follows the code:

- Only files, links and directories are deleted. A replica-only entry of another kind (a FIFO, a
  socket) survives every pass, because `os.path.isfile`, `os.path.islink` and `os.path.isdir`
  are all false for it (synchronize_folders.py:99, 106). `Mirror.ReplicaOnlyEntries` states it.
- No exception is caught, neither in the pass nor around it (synchronize_folders.py:39-44,
  124-136). The first failed listing ends the whole pass, the entries not yet visited stay as
  they were, and the exception ends the program, so periodic synchronization stops.
  `SyncEngine.TwoPasses` runs a second pass only after a first one that completed.
- Files present on both sides are never compared. A stale replica file stays as it is, and file
  contents match only for files that were copied (`Mirror.FileCopiedOnlyWhenAbsent`).
- Only names are compared: a pass computes the names to copy and the names to delete, and
  nothing else (`Comparator.Diff`).

## Model

| member | source | states |
|---|---|---|
| `Comparator.Diff` | synchronize_folders.py:62-63 | the names to copy are exactly the source names missing from the replica, and the names to delete are exactly the replica names missing from the source; the two are disjoint, neither contains a name present on both sides, and together with the common names they cover both listings |
| `Comparator.DiffEmptyIffSameNames` | synchronize_folders.py:62-63 | both sets are empty exactly when the two listings hold the same names |
| `Mirror.ReplicaListing` | synchronize_folders.py:53-59 | definition: the listing a pass works from, the replica directory's own or empty when it is missing; `Mirror.MissingReplicaIsEmpty` pins down the missing case |
| `Mirror.ChildAfterPass` | synchronize_folders.py:74-111 | definition: the entry under one name after a pass; pinned down by `Mirror.PassAt`, `Mirror.SubdirectoryOutcome`, `Mirror.FileCopiedOnlyWhenAbsent` and `Mirror.ReplicaOnlyEntries` |
| `Mirror.Pass` | synchronize_folders.py:74-111 | definition: the replica listing after a pass that does not fail, one entry per name as `ChildAfterPass` gives it; pinned down by `Mirror.CreationComplete`, `Mirror.DeletionComplete` and `Mirror.Idempotent` |
| `Mirror.ChildFails` | synchronize_folders.py:77-85 | definition: a source subdirectory fails when the replica holds a non-directory of that name or the nested pass fails; pinned down by `Mirror.SubdirectoryOutcome` and `Mirror.DirOverNonDirFails` |
| `Mirror.Fails` | synchronize_folders.py:74-85 | definition: a level fails when some source subdirectory fails; `Mirror.EmptyReplicaNeverFails` shows it never does over an empty replica |
| `Mirror.SyncResult` | synchronize_folders.py:47-111 | definition: the outcome of a pass, a source listing error, a replica listing error, or the new replica directory; `SyncEngine.Replica.Synchronize` is proved equal to it and the lemmas above state its properties |
| `Mirror.EmptyReplicaNeverFails` | synchronize_folders.py:77-85 | no source subdirectory fails against an empty replica directory |
| `Mirror.PassAt` | synchronize_folders.py:74-111 | the new listing holds under each name exactly the per-name outcome |
| `SyncEngine.Replica.Exists` | synchronize_folders.py:53 | the root exists when there is one; another entry exists exactly when its parent is a directory whose listing holds its name |
| `Mirror.SubdirectoryOutcome` | synchronize_folders.py:77-85 | the nested pass over a source subdirectory fails exactly when that name fails at the enclosing level, its failure is a replica listing failure, and its result is what stands under the name afterwards |
| `Mirror.RecursesIntoEverySourceDir` | synchronize_folders.py:77-85 | every source subdirectory, existing or just created, is synchronized recursively, and the replica entry of that name is the nested pass's result |
| `Mirror.MissingReplicaIsEmpty` | synchronize_folders.py:52-59 | a missing replica directory is created and the pass proceeds exactly as over an empty one; it then cannot fail |
| `Mirror.DirOverNonDirFails` | synchronize_folders.py:77-85 | a source directory over a replica file, link or special entry of the same name makes the pass fail with a replica listing error |
| `Mirror.FileCopiedOnlyWhenAbsent` | synchronize_folders.py:86-93 | a source file is copied only when its name is missing from the replica; an existing replica entry of that name, a stale file or a directory alike, is left untouched |
| `Mirror.ReplicaOnlyEntries` | synchronize_folders.py:96-111 | a replica-only name remains after a pass exactly when its entry is neither a file, a link nor a directory, and then it is unchanged |
| `Mirror.CreationComplete` | synchronize_folders.py:74-93 | at every level, every source directory and regular file has an entry of the same name in the replica after a successful pass |
| `Mirror.DeletionComplete` | synchronize_folders.py:96-111 | at every level, no replica name absent from the source remains after a successful pass, except special entries |
| `Mirror.MissingReplicaRebuilt` | synchronize_folders.py:52-93 | self-healing: a pass over a missing replica rebuilds exactly the source tree of plain files and directories |
| `Mirror.QuietPassChangesNothing` | synchronize_folders.py:62-111 | a pass with nothing to create, copy or delete at any level succeeds and leaves the replica as it is |
| `Mirror.SecondPassIsQuiet` | synchronize_folders.py:62-111 | after a successful pass, a second pass has nothing to create, copy or delete at any level |
| `Mirror.Idempotent` | synchronize_folders.py:47-111 | a second pass right after a successful one succeeds and returns the replica unchanged |
| `Mirror.SecondPassDiffsEmpty` | synchronize_folders.py:62-63 | for a source of plain files and directories and a replica without special entries, the second pass computes empty copy and delete sets at every level |
| `Mirror.WorkedExample` | synchronize_folders.py:47-111 | source {a.txt, sub/b.txt} over replica {c.txt, sub/} ends with the replica equal to the source |
| `FileTree.PutFrame` | synchronize_folders.py:80-107 | replacing the entry at one path leaves every entry neither inside it nor on the way down to it unchanged, which is what "nothing else changes" means for each create, copy and delete |
| `SyncEngine.Replica.ListDir` | synchronize_folders.py:59 | listing succeeds exactly on a directory and returns exactly the names present inside it |
| `SyncEngine.Replica.MakeDirs` | synchronize_folders.py:79-80 | a missing entry becomes an empty directory and nothing else changes |
| `SyncEngine.Replica.Copy2` | synchronize_folders.py:89 | a missing entry becomes the source file and nothing else changes |
| `SyncEngine.Replica.Remove` | synchronize_folders.py:99-101 | a file or link is removed and nothing else changes |
| `SyncEngine.Replica.RmTree` | synchronize_folders.py:106-107 | a directory is removed with its subtree and nothing else changes |
| `SyncEngine.Replica.Log` | synchronize_folders.py:114-121 | one event is appended to the log |
| `SyncEngine.Replica.Synchronize` | synchronize_folders.py:47-111 | the status is that of `SyncResult`; on completion the replica directory is `SyncResult`'s and the rest of the tree is unchanged; a failed source listing, a replica non-directory and a pass with nothing to do change nothing and log nothing; a recreated replica root is logged first; the log only grows |
| `SyncEngine.Replica.SyncSourceEntries` | synchronize_folders.py:74-93 | the first loop stops on a nested failure exactly when some source name fails; otherwise every source name holds its after-pass entry and every other name is untouched |
| `SyncEngine.Replica.SyncSourceEntry` | synchronize_folders.py:75-93 | one source name: it fails exactly when that name fails, otherwise it holds its after-pass entry and nothing else changes |
| `SyncEngine.Replica.SyncSubdirectory` | synchronize_folders.py:77-85 | a source directory is created when missing, with `CreatedDir` logged, and synchronized recursively; status and new entry are those of `SyncResult` for that name |
| `SyncEngine.Replica.CopyIfMissing` | synchronize_folders.py:86-93 | a source file is copied exactly when its name was not in the replica listing, and then `CopiedFile` is the one event logged; otherwise nothing changes and nothing is logged |
| `SyncEngine.Replica.DeleteReplicaEntries` | synchronize_folders.py:96-111 | after the second loop every name holds its after-pass entry |
| `SyncEngine.Replica.DeleteReplicaEntry` | synchronize_folders.py:97-111 | one replica-only name: files and links are removed with `DeletedFile` logged, directories are removed with their subtree with `DeletedDir` logged, other entries stay and nothing is logged |
| `SyncEngine.TwoPasses` | synchronize_folders.py:39-44 | two consecutive passes: when the first completes, the second completes, logs no event and leaves the replica as the first left it; when the first fails, the program stops there and no second pass runs |
| `SyncEngine.RebuildMissingReplica` | synchronize_folders.py:53-58 | a pass that finds the replica root missing logs its recreation first and rebuilds the whole plain source tree |

## Left out

- `synchronize_folders` (synchronize_folders.py:27-44): the endless loop with `time.sleep` is
  scheduling. `SyncEngine.TwoPasses` covers two passes in a row. The initial creation of the
  replica at lines 33-36 is not modelled. It differs from the step `Synchronize` takes at
  lines 53-58 in two ways: it runs before the source is listed, so the replica is created even
  when the source listing then fails, and it logs a message of its own (line 36), not the
  recreation message.
- Argument parsing in `__main__` (synchronize_folders.py:124-136) is glue.
- `log` (synchronize_folders.py:114-121) is reduced to appending an `Event`. Timestamps, message
  text, the log file and the console are I/O. The `logging.info` listing diagnostics (lines
  67-71) only print, so they are left out.
- Symbolic links are opaque entries that are never followed. In the real filesystem,
  `os.path.isdir` and `os.path.isfile` follow links. A source link to a directory would be
  recursed into, and a source link to a file would be copied by content. The model skips every
  source link. A replica link under the name of a source directory makes the model's pass fail.
  The real pass would list through a link to a directory, and would fail on a broken link.
- The metadata and timestamps copied by `shutil.copy2`, and permissions, are left out.
- Failures of `makedirs`, `copy2`, `remove` and `rmtree` themselves are left out. Examples are
  permission errors and entries changed by another process during a pass. The model is
  sequential and has one writer, so the only failures are listing failures.
- A missing or non-directory source root gives `SourceNotListable`. The source tree is a
  separate value, so the two trees never overlap. A replica nested inside its own source is not
  modelled, and neither is a source inside the replica, where the source's own directory is a
  replica-only name that line 107 would delete with `rmtree`.
- SyncEngine.Replica.Synchronize: after a failure, the state is not characterised. It depends on
  the set iteration order. Only the status, and the absence of change for a failed source
  listing or a replica non-directory, are stated.
- SyncEngine.Replica.MakeDirs: modelled only where the pass calls it, on a missing entry whose
  parent is a directory. Creating missing parents is not modelled.
- SyncEngine.Replica.Copy2: modelled only where the pass calls it, on a missing entry.
- SyncEngine.Replica.Remove: modelled only on files and links, where the pass calls it.
- SyncEngine.Replica.RmTree: modelled only on directories, where the pass calls it.
