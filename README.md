# gdrive-sync: the mapping store, the reconciler and the event handlers

This project models the core of gdrive-sync, a tool that keeps local directories
and Google Drive folders in step. It is written in Dafny, and the model is proved
against specifications of its own:

- **`Db`** models the mapping store `DbHandler`. It is an SQLite table
  `file_mapping_info`, with one row per local path holding the remote id and the
  two modification dates, and unique indexes on `local_path` and `remote_id`.
  - The table is a `map<Path, Row>`. Its keys carry the `local_path` index, and the
    object invariant `RemoteIdsUnique` carries the `remote_id` index.
  - Each write runs in a transaction (`Commit`). The transaction commits when the
    new table satisfies the indexes and otherwise rolls back, leaving the table as
    it was.
  - `DbHandler` is a class whose methods reassign the table. Its getters are
    functions that read it.
- **`GdriveSync`** models the one-level reconciler `_compare_and_sync_files`,
  together with the split of the configured remote path in `_process_dir_pairs`.
  - `GdriveSync.CompareAndSyncFiles` updates the `_remote_file_id_dict` field in
    place with the same two loops as the source. It returns the external calls it
    made, in order.
  - Its postcondition ties the calls and the new map to `Reconcile`, a function
    of the inputs.
  - The lemmas characterise `Reconcile` without the loop state: which calls are
    made, in what order, which names are left over, and which id each inode gets.
- **`LocalFSEventHandler`** models the watchdog handlers as functions. Each takes
  an event and the store's table, and returns the remote call the handler makes,
  if any.
- **`Utils`** models three helpers:
  - paginated listing with `get_remote_files_from_dir`;
  - folder lookup by path with `get_remote_dir`;
  - `check_and_get_service`.

  The remote service is an oracle passed in as a function, and each helper also
  returns the requests it sent.
- **`Paths`** gives Python's `str.split('/')` and POSIX `os.path.join`,
  `os.path.dirname` and `os.path.basename` for the separator `/`. The split serves
  the configured remote path, `join` the leftover downloads of the reconciler and
  `dirname` the creation handler. `basename` names the file an upload creates
  (`gdrive_sync/utils.py:133`); the model records uploads by path, so it only
  appears in the lemma that relates the three.
- **`Identifiers`** names the two kinds of string the modules share: a local path
  and a Drive file id.
- **`Wrappers`** holds the `Option` type. `None` stands for Python's `None` and for
  a missing row.

This revision of the code has no tie-break on stored timestamps and no
propagation of deletions between the two sides. The model follows the code as
written:

- `copy_remote_file_to_local` returns nothing (`gdrive_sync/utils.py:109-120`).
  Every leftover download is therefore recorded under the key `None` in
  `_remote_file_id_dict`, and only the last one stays (`GdriveSync.LeftoverIds`).
- A remote name that matches a local one is only removed from `remote_file_dict`,
  the name-keyed index the leftover pass iterates over afterwards; nothing is
  deleted on Drive. Equal modification times transfer nothing.
- `on_deleted` has no guard. A path with no row still calls the remote delete,
  with `None` (`LocalFSEventHandler.DeletedUnmappedStillCalls`).
- Events are not de-duplicated. `Dispatch` is a function of the event and the
  table, so a repeated event repeats its call.
- The handlers here read a `Db.Table`, the store the handler's docstring asks for
  (`gdrive_sync/LocalFSEventHandler.py:9-13`). As wired in this revision,
  `_watch_local_dir` builds the handler over `_remote_file_id_dict`, a plain dict
  (`gdrive_sync/GdriveSync.py:111`), so every `get_remote_file_id` call of the
  handlers (`gdrive_sync/LocalFSEventHandler.py:26`, `31`, `38`) would raise
  `AttributeError` instead of making a remote call. The model describes the
  handlers as written against a store, not that wiring.

## Model

| member | source | states |
|---|---|---|
| Db.RemoteIdsUnique | gdrive_sync/Db.py:34-37 | the unique index on `remote_id` holds exactly when the table holds as many distinct remote ids as rows |
| Db.Commit | gdrive_sync/Db.py:40-55 | a transaction leaves either the attempted table, when it keeps remote ids unique, or the table before it; uniqueness of remote ids is preserved |
| Db.RemoteIdOf | gdrive_sync/Db.py:114-133 | the lookup by local path is None exactly when no row has that path, else the row's remote id |
| Db.LocalPathOf | gdrive_sync/Db.py:135-154 | the lookup by remote id is None exactly when no row holds the id; when a row holds it, its path is returned |
| Db.LocalDateOf | gdrive_sync/Db.py:156-175 | the local date lookup is None exactly when no row has the path, else that row's local date |
| Db.RemoteDateOf | gdrive_sync/Db.py:177-196 | the remote date lookup is None exactly when no row holds the id, else the remote date of the row holding it |
| Db.InsertCommitsIff | gdrive_sync/Db.py:57-94 | an upsert commits if and only if no other path's row already holds its remote id |
| Db.ConflictingInsertRollsBack | gdrive_sync/Db.py:30-37 | an upsert reusing another row's remote id violates the unique index and leaves the table unchanged |
| Db.InsertRowCount | gdrive_sync/Db.py:71-94 | a committed upsert adds one row for a new path, or replaces the row of an existing path and keeps the count; other rows are unchanged |
| Db.InsertLookupRoundTrip | gdrive_sync/Db.py:57-94 | after a committed insert the four getters return the inserted remote id, local date, path and remote date |
| Db.LookupsMiss | gdrive_sync/Db.py:114-196 | every getter returns None when no row matches its key |
| Db.UpdateOnlyTouchesKey | gdrive_sync/Db.py:198-222 | an update of a path with no row changes nothing; otherwise it replaces only that row, or rolls back when the remote id is taken |
| Db.DeleteFrame | gdrive_sync/Db.py:224-236 | a delete always commits, removes only that path's row, and deleting an absent path changes nothing |
| Db.InsertDeleteRoundTrip | gdrive_sync/Db.py:224-236 | inserting a row for a new path and deleting it restores the table |
| Db.DbHandler.constructor | gdrive_sync/Db.py:20-38 | opening the store keeps the rows already in the file, assuming the persisted rows satisfy the remote-id index |
| Db.DbHandler.ExecuteInTransaction | gdrive_sync/Db.py:40-55 | the new table is the commit-or-rollback of the attempt, and the invariant holds |
| Db.DbHandler.InsertRecord | gdrive_sync/Db.py:57-94 | the path's row becomes the given row (update or insert) when the remote id is free for it; otherwise the table is unchanged |
| Db.DbHandler.UpdateRecord | gdrive_sync/Db.py:198-222 | the row of an existing path is replaced when its remote id is free; a missing path or a taken id leaves the table unchanged |
| Db.DbHandler.DeleteRecord | gdrive_sync/Db.py:224-236 | the table loses exactly the given path's row |
| Db.DbHandler.GetRemoteFileId | gdrive_sync/Db.py:114-133 | None exactly when the path has no row, else that row's remote id |
| Db.DbHandler.GetLocalFilePath | gdrive_sync/Db.py:135-154 | None exactly when no row holds the remote id, else the path of the row holding it |
| Db.DbHandler.GetLocalModificationDate | gdrive_sync/Db.py:156-175 | None exactly when the path has no row, else that row's local date |
| Db.DbHandler.GetRemoteModificationDate | gdrive_sync/Db.py:177-196 | None exactly when no row holds the remote id, else that row's remote date |
| Paths.Split | gdrive_sync/GdriveSync.py:28 | `split('/')` yields at least one piece and no piece contains a separator |
| Paths.JoinSplit | gdrive_sync/GdriveSync.py:28 | joining the pieces of a split with `/` gives back the string |
| Paths.SplitJoin | gdrive_sync/GdriveSync.py:28 | splitting a join of separator-free pieces gives back the pieces |
| Paths.PathJoin | gdrive_sync/GdriveSync.py:86 | `os.path.join` keeps an absolute second part alone, and otherwise is the first part followed by the second, with one separator inserted only when the first part does not already end in one |
| Paths.DirName | gdrive_sync/LocalFSEventHandler.py:27 | `os.path.dirname` is a prefix of the path, empty exactly when the path has no separator, and has no trailing separator unless it is all separators |
| Paths.BaseName | gdrive_sync/utils.py:133 | `os.path.basename` is the separator-free tail of the path, preceded by a separator whenever it is not the whole path |
| Paths.DirNameBaseNameOfJoin | gdrive_sync/LocalFSEventHandler.py:25-27 | the dirname of a name joined under a directory is that directory, and its basename is the name |
| GdriveSync.RemoteDirSegments | gdrive_sync/GdriveSync.py:28 | `split('/')[1:]` gives separator-free segments, and for a path starting with `/` they rebuild the path when joined after `/` |
| GdriveSync.RemoteDirSegmentsRoundTrip | gdrive_sync/GdriveSync.py:28 | `split('/')[1:]` of `/` followed by separator-free segments is exactly those segments |
| GdriveSync.RemoteDirSegmentsExample | gdrive_sync/GdriveSync.py:28 | the configured path `/test1/child` resolves through `test1` then `child` |
| GdriveSync.IndexByName | gdrive_sync/GdriveSync.py:62 | every value of the remote dict is a listed entry, stored under its own name |
| GdriveSync.NameOrder | gdrive_sync/GdriveSync.py:62 | the dict's iteration order repeats no name and lists only keys of the dict |
| GdriveSync.IndexByNameKeys | gdrive_sync/GdriveSync.py:62 | the remote dict's keys are exactly the listed names |
| GdriveSync.IndexByNameLaterWins | gdrive_sync/GdriveSync.py:62 | when names repeat, the dict keeps the last entry of that name |
| GdriveSync.NameOrderIsKeys | gdrive_sync/GdriveSync.py:62 | the dict's iteration order lists every key once and nothing else |
| GdriveSync.NameOrderFollowsListing | gdrive_sync/GdriveSync.py:62 | the dict iterates in insertion order: of two names, the one whose first entry is listed earlier comes earlier |
| GdriveSync.IndexRemoteFiles | gdrive_sync/GdriveSync.py:62 | the loop building the dict computes its keys in insertion order and its values |
| GdriveSync.Without | gdrive_sync/GdriveSync.py:78 | deleting keys from the dict keeps exactly the other keys |
| GdriveSync.WithoutAppend | gdrive_sync/GdriveSync.py:78 | deleting keys commutes with concatenation, so the remaining keys keep their iteration order |
| GdriveSync.Transfer | gdrive_sync/GdriveSync.py:69-76 | a matched entry makes at most one call, none exactly on equal times, and that call is an overwrite of the remote file or a download of it, never an upload |
| GdriveSync.LocalStep | gdrive_sync/GdriveSync.py:64-82 | one iteration keeps every pending name a key of the remote dict |
| GdriveSync.LocalPass | gdrive_sync/GdriveSync.py:64-82 | the local loop keeps every pending name a key of the remote dict |
| GdriveSync.LeftoverLog | gdrive_sync/GdriveSync.py:84-88 | one download per leftover name, in order, to `path.join(local_parent_dir, name)` with that entry's id |
| GdriveSync.LeftoverIds | gdrive_sync/GdriveSync.py:84-88 | the leftover pass writes only the None key, and leaves there the id of the last leftover name; every inode key keeps its value |
| GdriveSync.Reconcile | gdrive_sync/GdriveSync.py:38-88 | `_compare_and_sync_files` drops no key from the id map, and every local entry's inode ends up in it |
| GdriveSync.LocalPassCharacterised | gdrive_sync/GdriveSync.py:64-82 | after the local loop, the pending names are the remote names with no local entry, the calls are each entry's transfer or upload in turn, and the ids are assigned per entry |
| GdriveSync.ReconcileCharacterised | gdrive_sync/GdriveSync.py:38-88 | the calls are every local entry's transfer or upload followed by a download of every leftover remote name; each inode maps to its remote id and None to the last leftover's |
| GdriveSync.LeftoversExactly | gdrive_sync/GdriveSync.py:62-88 | a name is downloaded if and only if it is listed remotely and no local entry has it, and each such name exactly once |
| GdriveSync.NewerSideWins | gdrive_sync/GdriveSync.py:67-77 | a matched entry overwrites the remote file if and only if the local one is newer, downloads if and only if the remote one is newer, does nothing on equal times, and is never uploaded anew |
| GdriveSync.AssignIdsAt | gdrive_sync/GdriveSync.py:64-82 | each local inode not reused later maps to the matched remote id or to the id its upload returned |
| GdriveSync.AssignIdsElsewhere | gdrive_sync/GdriveSync.py:64-82 | keys that no local entry names keep their previous value |
| GdriveSync.ReconcileExampleLog | gdrive_sync/GdriveSync.py:38-88 | with a newer, an older and an unlisted local file and a remote-only `file3`, the calls are overwrite, download, upload, then a download of `file3` into the directory |
| GdriveSync.ReconcileExampleIds | gdrive_sync/GdriveSync.py:38-88 | in the same scenario, over any previous id map, the three inodes get the ids of `file1`, `file2` and the upload, and None gets `file3`'s |
| GdriveSync.GdriveSync.constructor | gdrive_sync/GdriveSync.py:13-15 | the id map starts empty |
| GdriveSync.GdriveSync.CompareAndSyncFiles | gdrive_sync/GdriveSync.py:38-88 | the calls made and the new id map are those of `Reconcile` on the old map |
| GdriveSync.GdriveSync.SyncLocalFiles | gdrive_sync/GdriveSync.py:64-82 | the loop over local entries leaves the state `LocalPass` describes |
| GdriveSync.GdriveSync.DownloadLeftovers | gdrive_sync/GdriveSync.py:84-88 | the loop over leftover names makes the `LeftoverLog` calls and records each under None |
| LocalFSEventHandler.OnCreated | gdrive_sync/LocalFSEventHandler.py:20-27 | a created file, and only a file, is uploaded from its own path, under an id that is present exactly when its parent directory has a row |
| LocalFSEventHandler.OnDeleted | gdrive_sync/LocalFSEventHandler.py:29-31 | a deletion always calls the remote delete, file or directory alike, with an id that is present exactly when the path has a row |
| LocalFSEventHandler.OnModified | gdrive_sync/LocalFSEventHandler.py:33-39 | a modified file, and only a file, is pushed from its own path to an id that is present exactly when the path has a row |
| LocalFSEventHandler.OnMoved | gdrive_sync/LocalFSEventHandler.py:41-43 | a move makes no remote call whatever the store holds |
| LocalFSEventHandler.Dispatch | gdrive_sync/LocalFSEventHandler.py:20-43 | exactly deletions, and creations or modifications of files, produce a call; creation and modification calls carry the event's path, and every call carries the store's answer for the looked-up path |
| LocalFSEventHandler.DispatchReadsOneKey | gdrive_sync/LocalFSEventHandler.py:20-43 | the call depends on the store only through the one row looked up |
| LocalFSEventHandler.CreatedUnderMappedDir | gdrive_sync/LocalFSEventHandler.py:20-27 | a file created under a directory with a stored id is uploaded under that id |
| LocalFSEventHandler.ModifiedAfterInsert | gdrive_sync/LocalFSEventHandler.py:33-39 | after `insert_record` commits a path's row, modifying that file updates the stored remote id |
| LocalFSEventHandler.DeletedUnmappedStillCalls | gdrive_sync/LocalFSEventHandler.py:29-31 | deleting a path with no row (or after `delete_record`) still calls the remote delete, with None |
| Utils.GetRemoteFilesFromDir | gdrive_sync/utils.py:136-154 | the first request carries the given token, each later request carries the previous page's token, and at most `depth` requests are made |
| Utils.PaginationFollowsChain | gdrive_sync/utils.py:136-154 | for a chain of pages ending in one without a token, exactly the chain's tokens are requested and the result is all pages' files in page order |
| Utils.TwoPagesExample | tests/test_utils.py:112-130 | two pages give `file1`..`file4` in order, requested with no token and then with the first page's token |
| Utils.GetRemoteDir | gdrive_sync/utils.py:156-179 | at most one query per segment, all of them on success; an empty path fails without a query; the first query is the first segment under the given parent |
| Utils.GetRemoteDirDescends | gdrive_sync/utils.py:156-179 | when every segment matches, the lookup queries each segment under the first match of the one before and returns the last segment's first matching entry |
| Utils.GetRemoteDirFailsAtMissingSegment | gdrive_sync/utils.py:174-176 | when segment k has no match, the lookup fails after exactly k+1 queries |
| Utils.TwoLevelsExample | tests/test_utils.py:132-148 | `dir1/dir2` from `root` queries `dir1` under `root` and `dir2` under `id_1`, and returns the `dir2` entry |
| Utils.CheckAndGetService | gdrive_sync/utils.py:216-227 | a given service is returned unchanged, and a missing one is replaced by a new one |
| Utils.CheckAndGetServiceIdempotent | gdrive_sync/utils.py:216-227 | checking a service that a check returned gives it back unchanged |

## Left out

- OAuth credentials, service construction (`get_credentials`, `get_service`) and the Drive API calls. They appear as oracles (`list`, `query`, `created`) or as recorded actions.
- File contents, `os.scandir`, `os.stat` and inode lookup. A local entry carries its name, path, modification time and inode as values.
- RFC 3339 conversion. Remote times arrive as integers already converted.
- The watchdog observer, its threads, and `_watch_local_dir`, `start_sync`, `stop_sync` and `sync_onetime`. They are start-up glue: `start_sync` writes to `_local_dir_observers` and `stop_sync` stops dictionary keys. `_watch_local_dir` hands the handler a dict where a store is expected; see above.
- `_process_dir_pairs` beyond its `split('/')[1:]`. The loop passes the whole entry returned by `get_remote_dir` where an id is expected, so it is not modelled as a working sync.
- SQL text, the database file location, and the logging that replaces exceptions. The model's reads always reach the table.
- `Db.Commit`: a transaction rolls back only on a unique-index violation. The source rolls back on any exception inside the transaction (`gdrive_sync/Db.py:51-52`), for example a locked database or a disk I/O error; the model has no such failures, so the "remote id free implies commit" direction of `Db.InsertCommitsIff` holds only in their absence.
- `Db.DbHandler.ExecuteInTransaction`: a failed `sqlite3.connect` is not modelled. In the source `connection` is then unbound, and the `rollback()` and `close()` in the handlers (`gdrive_sync/Db.py:52`, `55`, `112`) raise `UnboundLocalError` out of every write and every read; the model's writes and reads always complete, and the getters return None only for a missing row.
- `GdriveSync.GdriveSync.CompareAndSyncFiles`: an exception from an overwrite, download or upload is not modelled. The source has no handler for them (`gdrive_sync/GdriveSync.py:64-88`), so such a failure aborts the call part-way: the rest of the local loop and the whole leftover pass are skipped and `_remote_file_id_dict` is left partly written. The model's call always completes.
- `GdriveSync.Transfer`: local and remote modification times are integers. In the source both are floating-point epoch seconds (`st_mtime` at `gdrive_sync/GdriveSync.py:69` and `73`, and the converted RFC 3339 time), so sub-second differences decide the branch there; the model compares whole values it is given.
- NULL remote ids and SQLite's treatment of NULL in unique indexes. Remote ids are always strings here.
- `on_moved`'s `dest_path`. The handler only logs it, and the model returns no call.
- Directories inside a synced directory. The source's TODO leaves them to the same file comparison, and the model compares them as entries too.
- `Utils.GetRemoteFilesFromDir`: the recursion is bounded by `depth`, standing for Python's recursion limit. A listing that runs past it returns no files.
- `Utils.CheckAndGetServiceIdempotent`: only a missing service is replaced. Other falsy values that Python's `not service` also replaces are not modelled.
- `Db.DbHandler.constructor`: takes the rows already persisted as a parameter instead of reading the file. The SQL that creates the table and indexes is not modelled.
