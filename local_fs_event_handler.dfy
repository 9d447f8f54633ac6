/**
 * `LocalFSEventHandler`: each watchdog notification is turned into at most one
 * remote call, chosen from the event's type and `is_directory` flag and one
 * lookup of `get_remote_file_id` in the mapping store. The handlers only read
 * the store: they receive the table as a value and return the call to make.
 */
module LocalFSEventHandler {
  import opened Wrappers
  import opened Identifiers
  import Db
  import Paths

  datatype EventType = Created | Deleted | Modified | Moved

  /** A watchdog event: its type, `src_path` and `is_directory`. */
  datatype FileSystemEvent = FileSystemEvent(eventType: EventType, srcPath: Path, isDirectory: bool)

  /**
   * The remote calls a handler makes. The id argument is whatever the store
   * lookup returned, None included: no handler checks it.
   */
  datatype RemoteCall =
    | CopyLocalFileToRemote(localPath: Path, remoteParentDirId: Option<RemoteId>)
    | DeleteFileOnRemote(remoteFileId: Option<RemoteId>)
    | UpdateRemoteFile(remoteFileId: Option<RemoteId>, localFilePath: Path)

  /**
   * `on_created`: a file is uploaded under the remote id stored for its parent
   * directory, None when that directory has no row; a directory makes no call.
   */
  function OnCreated(e: FileSystemEvent, t: Db.Table): (call: Option<RemoteCall>)
    ensures call.Some? <==> !e.isDirectory
    ensures call.Some? ==> call.value.CopyLocalFileToRemote? && call.value.localPath == e.srcPath
    ensures call.Some? ==> (call.value.remoteParentDirId.Some? <==> Paths.DirName(e.srcPath) in t)
  {
    if e.isDirectory then None
    else Some(CopyLocalFileToRemote(e.srcPath, Db.RemoteIdOf(t, Paths.DirName(e.srcPath))))
  }

  /**
   * `on_deleted`: a delete is always called, file or directory alike, with the
   * remote id stored for the path, None when the path has no row.
   */
  function OnDeleted(e: FileSystemEvent, t: Db.Table): (call: Option<RemoteCall>)
    ensures call.Some? && call.value.DeleteFileOnRemote?
    ensures call.value.remoteFileId.Some? <==> e.srcPath in t
  {
    Some(DeleteFileOnRemote(Db.RemoteIdOf(t, e.srcPath)))
  }

  /**
   * `on_modified`: a file's content is pushed to the remote id stored for it,
   * None when it has no row; a directory makes no call.
   */
  function OnModified(e: FileSystemEvent, t: Db.Table): (call: Option<RemoteCall>)
    ensures call.Some? <==> !e.isDirectory
    ensures call.Some? ==> call.value.UpdateRemoteFile? && call.value.localFilePath == e.srcPath
    ensures call.Some? ==> (call.value.remoteFileId.Some? <==> e.srcPath in t)
  {
    if e.isDirectory then None
    else Some(UpdateRemoteFile(Db.RemoteIdOf(t, e.srcPath), e.srcPath))
  }

  /** `on_moved`: only logged, so no remote call whatever the store holds. */
  function OnMoved(e: FileSystemEvent, t: Db.Table): (call: Option<RemoteCall>)
    ensures call.None?
  {
    None
  }

  /** The path whose remote id the handler for `e` looks up. */
  function LookupKey(e: FileSystemEvent): Path
  {
    if e.eventType == Created then Paths.DirName(e.srcPath) else e.srcPath
  }

  /**
   * The watchdog dispatch to the handler of the event's type. At most one call
   * results; there is one exactly for a deletion and for a file created or
   * modified; every call concerns the event's own path, its id argument being
   * the store's answer for `LookupKey(e)`.
   */
  function Dispatch(e: FileSystemEvent, t: Db.Table): (call: Option<RemoteCall>)
    ensures call.Some? <==> e.eventType == Deleted || (!e.isDirectory && e.eventType in {Created, Modified})
    ensures call.Some? && call.value.CopyLocalFileToRemote? ==>
      e.eventType == Created && call.value.localPath == e.srcPath && call.value.remoteParentDirId == Db.RemoteIdOf(t, LookupKey(e))
    ensures call.Some? && call.value.UpdateRemoteFile? ==>
      e.eventType == Modified && call.value.localFilePath == e.srcPath && call.value.remoteFileId == Db.RemoteIdOf(t, LookupKey(e))
    ensures call.Some? && call.value.DeleteFileOnRemote? ==>
      e.eventType == Deleted && call.value.remoteFileId == Db.RemoteIdOf(t, LookupKey(e))
  {
    match e.eventType
    case Created => OnCreated(e, t)
    case Deleted => OnDeleted(e, t)
    case Modified => OnModified(e, t)
    case Moved => OnMoved(e, t)
  }

  /** The handler reads one row of the store: two tables that agree on it give the same call. */
  lemma DispatchReadsOneKey(e: FileSystemEvent, t1: Db.Table, t2: Db.Table)
    requires Db.RemoteIdOf(t1, LookupKey(e)) == Db.RemoteIdOf(t2, LookupKey(e))
    ensures Dispatch(e, t1) == Dispatch(e, t2)
  {
  }

  /**
   * A file created directly under a directory whose remote id is stored is
   * uploaded under that id.
   */
  lemma CreatedUnderMappedDir(dir: Path, name: string, t: Db.Table)
    requires name != [] && '/' !in name
    requires dir == [] || dir[|dir| - 1] != '/' || Paths.AllSlashes(dir)
    requires dir in t
    ensures Dispatch(FileSystemEvent(Created, Paths.PathJoin(dir, name), false), t)
            == Some(CopyLocalFileToRemote(Paths.PathJoin(dir, name), Some(t[dir].remoteId)))
  {
    Paths.DirNameBaseNameOfJoin(dir, name);
  }

  /** A file modified after `insert_record` committed its row updates the remote id just stored. */
  lemma ModifiedAfterInsert(t: Db.Table, p: Path, row: Db.Row)
    requires Db.RemoteIdsUnique(t) && Db.RemoteIdFreeFor(t, p, row.remoteId)
    ensures Dispatch(FileSystemEvent(Modified, p, false), Db.Commit(t, t[p := row]))
            == Some(UpdateRemoteFile(Some(row.remoteId), p))
  {
    Db.InsertLookupRoundTrip(t, p, row);
  }

  /**
   * A deletion of a path with no row still calls the remote delete, with None,
   * and a deletion after `delete_record` does the same: the handler has no guard.
   */
  lemma DeletedUnmappedStillCalls(t: Db.Table, p: Path, isDirectory: bool)
    requires Db.RemoteIdsUnique(t)
    ensures Dispatch(FileSystemEvent(Deleted, p, isDirectory), Db.Commit(t, t - {p})) == Some(DeleteFileOnRemote(None))
    ensures p !in t ==> Dispatch(FileSystemEvent(Deleted, p, isDirectory), t) == Some(DeleteFileOnRemote(None))
  {
    Db.DeleteFrame(t, p);
  }
}
