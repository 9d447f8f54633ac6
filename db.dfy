/**
 * The mapping store: the `file_mapping_info` table of `DbHandler`, one row per
 * local path, each holding a remote id and the two modification dates. The
 * table has a unique index on `local_path` (here the key of the map) and one on
 * `remote_id` (the predicate `RemoteIdsUnique`). Every write runs in a
 * transaction that commits when the new table satisfies both indexes and rolls
 * back, logging the violation, otherwise. Failures of the database itself (a
 * connection that cannot be opened, a locked file) are not part of this model.
 */
module Db {
  import opened Wrappers
  import opened Identifiers

  /** The columns of a row other than its key `local_path`. */
  datatype Row = Row(remoteId: RemoteId, localModificationDate: int, remoteModificationDate: int)

  type Table = map<Path, Row>

  /** The remote ids the table holds. */
  function RemoteIds(t: Table): set<RemoteId>
  {
    set p | p in t :: t[p].remoteId
  }

  /**
   * The unique index on `remote_id`: no two rows hold one remote id, that is,
   * the table holds as many remote ids as it has rows.
   */
  predicate RemoteIdsUnique(t: Table)
    ensures RemoteIdsUnique(t) <==> |RemoteIds(t)| == |t|
  {
    if forall p, q :: p in t && q in t && p != q ==> t[p].remoteId != t[q].remoteId then
      DistinctRowsCount(t);
      true
    else
      var p, q :| p in t && q in t && p != q && t[p].remoteId == t[q].remoteId;
      SharedIdCount(t, p, q);
      false
  }

  /** Removing one row removes at most its remote id. */
  lemma RemoteIdsRemove(t: Table, p: Path)
    requires p in t
    ensures RemoteIds(t) == RemoteIds(t - {p}) + {t[p].remoteId}
    ensures |t| == |t - {p}| + 1
  {
    var rest := t - {p};
    forall x | x in RemoteIds(t) ensures x in RemoteIds(rest) + {t[p].remoteId} {
      var q :| q in t && t[q].remoteId == x;
      if q != p { assert q in rest; }
    }
    assert t.Keys == rest.Keys + {p};
  }

  /** A table never holds more remote ids than rows. */
  lemma {:induction false} RemoteIdsAtMostRows(t: Table)
    ensures |RemoteIds(t)| <= |t|
    decreases |t|
  {
    if t != map[] {
      var p :| p in t;
      RemoteIdsRemove(t, p);
      RemoteIdsAtMostRows(t - {p});
    }
  }

  /** Rows with pairwise different remote ids give one remote id per row. */
  lemma {:induction false} DistinctRowsCount(t: Table)
    requires forall p, q :: p in t && q in t && p != q ==> t[p].remoteId != t[q].remoteId
    ensures |RemoteIds(t)| == |t|
    decreases |t|
  {
    if t != map[] {
      var p :| p in t;
      var rest := t - {p};
      RemoteIdsRemove(t, p);
      DistinctRowsCount(rest);
    }
  }

  /** Two rows sharing a remote id leave fewer remote ids than rows. */
  lemma SharedIdCount(t: Table, p: Path, q: Path)
    requires p in t && q in t && p != q && t[p].remoteId == t[q].remoteId
    ensures |RemoteIds(t)| < |t|
  {
    var rest := t - {p};
    RemoteIdsRemove(t, p);
    RemoteIdsAtMostRows(rest);
    assert q in rest;
  }

  /**
   * The table after a transaction whose statements would leave `attempt`:
   * the attempt when it satisfies the unique indexes, the table before otherwise.
   */
  function Commit(before: Table, attempt: Table): (after: Table)
    ensures RemoteIdsUnique(before) ==> RemoteIdsUnique(after)
    ensures after == attempt <==> RemoteIdsUnique(attempt) || attempt == before
    ensures after != attempt ==> after == before
  {
    if RemoteIdsUnique(attempt) then attempt else before
  }

  /** Whether no row other than the one keyed by `p` holds `remoteId`. */
  predicate RemoteIdFreeFor(t: Table, p: Path, remoteId: RemoteId)
  {
    forall q :: q in t && q != p ==> t[q].remoteId != remoteId
  }

  /** The `remote_id` of the row keyed by `localPath`, None when there is none. */
  function RemoteIdOf(t: Table, localPath: Path): (r: Option<RemoteId>)
    ensures r.Some? <==> localPath in t
    ensures r.Some? ==> r.value == t[localPath].remoteId
  {
    if localPath in t then Some(t[localPath].remoteId) else None
  }

  /** The `local_modification_date` of the row keyed by `localPath`, None when there is none. */
  function LocalDateOf(t: Table, localPath: Path): (r: Option<int>)
    ensures r.Some? <==> localPath in t
    ensures r.Some? ==> r.value == t[localPath].localModificationDate
  {
    if localPath in t then Some(t[localPath].localModificationDate) else None
  }

  /** The `local_path` of the row holding `remoteId`, None when there is none. */
  function LocalPathOf(t: Table, remoteId: RemoteId): (r: Option<Path>)
    requires RemoteIdsUnique(t)
    ensures r.None? <==> forall p :: p in t ==> t[p].remoteId != remoteId
    ensures forall p :: p in t && t[p].remoteId == remoteId ==> r == Some(p)
  {
    if exists p :: p in t && t[p].remoteId == remoteId then
      Some(var p :| p in t && t[p].remoteId == remoteId; p)
    else None
  }

  /** The `remote_modification_date` of the row holding `remoteId`, None when there is none. */
  function RemoteDateOf(t: Table, remoteId: RemoteId): (r: Option<int>)
    requires RemoteIdsUnique(t)
    ensures r.None? <==> forall p :: p in t ==> t[p].remoteId != remoteId
    ensures forall p :: p in t && t[p].remoteId == remoteId ==> r == Some(t[p].remoteModificationDate)
  {
    match LocalPathOf(t, remoteId)
    case None => None
    case Some(p) => Some(t[p].remoteModificationDate)
  }

  /** An upsert commits exactly when no other row already holds its remote id. */
  lemma InsertCommitsIff(t: Table, p: Path, row: Row)
    requires RemoteIdsUnique(t)
    ensures Commit(t, t[p := row]) == t[p := row] <==> RemoteIdFreeFor(t, p, row.remoteId)
  {
    if !RemoteIdFreeFor(t, p, row.remoteId) {
      var q :| q in t && q != p && t[q].remoteId == row.remoteId;
      assert t[p := row][q] == t[q] && t[p := row][p] == row;
      assert !RemoteIdsUnique(t[p := row]);
      assert t[p := row] != t by { if p in t { assert t[p].remoteId != t[q].remoteId; } }
    }
  }

  /** An upsert that reuses another path's remote id is rolled back and leaves the table as it was. */
  lemma ConflictingInsertRollsBack(t: Table, p: Path, q: Path, row: Row)
    requires q in t && q != p && t[q].remoteId == row.remoteId
    ensures Commit(t, t[p := row]) == t
  {
    assert t[p := row][q] == t[q] && t[p := row][p] == row;
  }

  /**
   * A committed upsert on a new path adds exactly one row; on an existing path it
   * replaces that path's row and keeps the row count. Every other row is unchanged.
   */
  lemma InsertRowCount(t: Table, p: Path, row: Row)
    requires RemoteIdsUnique(t) && RemoteIdFreeFor(t, p, row.remoteId)
    ensures var t' := Commit(t, t[p := row]);
      && p in t' && t'[p] == row
      && |t'| == (if p in t then |t| else |t| + 1)
      && forall q :: q != p ==> (q in t' <==> q in t) && (q in t ==> t'[q] == t[q])
  {
    InsertCommitsIff(t, p, row);
    UpsertSize(t, p, row);
  }

  /** Writing a key adds a row exactly when the key was absent. */
  lemma UpsertSize(t: Table, p: Path, row: Row)
    ensures |t[p := row]| == if p in t then |t| else |t| + 1
  {
    if p in t {
      assert t[p := row].Keys == t.Keys;
    } else {
      assert t[p := row].Keys == t.Keys + {p};
    }
  }

  /**
   * After a committed `insert_record(p, r, l, m)` the four lookups return the
   * inserted values: `p`'s remote id and local date, and `r`'s path and remote date.
   */
  lemma InsertLookupRoundTrip(t: Table, p: Path, row: Row)
    requires RemoteIdsUnique(t) && RemoteIdFreeFor(t, p, row.remoteId)
    ensures var t' := Commit(t, t[p := row]);
      && RemoteIdsUnique(t')
      && RemoteIdOf(t', p) == Some(row.remoteId)
      && LocalDateOf(t', p) == Some(row.localModificationDate)
      && LocalPathOf(t', row.remoteId) == Some(p)
      && RemoteDateOf(t', row.remoteId) == Some(row.remoteModificationDate)
  {
    InsertCommitsIff(t, p, row);
    var t' := t[p := row];
    assert p in t' && t'[p].remoteId == row.remoteId;
    var q :| q in t' && t'[q].remoteId == row.remoteId;
    assert q == p;
  }

  /** Every lookup returns None when no row matches its key. */
  lemma LookupsMiss(t: Table, localPath: Path, remoteId: RemoteId)
    requires RemoteIdsUnique(t)
    requires localPath !in t
    requires forall p :: p in t ==> t[p].remoteId != remoteId
    ensures RemoteIdOf(t, localPath) == None && LocalDateOf(t, localPath) == None
    ensures LocalPathOf(t, remoteId) == None && RemoteDateOf(t, remoteId) == None
  {
  }

  /**
   * `update_record` on a path with no row leaves the table as it was; on a path with
   * a row it replaces that row alone, or rolls back when the remote id is taken.
   */
  lemma UpdateOnlyTouchesKey(t: Table, p: Path, row: Row)
    requires RemoteIdsUnique(t)
    ensures var t' := Commit(t, if p in t then t[p := row] else t);
      && (p !in t ==> t' == t)
      && (p in t && RemoteIdFreeFor(t, p, row.remoteId) ==> t' == t[p := row])
      && (p in t && !RemoteIdFreeFor(t, p, row.remoteId) ==> t' == t)
  {
    if p in t {
      InsertCommitsIff(t, p, row);
    }
  }

  /**
   * `delete_record` always commits: the row keyed by `p` is gone, every other
   * lookup is unchanged, and deleting an absent path changes nothing.
   */
  lemma DeleteFrame(t: Table, p: Path)
    requires RemoteIdsUnique(t)
    ensures var t' := Commit(t, t - {p});
      && t' == t - {p}
      && RemoteIdOf(t', p) == None
      && (forall q :: q != p ==> RemoteIdOf(t', q) == RemoteIdOf(t, q) && LocalDateOf(t', q) == LocalDateOf(t, q))
      && (p !in t ==> t' == t)
  {
  }

  /** Inserting a row for a new path and deleting it again restores the table. */
  lemma InsertDeleteRoundTrip(t: Table, p: Path, row: Row)
    requires RemoteIdsUnique(t) && p !in t
    ensures Commit(t, t[p := row]) - {p} == t
  {
  }

  /**
   * `DbHandler`: the table as it is in the database file. The object invariant is
   * the unique index on `remote_id`; the map's keys are the unique `local_path`.
   */
  class DbHandler {
    var table: Table

    ghost predicate Valid()
      reads this
    {
      RemoteIdsUnique(table)
    }

    /**
     * Opening the store over the rows already in the file: the table and its two
     * indexes are created only if absent, so the existing rows are kept.
     */
    constructor (persisted: Table)
      requires RemoteIdsUnique(persisted)
      ensures Valid() && table == persisted
    {
      table := persisted;
    }

    /** `_execute_in_transaction`: commit the statements' effect, or roll back on a constraint violation. */
    method ExecuteInTransaction(attempt: Table)
      requires Valid()
      modifies this
      ensures Valid()
      ensures table == Commit(old(table), attempt)
    {
      if RemoteIdsUnique(attempt) {
        table := attempt;
      }
    }

    /** `insert_record`: update the row keyed by `localPath` if there is one, insert it otherwise. */
    method InsertRecord(localPath: Path, remoteId: RemoteId, localModificationDate: int, remoteModificationDate: int)
      requires Valid()
      modifies this
      ensures Valid()
      ensures var row := Row(remoteId, localModificationDate, remoteModificationDate);
        table == if RemoteIdFreeFor(old(table), localPath, remoteId) then old(table)[localPath := row] else old(table)
    {
      var row := Row(remoteId, localModificationDate, remoteModificationDate);
      // UPDATE when the SELECT finds the path, INSERT otherwise: both leave this row under the key
      ExecuteInTransaction(table[localPath := row]);
      InsertCommitsIff(old(table), localPath, row);
    }

    /** `update_record`: replace the row keyed by `localPath`; a path with no row matches nothing. */
    method UpdateRecord(localPath: Path, remoteId: RemoteId, localModificationDate: int, remoteModificationDate: int)
      requires Valid()
      modifies this
      ensures Valid()
      ensures var row := Row(remoteId, localModificationDate, remoteModificationDate);
        table == if localPath in old(table) && RemoteIdFreeFor(old(table), localPath, remoteId)
                 then old(table)[localPath := row] else old(table)
    {
      var row := Row(remoteId, localModificationDate, remoteModificationDate);
      ExecuteInTransaction(if localPath in table then table[localPath := row] else table);
      UpdateOnlyTouchesKey(old(table), localPath, row);
    }

    /** `delete_record`: remove the row keyed by `localPath`, if any. */
    method DeleteRecord(localPath: Path)
      requires Valid()
      modifies this
      ensures Valid()
      ensures table == old(table) - {localPath}
    {
      ExecuteInTransaction(table - {localPath});
    }

    /** `get_remote_file_id`. */
    function GetRemoteFileId(localPath: Path): (r: Option<RemoteId>)
      reads this
      ensures r.Some? <==> localPath in table
      ensures r.Some? ==> r.value == table[localPath].remoteId
    {
      RemoteIdOf(table, localPath)
    }

    /** `get_local_file_path`. */
    function GetLocalFilePath(remoteFileId: RemoteId): (r: Option<Path>)
      reads this
      requires Valid()
      ensures r.None? <==> forall p :: p in table ==> table[p].remoteId != remoteFileId
      ensures forall p :: p in table && table[p].remoteId == remoteFileId ==> r == Some(p)
    {
      LocalPathOf(table, remoteFileId)
    }

    /** `get_local_modification_date`. */
    function GetLocalModificationDate(localFilePath: Path): (r: Option<int>)
      reads this
      ensures r.Some? <==> localFilePath in table
      ensures r.Some? ==> r.value == table[localFilePath].localModificationDate
    {
      LocalDateOf(table, localFilePath)
    }

    /** `get_remote_modification_date`. */
    function GetRemoteModificationDate(remoteFileId: RemoteId): (r: Option<int>)
      reads this
      requires Valid()
      ensures r.None? <==> forall p :: p in table ==> table[p].remoteId != remoteFileId
      ensures forall p :: p in table && table[p].remoteId == remoteFileId ==> r == Some(table[p].remoteModificationDate)
    {
      RemoteDateOf(table, remoteFileId)
    }
  }
}
