/**
 * The one-level reconciler of `GdriveSync`: `_compare_and_sync_files` matches the
 * entries of one local directory with the remote entries of its paired folder by
 * name, transfers content from the newer side to the older one, uploads local
 * names missing remotely, downloads remote names left over, and records
 * `inode -> remote id` in `_remote_file_id_dict`. Remote and local operations
 * are recorded as actions; modification times are integers.
 */
module GdriveSync {
  import opened Wrappers
  import opened Identifiers
  import Paths

  /** A listed remote file: `id`, `name` and `modifiedTime` as epoch seconds. */
  datatype RemoteFile = RemoteFile(id: RemoteId, name: string, modifiedTime: int)

  /** An `os.DirEntry` of the local directory with its `st_mtime` and inode number. */
  datatype LocalFile = LocalFile(name: string, path: Path, mtime: int, inode: nat)

  /** A key of `_remote_file_id_dict`: an inode number, or the None that `copy_remote_file_to_local` returns. */
  datatype InodeKey = Inode(n: nat) | NoInode

  /** The external calls the reconciler makes, in the order it makes them. */
  datatype Action =
    | OverwriteRemoteFileWithLocal(remoteId: RemoteId, localPath: Path)
    | CopyRemoteFileToLocal(localPath: Path, remoteId: RemoteId)
    | CopyLocalFileToRemote(localPath: Path, remoteParentDirId: RemoteId)

  /**
   * `_process_dir_pairs` splits the configured remote path with `split('/')[1:]`:
   * separator-free segments which, for a path starting with `/`, rebuild it.
   */
  function RemoteDirSegments(remoteDir: string): (segments: seq<string>)
    ensures forall i :: 0 <= i < |segments| ==> '/' !in segments[i]
    ensures |remoteDir| > 0 && remoteDir[0] == '/' ==> |segments| >= 1 && "/" + Paths.Join(segments) == remoteDir
  {
    assert |remoteDir| > 0 && remoteDir[0] == '/' ==>
      |Paths.Split(remoteDir)[1..]| >= 1 && "/" + Paths.Join(Paths.Split(remoteDir)[1..]) == remoteDir by {
      if |remoteDir| > 0 && remoteDir[0] == '/' {
        Paths.SplitCons([], remoteDir[1..]);
        assert [] + "/" + remoteDir[1..] == remoteDir;
        Paths.JoinSplit(remoteDir[1..]);
      }
    }
    Paths.Split(remoteDir)[1..]
  }

  /** A remote path written as `/` followed by separator-free segments splits back into those segments. */
  lemma RemoteDirSegmentsRoundTrip(segments: seq<string>)
    requires |segments| >= 1
    requires forall i :: 0 <= i < |segments| ==> '/' !in segments[i]
    ensures RemoteDirSegments("/" + Paths.Join(segments)) == segments
  {
    var s := "/" + Paths.Join(segments);
    assert s[0] == '/' && s[1..] == Paths.Join(segments);
    Paths.SplitJoin(segments);
  }

  /** The configured path `/test1/child` resolves through the segments `test1` and `child`. */
  lemma RemoteDirSegmentsExample()
    ensures RemoteDirSegments("/test1/child") == ["test1", "child"]
  {
    assert "/test1/child" == "/" + Paths.Join(["test1", "child"]);
    RemoteDirSegmentsRoundTrip(["test1", "child"]);
  }

  // ---------------------------------------------------------------------------
  // remote_file_dict = {file['name']: file for file in remote_files}

  /** The dict's values: for each name, the last remote entry carrying it. */
  function IndexByName(rs: seq<RemoteFile>): (idx: map<string, RemoteFile>)
    ensures forall n :: n in idx ==> idx[n] in rs && idx[n].name == n
    decreases |rs|
  {
    if rs == [] then map[]
    else IndexByName(rs[..|rs| - 1])[rs[|rs| - 1].name := rs[|rs| - 1]]
  }

  /** The dict's keys in iteration order: each name at its first occurrence. */
  function NameOrder(rs: seq<RemoteFile>): (order: seq<string>)
    ensures Distinct(order)
    ensures forall k :: 0 <= k < |order| ==> order[k] in IndexByName(rs)
    decreases |rs|
  {
    if rs == [] then []
    else
      var order := NameOrder(rs[..|rs| - 1]);
      if rs[|rs| - 1].name in IndexByName(rs[..|rs| - 1]) then order else order + [rs[|rs| - 1].name]
  }

  predicate Distinct(s: seq<string>)
  {
    forall i, j :: 0 <= i < j < |s| ==> s[i] != s[j]
  }

  /** The names indexed are exactly the names listed. */
  lemma {:induction false} IndexByNameKeys(rs: seq<RemoteFile>, n: string)
    ensures n in IndexByName(rs) <==> exists i :: 0 <= i < |rs| && rs[i].name == n
    decreases |rs|
  {
    if rs != [] {
      var init := rs[..|rs| - 1];
      IndexByNameKeys(init, n);
      if n in IndexByName(init) {
        var i :| 0 <= i < |init| && init[i].name == n;
        assert rs[i].name == n;
      }
      if exists i :: 0 <= i < |rs| && rs[i].name == n {
        var i :| 0 <= i < |rs| && rs[i].name == n;
        if i < |init| { assert init[i].name == n; }
      }
    }
  }

  /** When two remote entries share a name, the later one wins. */
  lemma {:induction false} IndexByNameLaterWins(rs: seq<RemoteFile>, i: nat)
    requires i < |rs|
    requires forall j :: i < j < |rs| ==> rs[j].name != rs[i].name
    ensures rs[i].name in IndexByName(rs) && IndexByName(rs)[rs[i].name] == rs[i]
    decreases |rs|
  {
    if i < |rs| - 1 {
      var init := rs[..|rs| - 1];
      IndexByNameLaterWins(init, i);
    }
  }

  /** The iteration order lists every indexed name exactly once. */
  lemma {:induction false} NameOrderIsKeys(rs: seq<RemoteFile>)
    ensures Distinct(NameOrder(rs))
    ensures forall n :: n in NameOrder(rs) <==> n in IndexByName(rs)
    decreases |rs|
  {
    if rs != [] {
      NameOrderIsKeys(rs[..|rs| - 1]);
    }
  }

  /** Whether `rs[i]` is the first entry listing its name. */
  predicate FirstOfName(rs: seq<RemoteFile>, i: nat)
    requires i < |rs|
  {
    forall k :: 0 <= k < i ==> rs[k].name != rs[i].name
  }

  /** `x` occurs before `y` in `order`. */
  predicate Precedes(order: seq<string>, x: string, y: string)
  {
    exists a, b :: 0 <= a < b < |order| && order[a] == x && order[b] == y
  }

  /** The iteration order of a listing extends that of the listing without its last entry. */
  lemma NameOrderExtends(rs: seq<RemoteFile>, x: string, y: string)
    requires rs != [] && Precedes(NameOrder(rs[..|rs| - 1]), x, y)
    ensures Precedes(NameOrder(rs), x, y)
  {
    var order := NameOrder(rs[..|rs| - 1]);
    var a, b :| 0 <= a < b < |order| && order[a] == x && order[b] == y;
    var ext := NameOrder(rs);
    assert ext == order || ext == order + [rs[|rs| - 1].name];
    assert ext[a] == x && ext[b] == y;
  }

  /** The first entry of a name comes after every name listed before it. */
  lemma NameOrderAppendsFirst(rs: seq<RemoteFile>, i: nat)
    requires i < |rs| - 1 && FirstOfName(rs, |rs| - 1)
    ensures Precedes(NameOrder(rs), rs[i].name, rs[|rs| - 1].name)
  {
    var init := rs[..|rs| - 1];
    var order := NameOrder(init);
    IndexByNameKeys(init, rs[|rs| - 1].name);
    IndexByNameKeys(init, rs[i].name);
    assert forall k :: 0 <= k < |init| ==> init[k] == rs[k];
    assert NameOrder(rs) == order + [rs[|rs| - 1].name];
    NameOrderIsKeys(init);
    var a :| 0 <= a < |order| && order[a] == rs[i].name;
    assert NameOrder(rs)[a] == rs[i].name && NameOrder(rs)[|order|] == rs[|rs| - 1].name;
  }

  /**
   * The dict iterates in insertion order: of two names, the one listed first
   * comes first in `NameOrder`.
   */
  lemma {:induction false} NameOrderFollowsListing(rs: seq<RemoteFile>, i: nat, j: nat)
    requires i < j < |rs|
    requires FirstOfName(rs, i) && FirstOfName(rs, j)
    ensures Precedes(NameOrder(rs), rs[i].name, rs[j].name)
    decreases |rs|
  {
    if j < |rs| - 1 {
      var init := rs[..|rs| - 1];
      assert forall k :: 0 <= k < |init| ==> init[k] == rs[k];
      NameOrderFollowsListing(init, i, j);
      NameOrderExtends(rs, rs[i].name, rs[j].name);
    } else {
      NameOrderAppendsFirst(rs, i);
    }
  }

  // ---------------------------------------------------------------------------
  // The specification of one call, pass by pass.

  /** The state carried through the loop over the local entries. */
  datatype PassState = PassState(
    pending: seq<string>,                  // keys of remote_file_dict, in iteration order
    remote: map<string, RemoteFile>,       // remote_file_dict
    ids: map<InodeKey, RemoteId>,          // self._remote_file_id_dict
    log: seq<Action>)                      // calls made so far

  /** `seq` without the elements of `excluded`, order kept. */
  function Without(s: seq<string>, excluded: set<string>): (r: seq<string>)
    ensures forall n :: n in r <==> n in s && n !in excluded
    decreases |s|
  {
    if s == [] then []
    else
      var r := Without(s[..|s| - 1], excluded);
      if s[|s| - 1] in excluded then r else r + [s[|s| - 1]]
  }

  /** Removing names commutes with concatenation, so the kept names stay in their order. */
  lemma {:induction false} WithoutAppend(s: seq<string>, t: seq<string>, excluded: set<string>)
    ensures Without(s + t, excluded) == Without(s, excluded) + Without(t, excluded)
    decreases |t|
  {
    if t == [] {
      assert s + t == s;
    } else {
      var t' := t[..|t| - 1];
      assert (s + t)[..|s + t| - 1] == s + t' && (s + t)[|s + t| - 1] == t[|t| - 1];
      WithoutAppend(s, t', excluded);
    }
  }

  /** The transfer for a local entry whose name is listed remotely: from the newer side to the older. */
  function Transfer(f: LocalFile, r: RemoteFile): (acts: seq<Action>)
    ensures |acts| <= 1
    ensures acts == [] <==> r.modifiedTime == f.mtime
    ensures forall a :: a in acts ==> a == OverwriteRemoteFileWithLocal(r.id, f.path) || a == CopyRemoteFileToLocal(f.path, r.id)
  {
    if r.modifiedTime < f.mtime then [OverwriteRemoteFileWithLocal(r.id, f.path)]
    else if r.modifiedTime > f.mtime then [CopyRemoteFileToLocal(f.path, r.id)]
    else []
  }

  /** Every pending name is still a key of the remote dict. */
  predicate PendingInRemote(st: PassState)
  {
    forall n :: n in st.pending ==> n in st.remote
  }

  /** One iteration of the loop over the local entries. */
  function LocalStep(st: PassState, f: LocalFile, parentId: RemoteId, created: (Path, RemoteId) -> RemoteId): (st': PassState)
    ensures PendingInRemote(st) ==> PendingInRemote(st')
    ensures forall k :: k in st.ids ==> k in st'.ids
    ensures Inode(f.inode) in st'.ids
  {
    if f.name in st.remote then
      var r := st.remote[f.name];
      PassState(Without(st.pending, {f.name}), st.remote - {f.name},
                st.ids[Inode(f.inode) := r.id], st.log + Transfer(f, r))
    else
      PassState(st.pending, st.remote,
                st.ids[Inode(f.inode) := created(f.path, parentId)],
                st.log + [CopyLocalFileToRemote(f.path, parentId)])
  }

  /** The loop over the local entries `ls`, from state `st`. */
  function LocalPass(st: PassState, ls: seq<LocalFile>, parentId: RemoteId, created: (Path, RemoteId) -> RemoteId): (st': PassState)
    ensures PendingInRemote(st) ==> PendingInRemote(st')
    ensures forall k :: k in st.ids ==> k in st'.ids
    ensures forall f :: f in ls ==> Inode(f.inode) in st'.ids
    decreases |ls|
  {
    if ls == [] then st
    else LocalStep(LocalPass(st, ls[..|ls| - 1], parentId, created), ls[|ls| - 1], parentId, created)
  }

  /** The downloads of the leftover pass over `names`, each to `path.join(localParentDir, name)`. */
  function LeftoverLog(names: seq<string>, remote: map<string, RemoteFile>, localParentDir: Path): (log: seq<Action>)
    requires forall n :: n in names ==> n in remote
    ensures |log| == |names|
    ensures forall k :: 0 <= k < |names| ==>
      log[k] == CopyRemoteFileToLocal(Paths.PathJoin(localParentDir, names[k]), remote[names[k]].id)
    decreases |names|
  {
    if names == [] then []
    else
      var n := names[|names| - 1];
      LeftoverLog(names[..|names| - 1], remote, localParentDir)
        + [CopyRemoteFileToLocal(Paths.PathJoin(localParentDir, n), remote[n].id)]
  }

  /** The id map after the leftover pass: each download is keyed by None, so the last one stays. */
  function LeftoverIds(ids: map<InodeKey, RemoteId>, names: seq<string>, remote: map<string, RemoteFile>): (ids': map<InodeKey, RemoteId>)
    requires forall n :: n in names ==> n in remote
    ensures forall k :: k != NoInode ==> (k in ids' <==> k in ids) && (k in ids ==> ids'[k] == ids[k])
    ensures NoInode in ids' <==> NoInode in ids || names != []
    ensures names != [] ==> ids'[NoInode] == remote[names[|names| - 1]].id
  {
    if names == [] then ids else ids[NoInode := remote[names[|names| - 1]].id]
  }

  datatype Outcome = Outcome(log: seq<Action>, ids: map<InodeKey, RemoteId>)

  /**
   * The calls made and the id map left by `_compare_and_sync_files`. No key is
   * dropped from the id map, and every local entry's inode ends up in it.
   */
  function Reconcile(remoteFiles: seq<RemoteFile>, remoteParentDirId: RemoteId, localFiles: seq<LocalFile>,
                     localParentDir: Path, ids: map<InodeKey, RemoteId>, created: (Path, RemoteId) -> RemoteId): (o: Outcome)
    ensures forall k :: k in ids ==> k in o.ids
    ensures forall f :: f in localFiles ==> Inode(f.inode) in o.ids
  {
    var st0 := PassState(NameOrder(remoteFiles), IndexByName(remoteFiles), ids, []);
    NameOrderIsKeys(remoteFiles);
    var st := LocalPass(st0, localFiles, remoteParentDirId, created);
    Outcome(st.log + LeftoverLog(st.pending, st.remote, localParentDir), LeftoverIds(st.ids, st.pending, st.remote))
  }

  // ---------------------------------------------------------------------------
  // The reconciler's promises, stated without the loop state.

  /** The names of the local entries. */
  function LocalNames(ls: seq<LocalFile>): set<string>
  {
    set f | f in ls :: f.name
  }

  /** A directory listing never holds two entries of one name. */
  predicate NamesDistinct(ls: seq<LocalFile>)
  {
    forall i, j :: 0 <= i < j < |ls| ==> ls[i].name != ls[j].name
  }

  /** The calls made for one local entry against the remote index `idx`. */
  function FileActions(f: LocalFile, idx: map<string, RemoteFile>, parentId: RemoteId): seq<Action>
  {
    if f.name in idx then Transfer(f, idx[f.name]) else [CopyLocalFileToRemote(f.path, parentId)]
  }

  /** The calls made for the local entries, one entry after the other. */
  function AllFileActions(ls: seq<LocalFile>, idx: map<string, RemoteFile>, parentId: RemoteId): seq<Action>
    decreases |ls|
  {
    if ls == [] then []
    else AllFileActions(ls[..|ls| - 1], idx, parentId) + FileActions(ls[|ls| - 1], idx, parentId)
  }

  /** The remote id recorded for one local entry: the matched entry's, or the id the upload returned. */
  function FileId(f: LocalFile, idx: map<string, RemoteFile>, parentId: RemoteId, created: (Path, RemoteId) -> RemoteId): RemoteId
  {
    if f.name in idx then idx[f.name].id else created(f.path, parentId)
  }

  /** The id map after the local entries have each recorded their inode. */
  function AssignIds(ids: map<InodeKey, RemoteId>, ls: seq<LocalFile>, idx: map<string, RemoteFile>, parentId: RemoteId,
                     created: (Path, RemoteId) -> RemoteId): map<InodeKey, RemoteId>
    decreases |ls|
  {
    if ls == [] then ids
    else AssignIds(ids, ls[..|ls| - 1], idx, parentId, created)[Inode(ls[|ls| - 1].inode) := FileId(ls[|ls| - 1], idx, parentId, created)]
  }

  /** The remote names with no local entry of the same name, in dict order. */
  function Leftovers(rs: seq<RemoteFile>, ls: seq<LocalFile>): seq<string>
  {
    Without(NameOrder(rs), LocalNames(ls))
  }

  lemma {:induction false} WithoutWithout(s: seq<string>, a: set<string>, b: set<string>)
    ensures Without(Without(s, a), b) == Without(s, a + b)
    decreases |s|
  {
    if s != [] {
      WithoutWithout(s[..|s| - 1], a, b);
    }
  }

  /** The loop state after the local entries `ls`, stated without the loop. */
  function Expected(rs: seq<RemoteFile>, ls: seq<LocalFile>, ids: map<InodeKey, RemoteId>,
                    parentId: RemoteId, created: (Path, RemoteId) -> RemoteId): PassState
  {
    var idx := IndexByName(rs);
    PassState(Leftovers(rs, ls), idx - LocalNames(ls), AssignIds(ids, ls, idx, parentId, created),
              AllFileActions(ls, idx, parentId))
  }

  lemma {:induction false} LocalNamesSnoc(init: seq<LocalFile>, f: LocalFile)
    ensures LocalNames(init + [f]) == LocalNames(init) + {f.name}
  {
    var ls := init + [f];
    forall g | g in ls ensures g in init || g == f {
      var i :| 0 <= i < |ls| && ls[i] == g;
      if i < |init| { assert init[i] == g; }
    }
    forall g | g in init ensures g in ls {
      var i :| 0 <= i < |init| && init[i] == g;
      assert ls[i] == g;
    }
    assert f == ls[|init|];
  }

  /** One more local entry, of a name not seen before, moves the expected state one step. */
  lemma {:induction false} ExpectedStep(rs: seq<RemoteFile>, init: seq<LocalFile>, f: LocalFile, ids: map<InodeKey, RemoteId>,
                                        parentId: RemoteId, created: (Path, RemoteId) -> RemoteId)
    requires f.name !in LocalNames(init)
    ensures LocalStep(Expected(rs, init, ids, parentId, created), f, parentId, created)
            == Expected(rs, init + [f], ids, parentId, created)
  {
    var ls := init + [f];
    assert ls[..|ls| - 1] == init && ls[|ls| - 1] == f;
    LocalNamesSnoc(init, f);
    WithoutWithout(NameOrder(rs), LocalNames(init), {f.name});
    if f.name in IndexByName(rs) {
      ExpectedStepMatched(rs, init, f, ids, parentId, created);
    } else {
      ExpectedStepUnmatched(rs, init, f, ids, parentId, created);
    }
  }

  lemma {:induction false} ExpectedStepMatched(rs: seq<RemoteFile>, init: seq<LocalFile>, f: LocalFile, ids: map<InodeKey, RemoteId>,
                                               parentId: RemoteId, created: (Path, RemoteId) -> RemoteId)
    requires f.name !in LocalNames(init) && f.name in IndexByName(rs)
    requires LocalNames(init + [f]) == LocalNames(init) + {f.name}
    requires Without(Leftovers(rs, init), {f.name}) == Leftovers(rs, init + [f])
    ensures LocalStep(Expected(rs, init, ids, parentId, created), f, parentId, created)
            == Expected(rs, init + [f], ids, parentId, created)
  {
    var idx := IndexByName(rs);
    var ls := init + [f];
    assert ls[..|ls| - 1] == init && ls[|ls| - 1] == f;
    var st := Expected(rs, init, ids, parentId, created);
    var st' := Expected(rs, ls, ids, parentId, created);
    assert st.remote[f.name] == idx[f.name];
    assert st.remote - {f.name} == st'.remote;
  }

  lemma {:induction false} ExpectedStepUnmatched(rs: seq<RemoteFile>, init: seq<LocalFile>, f: LocalFile, ids: map<InodeKey, RemoteId>,
                                                 parentId: RemoteId, created: (Path, RemoteId) -> RemoteId)
    requires f.name !in IndexByName(rs)
    requires LocalNames(init + [f]) == LocalNames(init) + {f.name}
    requires Without(Leftovers(rs, init), {f.name}) == Leftovers(rs, init + [f])
    ensures LocalStep(Expected(rs, init, ids, parentId, created), f, parentId, created)
            == Expected(rs, init + [f], ids, parentId, created)
  {
    var idx := IndexByName(rs);
    var ls := init + [f];
    assert ls[..|ls| - 1] == init && ls[|ls| - 1] == f;
    var st := Expected(rs, init, ids, parentId, created);
    var st' := Expected(rs, ls, ids, parentId, created);
    NameOrderIsKeys(rs);
    WithoutAbsent(st.pending, f.name);
    assert st.remote == st'.remote;
  }

  /** In a listing of distinct names, the last entry's name is new and the rest are distinct too. */
  lemma {:induction false} LastNameFresh(ls: seq<LocalFile>)
    requires ls != [] && NamesDistinct(ls)
    ensures NamesDistinct(ls[..|ls| - 1])
    ensures ls[|ls| - 1].name !in LocalNames(ls[..|ls| - 1])
  {
    var init := ls[..|ls| - 1];
    forall g | g in init ensures g.name != ls[|ls| - 1].name {
      var i :| 0 <= i < |init| && init[i] == g;
      assert ls[i] == g;
    }
  }

  /** Before any local entry, the expected state is the initial one. */
  lemma {:induction false} ExpectedEmpty(rs: seq<RemoteFile>, ids: map<InodeKey, RemoteId>,
                                         parentId: RemoteId, created: (Path, RemoteId) -> RemoteId)
    ensures Expected(rs, [], ids, parentId, created) == PassState(NameOrder(rs), IndexByName(rs), ids, [])
  {
    assert LocalNames([]) == {};
    WithoutNothing(NameOrder(rs));
    assert IndexByName(rs) - {} == IndexByName(rs);
  }

  /** With distinct local names, the local pass leaves exactly the unmatched remote names pending. */
  lemma {:induction false} LocalPassCharacterised(rs: seq<RemoteFile>, ls: seq<LocalFile>, ids: map<InodeKey, RemoteId>,
                                                  parentId: RemoteId, created: (Path, RemoteId) -> RemoteId)
    requires NamesDistinct(ls)
    ensures LocalPass(PassState(NameOrder(rs), IndexByName(rs), ids, []), ls, parentId, created)
            == Expected(rs, ls, ids, parentId, created)
    decreases |ls|
  {
    if ls == [] {
      ExpectedEmpty(rs, ids, parentId, created);
    } else {
      var init := ls[..|ls| - 1];
      var f := ls[|ls| - 1];
      LastNameFresh(ls);
      LocalPassCharacterised(rs, init, ids, parentId, created);
      ExpectedStep(rs, init, f, ids, parentId, created);
      assert init + [f] == ls;
    }
  }

  lemma {:induction false} WithoutNothing(s: seq<string>)
    ensures Without(s, {}) == s
    decreases |s|
  {
    if s != [] {
      WithoutNothing(s[..|s| - 1]);
      assert s[..|s| - 1] + [s[|s| - 1]] == s;
    }
  }

  lemma {:induction false} WithoutAbsent(s: seq<string>, n: string)
    requires n !in s
    ensures Without(s, {n}) == s
    decreases |s|
  {
    if s != [] {
      var init := s[..|s| - 1];
      assert s[|s| - 1] in s;
      assert n !in init by {
        forall i | 0 <= i < |init| ensures init[i] != n { assert init[i] == s[i]; }
      }
      WithoutAbsent(s[..|s| - 1], n);
    }
  }

  /** Leftover downloads do not depend on which matched names were removed from the dict. */
  lemma {:induction false} LeftoverLogRestrict(names: seq<string>, idx: map<string, RemoteFile>, gone: set<string>, dir: Path)
    requires forall n :: n in names ==> n in idx && n !in gone
    ensures LeftoverLog(names, idx - gone, dir) == LeftoverLog(names, idx, dir)
    ensures LeftoverIds(map[], names, idx - gone) == LeftoverIds(map[], names, idx)
  {
    var restricted, full := LeftoverLog(names, idx - gone, dir), LeftoverLog(names, idx, dir);
    forall k | 0 <= k < |names| ensures restricted[k] == full[k] {
      assert names[k] in names;
    }
    if names != [] {
      assert names[|names| - 1] in names;
    }
  }

  /**
   * `_compare_and_sync_files` on a directory listing (distinct local names): the
   * calls are, for each local entry in turn, its transfer or upload, followed by a
   * download of every leftover remote name in dict order; each local inode is
   * mapped to its remote id, and None to the last leftover's id.
   */
  lemma ReconcileCharacterised(rs: seq<RemoteFile>, parentId: RemoteId, ls: seq<LocalFile>, dir: Path,
                               ids: map<InodeKey, RemoteId>, created: (Path, RemoteId) -> RemoteId)
    requires NamesDistinct(ls)
    ensures forall n :: n in Leftovers(rs, ls) ==> n in IndexByName(rs)
    ensures var o := Reconcile(rs, parentId, ls, dir, ids, created);
      var idx := IndexByName(rs);
      var left := Leftovers(rs, ls);
      && o.log == AllFileActions(ls, idx, parentId) + LeftoverLog(left, idx, dir)
      && o.ids == LeftoverIds(AssignIds(ids, ls, idx, parentId, created), left, idx)
  {
    NameOrderIsKeys(rs);
    var idx := IndexByName(rs);
    var left := Leftovers(rs, ls);
    var st := LocalPass(PassState(NameOrder(rs), idx, ids, []), ls, parentId, created);
    LocalPassCharacterised(rs, ls, ids, parentId, created);
    assert st.pending == left && st.remote == idx - LocalNames(ls);
    LeftoverLogRestrict(left, idx, LocalNames(ls), dir);
  }

  /** Exactly the remote names with no local counterpart are left over, each once. */
  lemma LeftoversExactly(rs: seq<RemoteFile>, ls: seq<LocalFile>)
    ensures Distinct(Leftovers(rs, ls))
    ensures forall n :: n in Leftovers(rs, ls) <==>
      (exists i :: 0 <= i < |rs| && rs[i].name == n) && (forall f :: f in ls ==> f.name != n)
  {
    NameOrderIsKeys(rs);
    forall n ensures n in IndexByName(rs) <==> exists i :: 0 <= i < |rs| && rs[i].name == n {
      IndexByNameKeys(rs, n);
    }
    WithoutDistinct(NameOrder(rs), LocalNames(ls));
  }

  lemma {:induction false} WithoutDistinct(s: seq<string>, excluded: set<string>)
    requires Distinct(s)
    ensures Distinct(Without(s, excluded))
    decreases |s|
  {
    if s != [] {
      var init := s[..|s| - 1];
      assert Distinct(init);
      WithoutDistinct(init, excluded);
      assert s[|s| - 1] !in init by {
        forall i | 0 <= i < |init| ensures init[i] != s[|s| - 1] { assert init[i] == s[i]; }
      }
    }
  }

  /**
   * Content always flows from the newer side: an overwrite of the remote file
   * happens only when the local entry is strictly newer, a download only when the
   * remote one is, and equal times transfer nothing. A name listed remotely is
   * never uploaded as a new file.
   */
  lemma NewerSideWins(f: LocalFile, idx: map<string, RemoteFile>, parentId: RemoteId)
    requires f.name in idx
    ensures var r := idx[f.name]; var acts := FileActions(f, idx, parentId);
      && (acts == [OverwriteRemoteFileWithLocal(r.id, f.path)] <==> r.modifiedTime < f.mtime)
      && (acts == [CopyRemoteFileToLocal(f.path, r.id)] <==> r.modifiedTime > f.mtime)
      && (acts == [] <==> r.modifiedTime == f.mtime)
      && CopyLocalFileToRemote(f.path, parentId) !in acts
  {
  }

  /** Each local inode, unless a later entry reuses it, ends up mapped to that entry's remote id. */
  lemma {:induction false} AssignIdsAt(ids: map<InodeKey, RemoteId>, ls: seq<LocalFile>, idx: map<string, RemoteFile>,
                                       parentId: RemoteId, created: (Path, RemoteId) -> RemoteId, i: nat)
    requires i < |ls|
    requires forall j :: i < j < |ls| ==> ls[j].inode != ls[i].inode
    ensures var m := AssignIds(ids, ls, idx, parentId, created);
      Inode(ls[i].inode) in m && m[Inode(ls[i].inode)] == FileId(ls[i], idx, parentId, created)
    decreases |ls|
  {
    if i < |ls| - 1 {
      AssignIdsAt(ids, ls[..|ls| - 1], idx, parentId, created, i);
    }
  }

  /** Keys that no local entry names keep their old value, and None is never assigned by the local pass. */
  lemma {:induction false} AssignIdsElsewhere(ids: map<InodeKey, RemoteId>, ls: seq<LocalFile>, idx: map<string, RemoteFile>,
                                              parentId: RemoteId, created: (Path, RemoteId) -> RemoteId, k: InodeKey)
    requires forall f :: f in ls ==> k != Inode(f.inode)
    ensures var m := AssignIds(ids, ls, idx, parentId, created);
      (k in m <==> k in ids) && (k in ids ==> m[k] == ids[k])
    decreases |ls|
  {
    if ls != [] {
      assert ls[|ls| - 1] in ls;
      AssignIdsElsewhere(ids, ls[..|ls| - 1], idx, parentId, created, k);
    }
  }

  /** The remote listing of the example below: three files modified at time 100. */
  const ExampleRemote := [RemoteFile("1", "file1", 100), RemoteFile("2", "file2", 100), RemoteFile("3", "file3", 100)]

  /** The local listing of the example below: a newer `file1`, an older `file2` and an unlisted `file4`. */
  const ExampleLocal := [LocalFile("file1", "path1", 101, 1001), LocalFile("file2", "path2", 99, 1002),
                         LocalFile("file4", "path4", 0, 1004)]

  /** The upload oracle of the example below: every upload is given the id "4". */
  function UploadsAsFour(localPath: Path, parentId: RemoteId): RemoteId
  {
    "4"
  }

  /** The example's remote dict. */
  const ExampleIndexMap := map["file1" := ExampleRemote[0], "file2" := ExampleRemote[1], "file3" := ExampleRemote[2]]

  /** The example's remote dict: keys in listing order, each name with its entry. */
  lemma ExampleIndex()
    ensures NameOrder(ExampleRemote) == ["file1", "file2", "file3"]
    ensures IndexByName(ExampleRemote) == ExampleIndexMap
  {
    var rs := ExampleRemote;
    var r1, r2 := rs[..1], rs[..2];
    assert r1[..0] == [] && r2[..1] == r1 && rs[..|rs| - 1] == r2;
    assert IndexByName(r1) == map["file1" := rs[0]] && NameOrder(r1) == ["file1"];
    assert IndexByName(r2) == map["file1" := rs[0], "file2" := rs[1]] && NameOrder(r2) == ["file1", "file2"];
  }

  /** The names of the example's local listing. */
  lemma ExampleLocalNames()
    ensures LocalNames(ExampleLocal) == {"file1", "file2", "file4"}
  {
    var ls := ExampleLocal;
    assert ls[0].name == "file1" && ls[1].name == "file2" && ls[2].name == "file4";
    assert ls[0] in ls && ls[1] in ls && ls[2] in ls;
  }

  /** Removing the example's local names from its remote names leaves `file3`. */
  lemma ExampleWithout()
    ensures Without(["file1", "file2", "file3"], {"file1", "file2", "file4"}) == ["file3"]
  {
    var s := ["file1", "file2", "file3"];
    var excluded := {"file1", "file2", "file4"};
    assert s[..2][..1] == s[..1] && s[..1][..0] == [] && s[..2] == s[..|s| - 1];
    assert Without(s[..1], excluded) == [];
    assert Without(s[..2], excluded) == [];
  }

  /** Only `file3` has no local entry of its name. */
  lemma ExampleLeftovers()
    ensures Leftovers(ExampleRemote, ExampleLocal) == ["file3"]
  {
    ExampleIndex();
    ExampleLocalNames();
    ExampleWithout();
  }

  /** The example's local calls: overwrite `file1`, download `file2`, upload `file4`. */
  lemma ExampleFileActions()
    ensures AllFileActions(ExampleLocal, ExampleIndexMap, "remote_parent_dir_id1")
      == [OverwriteRemoteFileWithLocal("1", "path1"), CopyRemoteFileToLocal("path2", "2"),
          CopyLocalFileToRemote("path4", "remote_parent_dir_id1")]
  {
    var ls, idx := ExampleLocal, ExampleIndexMap;
    var l1, l2 := ls[..1], ls[..2];
    assert l2[..1] == l1 && l1[..0] == [] && ls[..|ls| - 1] == l2;
    assert FileActions(ls[0], idx, "remote_parent_dir_id1") == [OverwriteRemoteFileWithLocal("1", "path1")];
    assert FileActions(ls[1], idx, "remote_parent_dir_id1") == [CopyRemoteFileToLocal("path2", "2")];
    assert FileActions(ls[2], idx, "remote_parent_dir_id1") == [CopyLocalFileToRemote("path4", "remote_parent_dir_id1")];
    assert AllFileActions(l1, idx, "remote_parent_dir_id1") == [OverwriteRemoteFileWithLocal("1", "path1")];
    assert AllFileActions(l2, idx, "remote_parent_dir_id1")
      == [OverwriteRemoteFileWithLocal("1", "path1"), CopyRemoteFileToLocal("path2", "2")];
  }

  /** The example's local ids: each inode mapped to the id of its match or upload. */
  lemma ExampleAssignIds(ids: map<InodeKey, RemoteId>)
    ensures AssignIds(ids, ExampleLocal, ExampleIndexMap, "remote_parent_dir_id1", UploadsAsFour)
      == ids[Inode(1001) := "1"][Inode(1002) := "2"][Inode(1004) := "4"]
  {
    var ls, idx := ExampleLocal, ExampleIndexMap;
    var l1, l2 := ls[..1], ls[..2];
    assert l2[..1] == l1 && l1[..0] == [] && ls[..|ls| - 1] == l2;
    assert FileId(ls[0], idx, "remote_parent_dir_id1", UploadsAsFour) == "1";
    assert FileId(ls[1], idx, "remote_parent_dir_id1", UploadsAsFour) == "2";
    assert FileId(ls[2], idx, "remote_parent_dir_id1", UploadsAsFour) == "4";
    assert AssignIds(ids, l1, idx, "remote_parent_dir_id1", UploadsAsFour) == ids[Inode(1001) := "1"];
    assert AssignIds(ids, l2, idx, "remote_parent_dir_id1", UploadsAsFour) == ids[Inode(1001) := "1"][Inode(1002) := "2"];
  }

  /** The example's local names are distinct. */
  lemma ExampleNamesDistinct()
    ensures NamesDistinct(ExampleLocal)
  {
    var ls := ExampleLocal;
    assert ls[0].name == "file1" && ls[1].name == "file2" && ls[2].name == "file4";
  }

  /** The example's leftover pass: `file3` is downloaded into the directory and recorded under None. */
  lemma ExampleLeftoverPass(ids: map<InodeKey, RemoteId>)
    ensures LeftoverLog(["file3"], ExampleIndexMap, "local_parent_dir1") == [CopyRemoteFileToLocal("local_parent_dir1/file3", "3")]
    ensures LeftoverIds(ids, ["file3"], ExampleIndexMap) == ids[NoInode := "3"]
  {
    var idx := ExampleIndexMap;
    var left: seq<string> := ["file3"];
    assert left[..0] == [];
    ExampleJoin();
    var log := LeftoverLog(left, idx, "local_parent_dir1");
    assert |log| == 1 && log[0] == CopyRemoteFileToLocal("local_parent_dir1/file3", "3");
  }

  /** The leftover `file3` is downloaded to `local_parent_dir1/file3`. */
  lemma ExampleJoin()
    ensures Paths.PathJoin("local_parent_dir1", "file3") == "local_parent_dir1/file3"
  {
  }

  /**
   * Three remote files at time 100 against a newer `file1`, an older `file2` and
   * an unlisted `file4`: the remote `file1` is overwritten, `file2` is downloaded,
   * `file4` is uploaded and the leftover `file3` is downloaded into the directory.
   */
  lemma ReconcileExampleLog(ids: map<InodeKey, RemoteId>)
    ensures Reconcile(ExampleRemote, "remote_parent_dir_id1", ExampleLocal, "local_parent_dir1", ids, UploadsAsFour).log
            == [OverwriteRemoteFileWithLocal("1", "path1"), CopyRemoteFileToLocal("path2", "2"),
                CopyLocalFileToRemote("path4", "remote_parent_dir_id1"),
                CopyRemoteFileToLocal("local_parent_dir1/file3", "3")]
  {
    ExampleNamesDistinct();
    ReconcileCharacterised(ExampleRemote, "remote_parent_dir_id1", ExampleLocal, "local_parent_dir1", ids, UploadsAsFour);
    ExampleIndex();
    ExampleLeftovers();
    assert Reconcile(ExampleRemote, "remote_parent_dir_id1", ExampleLocal, "local_parent_dir1", ids, UploadsAsFour).log
      == AllFileActions(ExampleLocal, ExampleIndexMap, "remote_parent_dir_id1") + LeftoverLog(["file3"], ExampleIndexMap, "local_parent_dir1");
    ExampleFileActions();
    ExampleLeftoverPass(ids);
    AppendOne([OverwriteRemoteFileWithLocal("1", "path1"), CopyRemoteFileToLocal("path2", "2"),
               CopyLocalFileToRemote("path4", "remote_parent_dir_id1")],
              CopyRemoteFileToLocal("local_parent_dir1/file3", "3"));
  }

  /** Appending one call to a list of three. */
  lemma AppendOne(front: seq<Action>, last: Action)
    requires |front| == 3
    ensures front + [last] == [front[0], front[1], front[2], last]
  {
  }

  /**
   * In the same scenario, over any previous id map, the three local inodes get
   * the ids of `file1`, `file2` and the upload, and None gets `file3`'s.
   */
  lemma ReconcileExampleIds(ids: map<InodeKey, RemoteId>)
    ensures Reconcile(ExampleRemote, "remote_parent_dir_id1", ExampleLocal, "local_parent_dir1", ids, UploadsAsFour).ids
            == ids[Inode(1001) := "1"][Inode(1002) := "2"][Inode(1004) := "4"][NoInode := "3"]
  {
    ExampleNamesDistinct();
    ReconcileCharacterised(ExampleRemote, "remote_parent_dir_id1", ExampleLocal, "local_parent_dir1", ids, UploadsAsFour);
    ExampleIndex();
    ExampleLeftovers();
    ExampleAssignIds(ids);
    ExampleLeftoverPass(ids[Inode(1001) := "1"][Inode(1002) := "2"][Inode(1004) := "4"]);
  }

  /** `{file['name']: file for file in remote_files}`: the dict's keys in iteration order, and the dict. */
  method IndexRemoteFiles(remoteFiles: seq<RemoteFile>) returns (names: seq<string>, byName: map<string, RemoteFile>)
    ensures names == NameOrder(remoteFiles) && byName == IndexByName(remoteFiles)
  {
    names, byName := [], map[];
    for i := 0 to |remoteFiles|
      invariant names == NameOrder(remoteFiles[..i])
      invariant byName == IndexByName(remoteFiles[..i])
    {
      var file := remoteFiles[i];
      assert remoteFiles[..i + 1][..i] == remoteFiles[..i];
      if file.name !in byName {
        names := names + [file.name];
      }
      byName := byName[file.name := file];
    }
    assert remoteFiles[..|remoteFiles|] == remoteFiles;
  }

  /** The class that owns `_remote_file_id_dict`. */
  class GdriveSync {
    var remoteFileIds: map<InodeKey, RemoteId>

    constructor ()
      ensures remoteFileIds == map[]
    {
      remoteFileIds := map[];
    }

    /**
     * `_compare_and_sync_files`. `created(path, parent)` is the id the remote
     * service returns for an upload of `path` under `parent`.
     */
    method CompareAndSyncFiles(remoteFiles: seq<RemoteFile>, remoteParentDirId: RemoteId, localFiles: seq<LocalFile>,
                               localParentDir: Path, created: (Path, RemoteId) -> RemoteId)
      returns (log: seq<Action>)
      modifies this
      ensures var o := Reconcile(remoteFiles, remoteParentDirId, localFiles, localParentDir, old(remoteFileIds), created);
        log == o.log && remoteFileIds == o.ids
    {
      var pending, remote := IndexRemoteFiles(remoteFiles);
      NameOrderIsKeys(remoteFiles);
      var localLog;
      pending, remote, localLog := SyncLocalFiles(localFiles, pending, remote, remoteParentDirId, created);
      var leftoverLog := DownloadLeftovers(pending, remote, localParentDir);
      log := localLog + leftoverLog;
    }

    /** The loop over the local entries, matching each by name against the pending remote entries. */
    method SyncLocalFiles(localFiles: seq<LocalFile>, pending0: seq<string>, remote0: map<string, RemoteFile>,
                          remoteParentDirId: RemoteId, created: (Path, RemoteId) -> RemoteId)
      returns (pending: seq<string>, remote: map<string, RemoteFile>, log: seq<Action>)
      modifies this
      ensures PassState(pending, remote, remoteFileIds, log)
              == LocalPass(PassState(pending0, remote0, old(remoteFileIds), []), localFiles, remoteParentDirId, created)
    {
      ghost var st0 := PassState(pending0, remote0, remoteFileIds, []);
      pending, remote, log := pending0, remote0, [];
      for i := 0 to |localFiles|
        invariant PassState(pending, remote, remoteFileIds, log) == LocalPass(st0, localFiles[..i], remoteParentDirId, created)
      {
        var f := localFiles[i];
        assert localFiles[..i + 1][..i] == localFiles[..i];
        ghost var next := LocalStep(PassState(pending, remote, remoteFileIds, log), f, remoteParentDirId, created);
        assert LocalPass(st0, localFiles[..i + 1], remoteParentDirId, created) == next;
        if f.name in remote {
          var r := remote[f.name];
          if r.modifiedTime < f.mtime {
            log := log + [OverwriteRemoteFileWithLocal(r.id, f.path)];
          } else if r.modifiedTime > f.mtime {
            log := log + [CopyRemoteFileToLocal(f.path, r.id)];
          }
          remoteFileIds := remoteFileIds[Inode(f.inode) := r.id];
          remote := remote - {f.name};
          pending := Without(pending, {f.name});
        } else {
          log := log + [CopyLocalFileToRemote(f.path, remoteParentDirId)];
          remoteFileIds := remoteFileIds[Inode(f.inode) := created(f.path, remoteParentDirId)];
        }
        assert PassState(pending, remote, remoteFileIds, log) == next;
      }
      assert localFiles[..|localFiles|] == localFiles;
    }

    /** The loop over the remote entries left unmatched, downloading each into the local directory. */
    method DownloadLeftovers(pending: seq<string>, remote: map<string, RemoteFile>, localParentDir: Path)
      returns (log: seq<Action>)
      requires forall n :: n in pending ==> n in remote
      modifies this
      ensures log == LeftoverLog(pending, remote, localParentDir)
      ensures remoteFileIds == LeftoverIds(old(remoteFileIds), pending, remote)
    {
      log := [];
      for k := 0 to |pending|
        invariant log == LeftoverLog(pending[..k], remote, localParentDir)
        invariant remoteFileIds == LeftoverIds(old(remoteFileIds), pending[..k], remote)
      {
        var name := pending[k];
        assert pending[..k + 1][..k] == pending[..k];
        var file := remote[name];
        assert pending[..k + 1][k] == name;
        log := log + [CopyRemoteFileToLocal(Paths.PathJoin(localParentDir, name), file.id)];
        assert LeftoverIds(old(remoteFileIds), pending[..k + 1], remote) == old(remoteFileIds)[NoInode := file.id];
        remoteFileIds := remoteFileIds[NoInode := file.id];
      }
      assert pending[..|pending|] == pending;
    }
  }
}
