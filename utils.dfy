/**
 * The remote-listing helpers of `utils`: `get_remote_files_from_dir` follows
 * page tokens and concatenates the pages, `get_remote_dir` resolves a path one
 * segment at a time, and `check_and_get_service` reuses a given service. The
 * remote service is an oracle passed as a function; each helper also returns
 * the requests it sent, in order.
 */
module Utils {
  import opened Wrappers
  import opened Identifiers

  type PageToken = string

  /** One response of `list_drive_files`: its `files` and its `nextPageToken`, if any. */
  datatype Page<F> = Page(files: seq<F>, nextPageToken: Option<PageToken>)

  /**
   * The files collected (None when the recursion ran past `depth` calls, as
   * Python's recursion limit stops it) and the page tokens requested, in order.
   */
  datatype Listing<F> = Listing(files: Option<seq<F>>, requests: seq<Option<PageToken>>)

  /**
   * `get_remote_files_from_dir(service, parent, nextPageToken)`, where
   * `list(parent, token)` is the page the service returns for the query on the
   * children of `parent` with that page token.
   */
  function GetRemoteFilesFromDir<F>(list: (RemoteId, Option<PageToken>) -> Page<F>, parent: RemoteId,
                                    token: Option<PageToken>, depth: nat): (r: Listing<F>)
    ensures |r.requests| <= depth
    ensures depth > 0 ==> |r.requests| >= 1 && r.requests[0] == token
    ensures forall k :: 0 <= k < |r.requests| - 1 ==> list(parent, r.requests[k]).nextPageToken == r.requests[k + 1]
    decreases depth
  {
    if depth == 0 then Listing(None, [])
    else
      var page := list(parent, token);
      match page.nextPageToken
      case None => Listing(Some(page.files), [token])
      case Some(next) =>
        var rest := GetRemoteFilesFromDir(list, parent, Some(next), depth - 1);
        Listing(if rest.files.Some? then Some(page.files + rest.files.value) else None, [token] + rest.requests)
  }

  /** The files of the pages answering `tokens`, in page order. */
  function PagesFiles<F>(list: (RemoteId, Option<PageToken>) -> Page<F>, parent: RemoteId,
                         tokens: seq<Option<PageToken>>): seq<F>
    decreases |tokens|
  {
    if tokens == [] then [] else list(parent, tokens[0]).files + PagesFiles(list, parent, tokens[1..])
  }

  /** A chain of pages: each page's token leads to the next, and only the last page has none. */
  predicate IsPageChain<F>(list: (RemoteId, Option<PageToken>) -> Page<F>, parent: RemoteId, tokens: seq<Option<PageToken>>)
    decreases |tokens|
  {
    && |tokens| >= 1
    && if |tokens| == 1 then list(parent, tokens[0]).nextPageToken.None?
       else list(parent, tokens[0]).nextPageToken == tokens[1] && tokens[1].Some? && IsPageChain(list, parent, tokens[1..])
  }

  /**
   * Starting from a token whose pages form a chain that fits the recursion depth,
   * the requests are exactly the chain's tokens and the result is the first
   * page's files followed by all later pages' files, in page order.
   */
  lemma {:induction false} PaginationFollowsChain<F>(list: (RemoteId, Option<PageToken>) -> Page<F>, parent: RemoteId,
                                                     tokens: seq<Option<PageToken>>, depth: nat)
    requires IsPageChain(list, parent, tokens)
    requires |tokens| <= depth
    ensures GetRemoteFilesFromDir(list, parent, tokens[0], depth)
            == Listing(Some(PagesFiles(list, parent, tokens)), tokens)
    decreases |tokens|
  {
    var page := list(parent, tokens[0]);
    if |tokens| == 1 {
      assert PagesFiles(list, parent, tokens) == page.files + PagesFiles(list, parent, tokens[1..]);
      assert page.files + [] == page.files;
    } else {
      PaginationFollowsChain(list, parent, tokens[1..], depth - 1);
      assert PagesFiles(list, parent, tokens) == page.files + PagesFiles(list, parent, tokens[1..]);
      assert [tokens[0]] + tokens[1..] == tokens;
    }
  }

  /** A service with two pages of children: the first page carries a token that leads to the second. */
  function TwoPages(parent: RemoteId, token: Option<PageToken>): Page<string>
  {
    if token == None then Page(["file1", "file2"], Some("nextPageToken")) else Page(["file3", "file4"], None)
  }

  /** Listing the two pages requests no token and then the first page's token, and returns all four files in order. */
  lemma TwoPagesExample()
    ensures GetRemoteFilesFromDir(TwoPages, "test_parent_dir_id", None, 2)
            == Listing(Some(["file1", "file2", "file3", "file4"]), [None, Some("nextPageToken")])
  {
    var tokens: seq<Option<PageToken>> := [None, Some("nextPageToken")];
    assert IsPageChain(TwoPages, "test_parent_dir_id", tokens[1..]);
    PaginationFollowsChain(TwoPages, "test_parent_dir_id", tokens, 2);
    assert PagesFiles(TwoPages, "test_parent_dir_id", tokens[1..][1..]) == [];
    assert PagesFiles(TwoPages, "test_parent_dir_id", tokens) == ["file1", "file2"] + (["file3", "file4"] + []);
    assert ["file1", "file2"] + (["file3", "file4"] + []) == ["file1", "file2", "file3", "file4"];
  }

  /** A folder entry as `get_remote_dir` returns it: `id` and `modifiedTime`. */
  datatype RemoteDir = RemoteDir(id: RemoteId, modifiedTime: string)

  /** One query sent by `get_remote_dir`: the children of `parentId` named `name`. */
  datatype Query = Query(parentId: RemoteId, name: string)

  /** The entry found (None where Python raises IndexError) and the queries sent, in order. */
  datatype Resolution = Resolution(entry: Option<RemoteDir>, queries: seq<Query>)

  /**
   * `get_remote_dir(service, parent, dir_list)`, where `query(parent, name)` is
   * the list of entries the service returns for that query. It needs a non-empty
   * path and a match for every segment; otherwise it fails on indexing.
   */
  function GetRemoteDir(query: (RemoteId, string) -> seq<RemoteDir>, parentDirId: RemoteId, dirList: seq<string>): (r: Resolution)
    ensures |r.queries| <= |dirList|
    ensures r.entry.Some? ==> |r.queries| == |dirList|
    ensures dirList == [] ==> r == Resolution(None, [])
    ensures dirList != [] ==> |r.queries| >= 1 && r.queries[0] == Query(parentDirId, dirList[0])
    decreases |dirList|
  {
    if dirList == [] then Resolution(None, [])
    else
      var files := query(parentDirId, dirList[0]);
      if files == [] then Resolution(None, [Query(parentDirId, dirList[0])])
      else if |dirList| == 1 then Resolution(Some(files[0]), [Query(parentDirId, dirList[0])])
      else
        var rest := GetRemoteDir(query, files[0].id, dirList[1..]);
        Resolution(rest.entry, [Query(parentDirId, dirList[0])] + rest.queries)
  }

  /**
   * `ids` is the chain of folders a lookup of `dirs` descends through from
   * `ids[0]`: each later folder is the first match of the previous segment.
   */
  predicate DescendsTo(query: (RemoteId, string) -> seq<RemoteDir>, dirs: seq<string>, ids: seq<RemoteId>)
    decreases |dirs|
  {
    && |ids| == |dirs| + 1
    && (dirs != [] ==>
          && query(ids[0], dirs[0]) != []
          && ids[1] == query(ids[0], dirs[0])[0].id
          && DescendsTo(query, dirs[1..], ids[1..]))
  }

  /**
   * When every segment matches, the lookup descends through the first match of
   * each segment, sends one query per segment, and returns the first matching
   * entry (not only its id) for the last segment.
   */
  lemma {:induction false} GetRemoteDirDescends(query: (RemoteId, string) -> seq<RemoteDir>, dirList: seq<string>, ids: seq<RemoteId>)
    requires |dirList| >= 1
    requires DescendsTo(query, dirList[..|dirList| - 1], ids)
    requires query(ids[|ids| - 1], dirList[|dirList| - 1]) != []
    ensures var r := GetRemoteDir(query, ids[0], dirList);
      && r.entry == Some(query(ids[|ids| - 1], dirList[|dirList| - 1])[0])
      && |r.queries| == |dirList|
      && forall k :: 0 <= k < |dirList| ==> r.queries[k] == Query(ids[k], dirList[k])
    decreases |dirList|
  {
    if |dirList| > 1 {
      var restDirs, restIds := dirList[1..], ids[1..];
      assert dirList[..|dirList| - 1][1..] == restDirs[..|restDirs| - 1];
      GetRemoteDirDescends(query, restDirs, restIds);
      var r := GetRemoteDir(query, ids[0], dirList);
      var rest := GetRemoteDir(query, ids[1], restDirs);
      assert r.queries == [Query(ids[0], dirList[0])] + rest.queries;
      forall k | 0 <= k < |dirList| ensures r.queries[k] == Query(ids[k], dirList[k]) {
        if k > 0 { assert r.queries[k] == rest.queries[k - 1]; }
      }
    }
  }

  /**
   * When the segments before `k` match and segment `k` has no match, the lookup
   * fails after exactly `k + 1` queries.
   */
  lemma {:induction false} GetRemoteDirFailsAtMissingSegment(query: (RemoteId, string) -> seq<RemoteDir>, dirList: seq<string>,
                                                            ids: seq<RemoteId>, k: nat)
    requires k < |dirList|
    requires DescendsTo(query, dirList[..k], ids)
    requires query(ids[k], dirList[k]) == []
    ensures var r := GetRemoteDir(query, ids[0], dirList); r.entry == None && |r.queries| == k + 1
    decreases k
  {
    if k > 0 {
      assert dirList[..k][1..] == dirList[1..][..k - 1];
      GetRemoteDirFailsAtMissingSegment(query, dirList[1..], ids[1..], k - 1);
    }
  }

  /** A service holding folder `dir1` under `root` and folder `dir2` under `dir1`. */
  function TwoLevels(parentId: RemoteId, name: string): seq<RemoteDir>
  {
    if parentId == "root" && name == "dir1" then [RemoteDir("id_1", "modifiedTime_1")]
    else if parentId == "id_1" && name == "dir2" then [RemoteDir("id_2", "modifiedTime_1")]
    else []
  }

  /** Resolving `dir1/dir2` from `root` queries `dir1` under `root`, then `dir2` under `id_1`, and returns the `dir2` entry. */
  lemma TwoLevelsExample()
    ensures GetRemoteDir(TwoLevels, "root", ["dir1", "dir2"])
            == Resolution(Some(RemoteDir("id_2", "modifiedTime_1")), [Query("root", "dir1"), Query("id_1", "dir2")])
  {
    var dirs := ["dir1", "dir2"];
    GetRemoteDirDescends(TwoLevels, dirs, ["root", "id_1"]);
  }

  /** `check_and_get_service`: a given (truthy) service is returned, a missing one is replaced by a newService one. */
  function CheckAndGetService<S>(service: Option<S>, newService: S): (checked: S)
    ensures service.Some? ==> checked == service.value
    ensures service.None? ==> checked == newService
  {
    if service.None? then newService else service.value
  }

  /** Checking the service a check returned gives it back unchanged. */
  lemma CheckAndGetServiceIdempotent<S>(service: Option<S>, newService: S, another: S)
    ensures CheckAndGetService(Some(CheckAndGetService(service, newService)), another) == CheckAndGetService(service, newService)
  {
  }
}
