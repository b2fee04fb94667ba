/**
 * The folder tree of the NCTools database: grouping the `Folders` rows into a node table and
 * child lists, and the preorder walk that turns the subtree under a root folder into path
 * records (`folders.py`).
 */
module Folders {
  import opened Wrappers
  import opened PyBuiltins

  /** One row of the `Folders` table, after conversion; the GUID is already rendered as text. */
  datatype FolderRow = FolderRow(
    folderId: int,
    parentId: Option<int>,
    name: string,
    objGuid: Option<string>,
    comment: Option<string>)

  /** One output record of the walk: the joined path, its depth and the node's own fields. */
  datatype PathRecord = PathRecord(
    path: string,
    depth: nat,
    name: string,
    objGuid: Option<string>,
    comment: Option<string>)

  /** `nodes[node_id]` of a missing id raises KeyError; a walk deeper than the interpreter allows raises RecursionError. */
  datatype WalkError = UnknownFolder(id: int) | TooDeep

  // ------------------------------------------------------------ grouping the rows

  /** `dict.get(key, [])` */
  function Get(children: map<Option<int>, seq<int>>, key: Option<int>): seq<int> {
    if key in children then children[key] else []
  }

  /** The node table after the rows so far: each row stored under its id, a later row replacing an earlier one. */
  function NodesOf(rows: seq<FolderRow>): map<int, FolderRow> {
    if rows == [] then map[]
    else
      var last := rows[|rows| - 1];
      NodesOf(rows[..|rows| - 1])[last.folderId := last]
  }

  /** The child lists after the rows so far: `setdefault(parent_id, []).append(folder_id)`. */
  function ChildrenOf(rows: seq<FolderRow>): map<Option<int>, seq<int>> {
    if rows == [] then map[]
    else
      var last := rows[|rows| - 1];
      var m := ChildrenOf(rows[..|rows| - 1]);
      m[last.parentId := Get(m, last.parentId) + [last.folderId]]
  }

  /** Reference definition: the ids of the rows whose parent is `p`, in row order. */
  function ChildIds(rows: seq<FolderRow>, p: Option<int>): seq<int> {
    if rows == [] then []
    else (if rows[0].parentId == p then [rows[0].folderId] else []) + ChildIds(rows[1..], p)
  }

  /** The grouping loop of `_fetch_folders`, over rows already read from the table. */
  method FetchFolders(rows: seq<FolderRow>) returns (nodes: map<int, FolderRow>, children: map<Option<int>, seq<int>>)
    ensures nodes == NodesOf(rows) && children == ChildrenOf(rows)
  {
    nodes, children := map[], map[];
    for i := 0 to |rows|
      invariant nodes == NodesOf(rows[..i]) && children == ChildrenOf(rows[..i])
    {
      var row := rows[i];
      assert rows[..i + 1][..i] == rows[..i];
      nodes := nodes[row.folderId := row];
      children := children[row.parentId := Get(children, row.parentId) + [row.folderId]];
    }
    assert rows[..|rows|] == rows;
  }

  lemma {:induction false} ChildIdsSnoc(rows: seq<FolderRow>, row: FolderRow, p: Option<int>)
    ensures ChildIds(rows + [row], p) == ChildIds(rows, p) + (if row.parentId == p then [row.folderId] else [])
  {
    if rows != [] {
      assert (rows + [row])[1..] == rows[1..] + [row];
      ChildIdsSnoc(rows[1..], row, p);
    }
  }

  /** Each child list holds the ids of the rows naming that parent, in row order (empty for a parent no row names). */
  lemma {:induction false} ChildrenInRowOrder(rows: seq<FolderRow>, p: Option<int>)
    ensures Get(ChildrenOf(rows), p) == ChildIds(rows, p)
  {
    if rows != [] {
      var init, last := rows[..|rows| - 1], rows[|rows| - 1];
      assert rows == init + [last];
      ChildrenInRowOrder(init, p);
      ChildIdsSnoc(init, last, p);
    }
  }

  /** A parent has a child list exactly when some row names it. */
  lemma {:induction false} ChildKeys(rows: seq<FolderRow>, p: Option<int>)
    ensures p in ChildrenOf(rows) <==> exists i :: 0 <= i < |rows| && rows[i].parentId == p
  {
    if rows != [] {
      var init, last := rows[..|rows| - 1], rows[|rows| - 1];
      ChildKeys(init, p);
      if p in ChildrenOf(init) {
        var i :| 0 <= i < |init| && init[i].parentId == p;
        assert rows[i].parentId == p;
      }
      if exists i :: 0 <= i < |rows| && rows[i].parentId == p {
        var i :| 0 <= i < |rows| && rows[i].parentId == p;
        if i < |init| {
          assert init[i].parentId == p;
        }
      }
    }
  }

  /** The node table holds exactly the ids of the rows, each under its own id, the last row with that id winning. */
  lemma {:induction false} NodesKeyedById(rows: seq<FolderRow>, k: int)
    ensures k in NodesOf(rows) <==> exists i :: 0 <= i < |rows| && rows[i].folderId == k
    ensures k in NodesOf(rows) ==>
      exists i :: (0 <= i < |rows| && NodesOf(rows)[k] == rows[i] && rows[i].folderId == k
        && forall j :: i < j < |rows| ==> rows[j].folderId != k)
  {
    if rows != [] {
      var init, last := rows[..|rows| - 1], rows[|rows| - 1];
      NodesKeyedById(init, k);
      if last.folderId == k {
        assert NodesOf(rows)[k] == rows[|rows| - 1];
      } else {
        if exists i :: 0 <= i < |rows| && rows[i].folderId == k {
          var i :| 0 <= i < |rows| && rows[i].folderId == k;
          assert init[i].folderId == k;
        }
        if k in NodesOf(rows) {
          var i :| 0 <= i < |init| && NodesOf(init)[k] == init[i] && init[i].folderId == k
            && forall j :: i < j < |init| ==> init[j].folderId != k;
          assert NodesOf(rows)[k] == rows[i] && rows[i].folderId == k;
        }
      }
    }
  }

  // ------------------------------------------------------------ the subtree walk

  /** The record `walk` appends for a node reached through the names `names` (the node's own name last). */
  function RecordFor(node: FolderRow, sep: string, names: seq<string>): PathRecord {
    PathRecord(Join(sep, names), |names|, node.name, node.objGuid, node.comment)
  }

  /**
   * `walk(node_id, stack)` with `fuel` calls left before the recursion limit: the node's record,
   * then the records of its children in list order.
   */
  function Subtree(nodes: map<int, FolderRow>, children: map<Option<int>, seq<int>>, sep: string,
                   id: int, stack: seq<string>, fuel: nat): Result<seq<PathRecord>, WalkError>
    decreases fuel, 0, 0
  {
    if fuel == 0 then Failure(TooDeep)
    else if id !in nodes then Failure(UnknownFolder(id))
    else
      var node := nodes[id];
      var names := stack + [node.name];
      match Forest(nodes, children, sep, Get(children, Some(id)), names, fuel - 1)
      case Success(rs) => Success([RecordFor(node, sep, names)] + rs)
      case Failure(e) => Failure(e)
  }

  /** The loop `for child_id in ids: walk(child_id, stack)`: the subtrees one after another, stopping at the first error. */
  function Forest(nodes: map<int, FolderRow>, children: map<Option<int>, seq<int>>, sep: string,
                  ids: seq<int>, stack: seq<string>, fuel: nat): Result<seq<PathRecord>, WalkError>
    decreases fuel, 1, |ids|
  {
    if ids == [] then Success([])
    else
      match Forest(nodes, children, sep, ids[..|ids| - 1], stack, fuel)
      case Failure(e) => Failure(e)
      case Success(before) =>
        match Subtree(nodes, children, sep, ids[|ids| - 1], stack, fuel)
        case Failure(e) => Failure(e)
        case Success(rs) => Success(before + rs)
  }

  /** `_collect_subtree_paths(nodes, children, root_id, sep)`: the walks of the root's children with an empty stack. */
  function Collected(nodes: map<int, FolderRow>, children: map<Option<int>, seq<int>>, root: int,
                     sep: string, fuel: nat): Result<seq<PathRecord>, WalkError>
  {
    Forest(nodes, children, sep, Get(children, Some(root)), [], fuel)
  }

  /** Extending the child loop by one child combines the prefix's records with that child's subtree. */
  lemma ForestNext(nodes: map<int, FolderRow>, children: map<Option<int>, seq<int>>, sep: string,
                   ids: seq<int>, i: nat, stack: seq<string>, fuel: nat)
    requires i < |ids|
    ensures Forest(nodes, children, sep, ids[..i + 1], stack, fuel)
      == match Forest(nodes, children, sep, ids[..i], stack, fuel)
         case Failure(e) => Failure(e)
         case Success(before) =>
           match Subtree(nodes, children, sep, ids[i], stack, fuel)
           case Failure(e) => Failure(e)
           case Success(rs) => Success(before + rs)
  {
    assert ids[..i + 1][..i] == ids[..i];
  }

  /** Once the child loop has failed, the rest of the children do not run and the error is the result. */
  lemma {:induction false} ForestFailureStays(nodes: map<int, FolderRow>, children: map<Option<int>, seq<int>>, sep: string,
                                              ids: seq<int>, m: nat, stack: seq<string>, fuel: nat)
    requires m <= |ids| && Forest(nodes, children, sep, ids[..m], stack, fuel).Failure?
    ensures Forest(nodes, children, sep, ids, stack, fuel) == Forest(nodes, children, sep, ids[..m], stack, fuel)
    decreases |ids| - m
  {
    if m < |ids| {
      ForestNext(nodes, children, sep, ids, m, stack, fuel);
      ForestFailureStays(nodes, children, sep, ids, m + 1, stack, fuel);
    } else {
      assert ids[..m] == ids;
    }
  }

  /** A successful child loop starts with the records of every shorter prefix of its children. */
  lemma {:induction false} ForestPrefix(nodes: map<int, FolderRow>, children: map<Option<int>, seq<int>>, sep: string,
                                        ids: seq<int>, m: nat, stack: seq<string>, fuel: nat)
    requires m <= |ids| && Forest(nodes, children, sep, ids, stack, fuel).Success?
    ensures Forest(nodes, children, sep, ids[..m], stack, fuel).Success?
    ensures Forest(nodes, children, sep, ids[..m], stack, fuel).value <= Forest(nodes, children, sep, ids, stack, fuel).value
    decreases |ids| - m
  {
    if m == |ids| {
      assert ids[..m] == ids;
    } else {
      ForestPrefix(nodes, children, sep, ids, m + 1, stack, fuel);
      ForestNext(nodes, children, sep, ids, m, stack, fuel);
    }
  }

  /**
   * In a successful child loop, child `k`'s subtree succeeds and its records sit right after those
   * of the children before it.
   */
  lemma ForestSegment(nodes: map<int, FolderRow>, children: map<Option<int>, seq<int>>, sep: string,
                      ids: seq<int>, k: nat, stack: seq<string>, fuel: nat)
    requires k < |ids| && Forest(nodes, children, sep, ids, stack, fuel).Success?
    ensures Forest(nodes, children, sep, ids[..k], stack, fuel).Success?
    ensures Subtree(nodes, children, sep, ids[k], stack, fuel).Success?
    ensures
      var rs := Forest(nodes, children, sep, ids, stack, fuel).value;
      var off := |Forest(nodes, children, sep, ids[..k], stack, fuel).value|;
      var sub := Subtree(nodes, children, sep, ids[k], stack, fuel).value;
      off + |sub| <= |rs| && rs[off..off + |sub|] == sub
  {
    ForestPrefix(nodes, children, sep, ids, k + 1, stack, fuel);
    ForestNext(nodes, children, sep, ids, k, stack, fuel);
  }

  /** A successful walk starts with the node's own record: its path joins the stack and its name, its depth is one more than the stack's. */
  lemma SubtreeHead(nodes: map<int, FolderRow>, children: map<Option<int>, seq<int>>, sep: string,
                    id: int, stack: seq<string>, fuel: nat)
    requires Subtree(nodes, children, sep, id, stack, fuel).Success?
    ensures id in nodes
    ensures
      var rs := Subtree(nodes, children, sep, id, stack, fuel).value;
      rs != [] && rs[0].path == Join(sep, stack + [nodes[id].name]) && rs[0].depth == |stack| + 1
      && rs[0].name == nodes[id].name && rs[0].objGuid == nodes[id].objGuid && rs[0].comment == nodes[id].comment
  {
  }

  /** A child id missing from the node table makes the whole child loop fail (KeyError), unless the budget runs out first. */
  lemma MissingChildFails(nodes: map<int, FolderRow>, children: map<Option<int>, seq<int>>, sep: string,
                          ids: seq<int>, k: nat, stack: seq<string>, fuel: nat)
    requires k < |ids| && ids[k] !in nodes
    ensures Forest(nodes, children, sep, ids, stack, fuel).Failure?
  {
    if Forest(nodes, children, sep, ids, stack, fuel).Success? {
      ForestSegment(nodes, children, sep, ids, k, stack, fuel);
      SubtreeHead(nodes, children, sep, ids[k], stack, fuel);
    }
  }

  /** Every record of a successful walk lies below the stack: deeper than the stack, and its path extends the stack's path and a separator. */
  lemma {:induction false} SubtreeBelow(nodes: map<int, FolderRow>, children: map<Option<int>, seq<int>>, sep: string,
                                        id: int, stack: seq<string>, fuel: nat)
    requires Subtree(nodes, children, sep, id, stack, fuel).Success?
    ensures forall r :: r in Subtree(nodes, children, sep, id, stack, fuel).value ==>
      r.depth > |stack| && (stack != [] ==> Join(sep, stack) + sep <= r.path)
    decreases fuel, 0, 0
  {
    var node := nodes[id];
    var names := stack + [node.name];
    var kids := Get(children, Some(id));
    ForestBelow(nodes, children, sep, kids, names, fuel - 1);
    if stack != [] {
      JoinSnoc(sep, stack, node.name);
    }
    var rs := Subtree(nodes, children, sep, id, stack, fuel).value;
    var tail := Forest(nodes, children, sep, kids, names, fuel - 1).value;
    assert rs == [RecordFor(node, sep, names)] + tail;
    forall r | r in rs
      ensures r.depth > |stack| && (stack != [] ==> Join(sep, stack) + sep <= r.path)
    {
      if r in tail && stack != [] {
        assert Join(sep, names) + sep <= r.path;
        assert Join(sep, names) == Join(sep, stack) + sep + node.name;
        assert Join(sep, stack) + sep <= Join(sep, names) + sep;
      }
    }
  }

  lemma {:induction false} ForestBelow(nodes: map<int, FolderRow>, children: map<Option<int>, seq<int>>, sep: string,
                                       ids: seq<int>, stack: seq<string>, fuel: nat)
    requires Forest(nodes, children, sep, ids, stack, fuel).Success?
    ensures forall r :: r in Forest(nodes, children, sep, ids, stack, fuel).value ==>
      r.depth > |stack| && (stack != [] ==> Join(sep, stack) + sep <= r.path)
    decreases fuel, 1, |ids|
  {
    if ids != [] {
      ForestBelow(nodes, children, sep, ids[..|ids| - 1], stack, fuel);
      SubtreeBelow(nodes, children, sep, ids[|ids| - 1], stack, fuel);
    }
  }

  /** Every record of `_collect_subtree_paths` has depth at least one. */
  lemma CollectedDepths(nodes: map<int, FolderRow>, children: map<Option<int>, seq<int>>, root: int, sep: string, fuel: nat)
    requires Collected(nodes, children, root, sep, fuel).Success?
    ensures forall r :: r in Collected(nodes, children, root, sep, fuel).value ==> r.depth >= 1
  {
    ForestBelow(nodes, children, sep, Get(children, Some(root)), [], fuel);
  }

  /**
   * Each child of a walked node has its record after the node's own, with the node's path, the
   * separator and the child's name as its path, and one more level of depth.
   */
  lemma ChildAfterParent(nodes: map<int, FolderRow>, children: map<Option<int>, seq<int>>, sep: string,
                         id: int, stack: seq<string>, fuel: nat, k: nat)
    requires Subtree(nodes, children, sep, id, stack, fuel).Success?
    requires k < |Get(children, Some(id))|
    ensures
      var rs := Subtree(nodes, children, sep, id, stack, fuel).value;
      var c := Get(children, Some(id))[k];
      c in nodes &&
      exists j :: (0 < j < |rs| && rs[j].path == rs[0].path + sep + nodes[c].name
        && rs[j].depth == rs[0].depth + 1 && rs[j].name == nodes[c].name)
  {
    var node := nodes[id];
    var names := stack + [node.name];
    var kids := Get(children, Some(id));
    var rs := Subtree(nodes, children, sep, id, stack, fuel).value;
    var tail := Forest(nodes, children, sep, kids, names, fuel - 1).value;
    ForestSegment(nodes, children, sep, kids, k, names, fuel - 1);
    var off := |Forest(nodes, children, sep, kids[..k], names, fuel - 1).value|;
    var sub := Subtree(nodes, children, sep, kids[k], names, fuel - 1).value;
    SubtreeHead(nodes, children, sep, kids[k], names, fuel - 1);
    JoinSnoc(sep, names, nodes[kids[k]].name);
    assert rs == [RecordFor(node, sep, names)] + tail;
    assert tail[off] == sub[0];
    assert rs[off + 1] == sub[0];
  }

  /** The children's records come in the order of the child list: a later child's records start strictly later. */
  lemma ChildrenInListOrder(nodes: map<int, FolderRow>, children: map<Option<int>, seq<int>>, sep: string,
                            ids: seq<int>, k1: nat, k2: nat, stack: seq<string>, fuel: nat)
    requires k1 < k2 < |ids| && Forest(nodes, children, sep, ids, stack, fuel).Success?
    ensures Forest(nodes, children, sep, ids[..k1], stack, fuel).Success?
    ensures Forest(nodes, children, sep, ids[..k2], stack, fuel).Success?
    ensures |Forest(nodes, children, sep, ids[..k1], stack, fuel).value| < |Forest(nodes, children, sep, ids[..k2], stack, fuel).value|
  {
    ForestSegment(nodes, children, sep, ids, k1, stack, fuel);
    ForestPrefix(nodes, children, sep, ids, k2, stack, fuel);
    ForestPrefix(nodes, children, sep, ids[..k2], k1 + 1, stack, fuel);
    assert ids[..k2][..k1 + 1] == ids[..k1 + 1];
    ForestNext(nodes, children, sep, ids, k1, stack, fuel);
    SubtreeHead(nodes, children, sep, ids[k1], stack, fuel);
  }

  /** Reference definition: the ids the walk visits, in preorder. */
  ghost function Visits(nodes: map<int, FolderRow>, children: map<Option<int>, seq<int>>, id: int, fuel: nat): seq<int>
    decreases fuel, 0, 0
  {
    if fuel == 0 || id !in nodes then []
    else [id] + VisitsAll(nodes, children, Get(children, Some(id)), fuel - 1)
  }

  ghost function VisitsAll(nodes: map<int, FolderRow>, children: map<Option<int>, seq<int>>, ids: seq<int>, fuel: nat): seq<int>
    decreases fuel, 1, |ids|
  {
    if ids == [] then []
    else VisitsAll(nodes, children, ids[..|ids| - 1], fuel) + Visits(nodes, children, ids[|ids| - 1], fuel)
  }

  /** Record `k` of a successful walk describes the `k`-th visited node: exactly one record per visit, in preorder. */
  lemma {:induction false} SubtreeOnePerVisit(nodes: map<int, FolderRow>, children: map<Option<int>, seq<int>>, sep: string,
                                              id: int, stack: seq<string>, fuel: nat)
    requires Subtree(nodes, children, sep, id, stack, fuel).Success?
    ensures
      var rs := Subtree(nodes, children, sep, id, stack, fuel).value;
      var vs := Visits(nodes, children, id, fuel);
      |rs| == |vs| &&
      forall k :: 0 <= k < |rs| ==>
        (vs[k] in nodes && rs[k].name == nodes[vs[k]].name
         && rs[k].objGuid == nodes[vs[k]].objGuid && rs[k].comment == nodes[vs[k]].comment)
    decreases fuel, 0, 0
  {
    var names := stack + [nodes[id].name];
    ForestOnePerVisit(nodes, children, sep, Get(children, Some(id)), names, fuel - 1);
  }

  lemma {:induction false} ForestOnePerVisit(nodes: map<int, FolderRow>, children: map<Option<int>, seq<int>>, sep: string,
                                             ids: seq<int>, stack: seq<string>, fuel: nat)
    requires Forest(nodes, children, sep, ids, stack, fuel).Success?
    ensures
      var rs := Forest(nodes, children, sep, ids, stack, fuel).value;
      var vs := VisitsAll(nodes, children, ids, fuel);
      |rs| == |vs| &&
      forall k :: 0 <= k < |rs| ==>
        (vs[k] in nodes && rs[k].name == nodes[vs[k]].name
         && rs[k].objGuid == nodes[vs[k]].objGuid && rs[k].comment == nodes[vs[k]].comment)
    decreases fuel, 1, |ids|
  {
    if ids != [] {
      ForestOnePerVisit(nodes, children, sep, ids[..|ids| - 1], stack, fuel);
      SubtreeOnePerVisit(nodes, children, sep, ids[|ids| - 1], stack, fuel);
    }
  }

  /** `_collect_subtree_paths` gives one record per node visited under the root, in preorder. */
  lemma CollectedOnePerVisit(nodes: map<int, FolderRow>, children: map<Option<int>, seq<int>>, root: int, sep: string, fuel: nat)
    requires Collected(nodes, children, root, sep, fuel).Success?
    ensures
      var rs := Collected(nodes, children, root, sep, fuel).value;
      var vs := VisitsAll(nodes, children, Get(children, Some(root)), fuel);
      |rs| == |vs| && forall k :: 0 <= k < |rs| ==> vs[k] in nodes && rs[k].name == nodes[vs[k]].name
  {
    ForestOnePerVisit(nodes, children, sep, Get(children, Some(root)), [], fuel);
  }

  /** A larger recursion budget does not change a walk that already succeeds. */
  lemma {:induction false} SubtreeMoreFuel(nodes: map<int, FolderRow>, children: map<Option<int>, seq<int>>, sep: string,
                                           id: int, stack: seq<string>, fuel: nat, more: nat)
    requires Subtree(nodes, children, sep, id, stack, fuel).Success? && more >= fuel
    ensures Subtree(nodes, children, sep, id, stack, more) == Subtree(nodes, children, sep, id, stack, fuel)
    decreases fuel, 0, 0
  {
    var names := stack + [nodes[id].name];
    ForestMoreFuel(nodes, children, sep, Get(children, Some(id)), names, fuel - 1, more - 1);
  }

  lemma {:induction false} ForestMoreFuel(nodes: map<int, FolderRow>, children: map<Option<int>, seq<int>>, sep: string,
                                          ids: seq<int>, stack: seq<string>, fuel: nat, more: nat)
    requires Forest(nodes, children, sep, ids, stack, fuel).Success? && more >= fuel
    ensures Forest(nodes, children, sep, ids, stack, more) == Forest(nodes, children, sep, ids, stack, fuel)
    decreases fuel, 1, |ids|
  {
    if ids != [] {
      ForestMoreFuel(nodes, children, sep, ids[..|ids| - 1], stack, fuel, more);
      SubtreeMoreFuel(nodes, children, sep, ids[|ids| - 1], stack, fuel, more);
    }
  }

  /** The walk's shared state: the tables it reads and the `records` list it appends to. */
  class PathCollector {
    const nodes: map<int, FolderRow>
    const children: map<Option<int>, seq<int>>
    const sep: string
    var records: seq<PathRecord>

    constructor(nodes: map<int, FolderRow>, children: map<Option<int>, seq<int>>, sep: string)
      ensures this.nodes == nodes && this.children == children && this.sep == sep && records == []
    {
      this.nodes, this.children, this.sep := nodes, children, sep;
      records := [];
    }

    /** `walk(node_id, stack)`: appends the subtree's records, or reports the error that stops it. */
    method Walk(id: int, stack: seq<string>, fuel: nat) returns (err: Option<WalkError>)
      modifies this
      decreases fuel, 0
      ensures
        match Subtree(nodes, children, sep, id, stack, fuel)
        case Success(rs) => err == None && records == old(records) + rs
        // On failure `records` is left unspecified: the exception discards the list.
        case Failure(e) => err == Some(e)
    {
      if fuel == 0 {
        return Some(TooDeep);
      }
      if id !in nodes {
        return Some(UnknownFolder(id));
      }
      var node := nodes[id];
      var names := stack + [node.name];
      records := records + [RecordFor(node, sep, names)];
      err := WalkEach(Get(children, Some(id)), names, fuel - 1);
    }

    /** `for child_id in ids: walk(child_id, stack)` */
    method WalkEach(ids: seq<int>, stack: seq<string>, fuel: nat) returns (err: Option<WalkError>)
      modifies this
      decreases fuel, 1
      ensures
        match Forest(nodes, children, sep, ids, stack, fuel)
        case Success(rs) => err == None && records == old(records) + rs
        // On failure `records` is left unspecified: the exception discards the list.
        case Failure(e) => err == Some(e)
    {
      var i := 0;
      while i < |ids|
        invariant 0 <= i <= |ids|
        invariant Forest(nodes, children, sep, ids[..i], stack, fuel).Success?
        invariant records == old(records) + Forest(nodes, children, sep, ids[..i], stack, fuel).value
      {
        var before := records;
        ForestNext(nodes, children, sep, ids, i, stack, fuel);
        var e := Walk(ids[i], stack, fuel);
        if e.Some? {
          ForestFailureStays(nodes, children, sep, ids, i + 1, stack, fuel);
          return e;
        }
        i := i + 1;
      }
      assert ids[..i] == ids;
      return None;
    }
  }

  /** `_collect_subtree_paths(nodes, children, root_id, sep)` with a recursion budget of `fuel` calls. */
  method CollectSubtreePaths(nodes: map<int, FolderRow>, children: map<Option<int>, seq<int>>, root: int,
                             sep: string, fuel: nat) returns (r: Result<seq<PathRecord>, WalkError>)
    ensures r == Collected(nodes, children, root, sep, fuel)
  {
    var collector := new PathCollector(nodes, children, sep);
    var err := collector.WalkEach(Get(children, Some(root)), [], fuel);
    assert collector.nodes == nodes && collector.children == children && collector.sep == sep;
    if err.Some? {
      assert Collected(nodes, children, root, sep, fuel).Failure?;
      r := Failure(err.value);
    } else {
      assert Collected(nodes, children, root, sep, fuel).Success?;
      assert collector.records == Collected(nodes, children, root, sep, fuel).value;
      r := Success(collector.records);
    }
  }
}
