/** The tree work specific to the dataset page: the record delimiter taken
    from the dataset info, `setDelim`'s classification of the nodes,
    `filterSourcePath`'s pruning and the descent along the route path. */
module DatasetTree {
  import opened Js
  import opened StructureTree

  // ------------------------------------------------- delimiter from the info

  /** The delimiter part of the dataset info, when the dataset has one. */
  datatype Delimit = Delimit(recordRoot: Option<string>, uniqueId: Option<string>)

  /** What `datasetInfo` tells about the record delimiter. */
  datatype DatasetInfo = DatasetInfo(originType: string, delimit: Option<Delimit>)

  /** The scope fields the `datasetInfo` handler sets; `None` is a field it
      leaves unset. */
  datatype Setup = Setup(
    recordContainer: Option<string>,
    recordRoot: Option<string>,
    uniqueId: Option<string>,
    allowUniqueIdSet: bool)

  const HarvestContainer: string := "/pockets/pocket"

  /** The three branches of the handler: a harvest uses the pockets
      container, a dataset with a (non-empty) record root uses its parent as
      the container, any other dataset may only have its unique id set. */
  function DelimiterSetup(info: DatasetInfo): (r: Setup)
    ensures r.recordRoot.Some? ==>
      r.recordRoot.value != "" && r.recordContainer.Some? && r.recordContainer.value <= r.recordRoot.value
  {
    if info.originType == "origin-harvest" then
      Setup(Some(HarvestContainer), Some(HarvestContainer), Some(HarvestContainer + "/@id"), false)
    else if info.delimit.Some? && info.delimit.value.recordRoot.Some? && info.delimit.value.recordRoot.value != "" then
      var root := info.delimit.value.recordRoot.value;
      var container := Substring(root, 0, LastIndexOf(root, '/'));
      Setup(Some(container), Some(root), info.delimit.value.uniqueId, info.originType == "origin-drop")
    else
      Setup(None, None, None, true)
  }

  /** A harvest always delimits by the pockets. */
  lemma {:induction false} HarvestSetup(info: DatasetInfo)
    requires info.originType == "origin-harvest"
    ensures DelimiterSetup(info) == Setup(Some("/pockets/pocket"), Some("/pockets/pocket"), Some("/pockets/pocket/@id"), false)
  {
    assert HarvestContainer + "/@id" == "/pockets/pocket/@id";
  }

  /** With a record root, the container is the record root up to, and
      excluding, its last slash (empty without a slash); the unique id may be
      changed only for a dropped file. */
  lemma {:induction false} DelimitSetup(info: DatasetInfo, root: string)
    requires info.originType != "origin-harvest"
    requires info.delimit.Some? && info.delimit.value.recordRoot == Some(root) && root != ""
    ensures var r := DelimiterSetup(info);
      && r.recordRoot == Some(root) && r.uniqueId == info.delimit.value.uniqueId
      && r.allowUniqueIdSet == (info.originType == "origin-drop")
      && ('/' !in root ==> r.recordContainer == Some(""))
      && ('/' in root ==> var c := r.recordContainer.value;
            c + root[|c|..] == root && root[|c|] == '/' && '/' !in root[|c| + 1..])
  {
    var i := LastIndexOf(root, '/');
    if i >= 0 {
      assert Substring(root, 0, i) == root[..i];
    }
  }

  /** Without a harvest or a record root, nothing but the permission is set. */
  lemma {:induction false} NoDelimitSetup(info: DatasetInfo)
    requires info.originType != "origin-harvest"
    requires !(info.delimit.Some? && info.delimit.value.recordRoot.Some? && info.delimit.value.recordRoot.value != "")
    ensures DelimiterSetup(info) == Setup(None, None, None, true)
  {
  }

  // ------------------------------------------------------------- setDelim

  /** The parameters `setDelim` reads from the scope: the record root, the
      unique id, the record container, and `orgId + "/" + fileName`. */
  datatype Delimiting = Delimiting(recordRoot: string, uniqueId: Option<string>, container: string, prefix: string)

  /** What `setDelim` does to one node: the record root and the unique id
      are left alone, a node outside the container loses its path, a node
      inside it is given its source path. */
  function DelimNode(t: Tree, d: Delimiting): (r: Tree)
    ensures r.tag == t.tag && r.kids == t.kids && r.lengths == t.lengths && r.count == t.count
  {
    if t.path == d.recordRoot || Some(t.path) == d.uniqueId then t
    else if Substring(t.path, 0, |d.container|) != d.container then t.(path := "")
    else t.(sourcePath := Some(d.prefix + Substring(t.path, |d.container|, |t.path|)))
  }

  /** The value `setDelim` leaves behind. */
  function DelimTree(t: Tree, d: Delimiting): Tree
    decreases t
  {
    var n := DelimNode(t, d);
    n.(kids := seq(|t.kids|, i requires 0 <= i < |t.kids| => DelimTree(t.kids[i], d)))
  }

  /** The classification in terms of prefixes: outside the container means
      not starting with it; inside, the source path is the prefix followed
      by the rest of the path after the container. */
  lemma {:induction false} DelimNodeCases(t: Tree, d: Delimiting)
    ensures t.path == d.recordRoot || Some(t.path) == d.uniqueId ==> DelimNode(t, d) == t
    ensures t.path != d.recordRoot && Some(t.path) != d.uniqueId && !(d.container <= t.path) ==>
      DelimNode(t, d) == t.(path := "")
    ensures t.path != d.recordRoot && Some(t.path) != d.uniqueId && d.container <= t.path ==>
      DelimNode(t, d) == t.(sourcePath := Some(d.prefix + t.path[|d.container|..]))
  {
    SubstringPrefix(t.path, d.container);
    if d.container <= t.path {
      assert Substring(t.path, |d.container|, |t.path|) == t.path[|d.container|..];
    }
  }

  /** Every tree of the given shape: same tags, lengths, counts, and kids
      of the same shape, level by level. */
  ghost predicate SameShape(a: Tree, b: Tree)
    decreases a
  {
    && a.tag == b.tag && a.lengths == b.lengths && a.count == b.count && |a.kids| == |b.kids|
    && forall k :: 0 <= k < |a.kids| ==> SameShape(a.kids[k], b.kids[k])
  }

  /** `setDelim` keeps the shape of the tree. */
  lemma {:induction false} DelimTreeShape(t: Tree, d: Delimiting)
    ensures SameShape(DelimTree(t, d), t)
    decreases t
  {
    var r := DelimTree(t, d);
    forall k | 0 <= k < |t.kids| ensures SameShape(r.kids[k], t.kids[k]) {
      DelimTreeShape(t.kids[k], d);
    }
  }

  // ------------------------------------------------------ filterSourcePath

  /** A source path survives unless it is a non-empty string missing from
      the list. */
  predicate Keeps(sourcePath: Option<string>, sourcePaths: seq<string>)
  {
    !(sourcePath.Some? && sourcePath.value != "" && sourcePath.value !in sourcePaths)
  }

  /** The value `filterSourcePath` leaves behind. */
  function FilterTree(t: Tree, sourcePaths: seq<string>): Tree
    decreases t
  {
    t.(sourcePath := if Keeps(t.sourcePath, sourcePaths) then t.sourcePath else None,
       kids := seq(|t.kids|, i requires 0 <= i < |t.kids| => FilterTree(t.kids[i], sourcePaths)))
  }

  /** Every source path left in the tree is listed (or the empty string,
      which JavaScript does not count as present). */
  ghost predicate SourcePathsListed(t: Tree, sourcePaths: seq<string>)
    decreases t
  {
    && Keeps(t.sourcePath, sourcePaths)
    && forall k :: 0 <= k < |t.kids| ==> SourcePathsListed(t.kids[k], sourcePaths)
  }

  /** After the pruning only listed source paths remain. */
  lemma {:induction false} FilterTreeListed(t: Tree, sourcePaths: seq<string>)
    ensures SourcePathsListed(FilterTree(t, sourcePaths), sourcePaths)
    decreases t
  {
    var r := FilterTree(t, sourcePaths);
    forall k | 0 <= k < |t.kids| ensures SourcePathsListed(r.kids[k], sourcePaths) {
      FilterTreeListed(t.kids[k], sourcePaths);
    }
  }

  /** A tree whose source paths are all listed is left as it is. */
  lemma {:induction false} FilterTreeOfListed(t: Tree, sourcePaths: seq<string>)
    requires SourcePathsListed(t, sourcePaths)
    ensures FilterTree(t, sourcePaths) == t
    decreases t
  {
    var r := FilterTree(t, sourcePaths);
    forall k | 0 <= k < |t.kids| ensures r.kids[k] == t.kids[k] {
      FilterTreeOfListed(t.kids[k], sourcePaths);
    }
    assert r.kids == t.kids;
  }

  /** Pruning twice with the same list is pruning once. */
  lemma {:induction false} FilterTreeIdempotent(t: Tree, sourcePaths: seq<string>)
    ensures FilterTree(FilterTree(t, sourcePaths), sourcePaths) == FilterTree(t, sourcePaths)
  {
    FilterTreeListed(t, sourcePaths);
    FilterTreeOfListed(FilterTree(t, sourcePaths), sourcePaths);
  }

  /** `r` is `t` pruned node by node: at every level the path is the same, a
      missing source path stays missing, a kept one stays as it was and an
      unlisted one is gone. */
  ghost predicate PrunedFrom(r: Tree, t: Tree, sourcePaths: seq<string>)
    decreases t
  {
    && r.path == t.path
    && (t.sourcePath.None? ==> r.sourcePath.None?)
    && (Keeps(t.sourcePath, sourcePaths) ==> r.sourcePath == t.sourcePath)
    && (!Keeps(t.sourcePath, sourcePaths) ==> r.sourcePath.None?)
    && |r.kids| == |t.kids|
    && forall k :: 0 <= k < |t.kids| ==> PrunedFrom(r.kids[k], t.kids[k], sourcePaths)
  }

  /** The pruning touches source paths only: tags, lengths, counts and kids
      keep their shape, and at every node the path is unchanged and the
      source path is kept when listed (or absent) and dropped otherwise. */
  lemma {:induction false} FilterTreeShape(t: Tree, sourcePaths: seq<string>)
    ensures SameShape(FilterTree(t, sourcePaths), t)
    ensures PrunedFrom(FilterTree(t, sourcePaths), t, sourcePaths)
    decreases t
  {
    var r := FilterTree(t, sourcePaths);
    forall k | 0 <= k < |t.kids|
      ensures SameShape(r.kids[k], t.kids[k]) && PrunedFrom(r.kids[k], t.kids[k], sourcePaths)
    {
      FilterTreeShape(t.kids[k], sourcePaths);
    }
  }

  /** `filterSourcePath(node, sourcePaths)`: drops the node's source path
      when it is not listed, then does the same in every kid. */
  method FilterSourcePath(node: Node, sourcePaths: seq<string>)
    requires node.Valid()
    modifies node.Repr
    ensures node.Valid() && node.Repr == old(node.Repr) && node.kids == old(node.kids)
    ensures node.Model() == FilterTree(old(node.Model()), sourcePaths)
    decreases node.Repr, 1
  {
    ghost var before := node.Model();
    ghost var after := FilterTree(before, sourcePaths);
    if node.sourcePath.Some? && node.sourcePath.value != "" && node.sourcePath.value !in sourcePaths {
      node.sourcePath := None;
    }
    forall j | 0 <= j < |node.kids| ensures node.kids[j].Model() == before.kids[j] {
      ModelKid(node, j);
    }
    var index := 0;
    while index < |node.kids|
      invariant 0 <= index <= |node.kids| == |before.kids|
      invariant node.Valid() && node.Repr == old(node.Repr) && node.kids == old(node.kids)
      invariant forall j :: 0 <= j < index ==> node.kids[j].Model() == after.kids[j]
      invariant forall j :: index <= j < |node.kids| ==> node.kids[j].Model() == before.kids[j]
      invariant node.tag == after.tag && node.path == after.path && node.lengths == after.lengths
      invariant node.count == after.count && node.sourcePath == after.sourcePath
    {
      FilterKidAt(node, index, sourcePaths);
      index := index + 1;
    }
    ModelFromKids(node, after);
  }

  /** One turn of the loop in `filterSourcePath`. */
  method FilterKidAt(node: Node, index: nat, sourcePaths: seq<string>)
    requires node.Valid() && index < |node.kids|
    modifies node.kids[index].Repr
    ensures node.Valid() && node.Repr == old(node.Repr) && node.kids == old(node.kids)
    ensures node.kids[index].Model() == FilterTree(old(node.kids[index].Model()), sourcePaths)
    ensures forall j :: 0 <= j < |node.kids| && j != index ==> node.kids[j].Model() == old(node.kids[j].Model())
    decreases node.Repr, 0
  {
    var kid := node.kids[index];
    FilterSourcePath(kid, sourcePaths);
    forall j | 0 <= j < |node.kids| && j != index
      ensures node.kids[j].Repr == old(node.kids[j].Repr)
      ensures node.kids[j].Valid()
      ensures node.kids[j].Model() == old(node.kids[j].Model())
    {
      assert node.kids[j].Repr !! kid.Repr;
    }
  }

  // --------------------------------------------- setDelim on the node graph

  /** The last node of `ns` whose path is `p` and not `skip`: the one a
      pre-order walk assigning every hit to a scope field leaves there. */
  ghost function LastWithPath(ns: seq<Node>, p: Option<string>, skip: Option<string>): Option<Node>
    reads ns
  {
    if |ns| == 0 then None
    else
      var last := ns[|ns| - 1];
      if Some(last.path) == p && Some(last.path) != skip then Some(last)
      else LastWithPath(ns[..|ns| - 1], p, skip)
  }

  /** The hit is a node of `ns` with the path, and no later node has it;
      there is none exactly when no node has it. */
  lemma {:induction false} LastWithPathIsLast(ns: seq<Node>, p: Option<string>, skip: Option<string>)
    ensures var r := LastWithPath(ns, p, skip);
      && (r.None? <==> forall n :: n in ns ==> !(Some(n.path) == p && Some(n.path) != skip))
      && (r.Some? ==> exists k :: 0 <= k < |ns| && ns[k] == r.value && Some(ns[k].path) == p && Some(ns[k].path) != skip
                                && forall j :: k < j < |ns| ==> !(Some(ns[j].path) == p && Some(ns[j].path) != skip))
  {
    if |ns| > 0 {
      var init := ns[..|ns| - 1];
      LastWithPathIsLast(init, p, skip);
      assert ns == init + [ns[|ns| - 1]];
      assert forall k :: 0 <= k < |init| ==> init[k] == ns[k];
    }
  }

  lemma {:induction false} LastWithPathConcat(a: seq<Node>, b: seq<Node>, p: Option<string>, skip: Option<string>)
    ensures LastWithPath(a + b, p, skip) == Later(LastWithPath(b, p, skip), LastWithPath(a, p, skip))
    decreases |b|
  {
    if |b| == 0 {
      assert a + b == a;
    } else {
      assert (a + b)[..|a + b| - 1] == a + b[..|b| - 1];
      LastWithPathConcat(a, b[..|b| - 1], p, skip);
    }
  }

  /** A later hit replaces an earlier one. */
  function Later(later: Option<Node>, earlier: Option<Node>): Option<Node>
  {
    if later.Some? then later else earlier
  }

  /** The scope field after a walk: the walk's last hit, or the field's old
      value when there was none. */
  function Assigned(hit: Option<Node>, field: Node?): Node?
  {
    if hit.Some? then hit.value else field
  }

  /** The hits of the walks over the kids, one after the other: the last one
      is what is left in the scope field. */
  function LastHit(hits: seq<Option<Node>>): Option<Node>
  {
    if |hits| == 0 then None else Later(LastHit(hits[1..]), hits[0])
  }

  /** The hit of the walk over each kid's subtree. */
  ghost function KidHits(node: Node, p: Option<string>, skip: Option<string>): (r: seq<Option<Node>>)
    reads node, node.Repr
    requires node.Valid()
    ensures |r| == |node.kids|
    ensures forall j :: 0 <= j < |node.kids| ==> r[j] == LastWithPath(node.kids[j].PreOrder(), p, skip)
  {
    seq(|node.kids|, j requires 0 <= j < |node.kids| && node.Valid() reads node, node.Repr =>
      LastWithPath(node.kids[j].PreOrder(), p, skip))
  }

  /** The walk over the kids from `i` on is the walks over their subtrees in turn. */
  lemma {:induction false} KidsHit(node: Node, i: nat, p: Option<string>, skip: Option<string>)
    requires node.Valid() && i <= |node.kids|
    ensures LastWithPath(node.KidsPreOrder(i), p, skip) == LastHit(KidHits(node, p, skip)[i..])
    decreases |node.kids| - i
  {
    if i < |node.kids| {
      KidsHit(node, i + 1, p, skip);
      LastWithPathConcat(node.kids[i].PreOrder(), node.KidsPreOrder(i + 1), p, skip);
      assert KidHits(node, p, skip)[i..][1..] == KidHits(node, p, skip)[i + 1..];
    }
  }

  /** The walk over the subtree: the node, then the walks over the kids. */
  lemma {:induction false} NodeHit(node: Node, p: Option<string>, skip: Option<string>)
    requires node.Valid()
    ensures LastWithPath(node.PreOrder(), p, skip) == Later(LastHit(KidHits(node, p, skip)), LastWithPath([node], p, skip))
  {
    KidsHit(node, 0, p, skip);
    LastWithPathConcat([node], node.KidsPreOrder(0), p, skip);
    assert KidHits(node, p, skip)[0..] == KidHits(node, p, skip);
  }

  /** `setDelim(node)`: classifies the node, then every kid in turn. The
      scope fields `recordRootNode` and `uniqueIdNode` are threaded through
      as `rootNode` and `idNode`. */
  method SetDelim(node: Node, d: Delimiting, rootNode: Node?, idNode: Node?) returns (rootOut: Node?, idOut: Node?)
    requires node.Valid()
    modifies node.Repr
    ensures node.Valid() && node.Repr == old(node.Repr) && node.kids == old(node.kids)
    ensures node.Model() == DelimTree(old(node.Model()), d)
    ensures rootOut == Assigned(old(LastWithPath(node.PreOrder(), Some(d.recordRoot), None)), rootNode)
    ensures idOut == Assigned(old(LastWithPath(node.PreOrder(), d.uniqueId, Some(d.recordRoot))), idNode)
    decreases node.Repr, 2
  {
    ghost var before := node.Model();
    ghost var rootHits := KidHits(node, Some(d.recordRoot), None);
    ghost var idHits := KidHits(node, d.uniqueId, Some(d.recordRoot));
    NodeHit(node, Some(d.recordRoot), None);
    NodeHit(node, d.uniqueId, Some(d.recordRoot));
    forall j | 0 <= j < |node.kids| ensures node.kids[j].Model() == before.kids[j] {
      ModelKid(node, j);
    }
    rootOut, idOut := ClassifyNode(node, d, rootNode, idNode);
    rootOut, idOut := DelimKids(node, d, rootOut, idOut, rootHits, idHits);
    ModelFromKids(node, DelimTree(before, d));
  }

  /** The kids from `from` on still hold their values and hits from before
      the loop. */
  ghost predicate Untouched(node: Node, from: nat, d: Delimiting, models: seq<Tree>,
                            rootHits: seq<Option<Node>>, idHits: seq<Option<Node>>)
    reads node, node.Repr
    requires node.Valid()
  {
    && |models| == |rootHits| == |idHits| == |node.kids|
    && forall j :: from <= j < |node.kids| ==>
         && node.kids[j].Model() == models[j]
         && LastWithPath(node.kids[j].PreOrder(), Some(d.recordRoot), None) == rootHits[j]
         && LastWithPath(node.kids[j].PreOrder(), d.uniqueId, Some(d.recordRoot)) == idHits[j]
  }

  /** The kids before `upTo` have been delimited. */
  ghost predicate Delimited(node: Node, upTo: nat, d: Delimiting, models: seq<Tree>)
    reads node, node.Repr
    requires node.Valid() && upTo <= |models| == |node.kids|
  {
    forall j :: 0 <= j < upTo ==> node.kids[j].Model() == DelimTree(models[j], d)
  }

  /** The second half of `setDelim`: the loop over the kids. */
  method DelimKids(node: Node, d: Delimiting, rootNode: Node?, idNode: Node?,
                   ghost rootHits: seq<Option<Node>>, ghost idHits: seq<Option<Node>>)
    returns (rootOut: Node?, idOut: Node?)
    requires node.Valid()
    requires rootHits == KidHits(node, Some(d.recordRoot), None)
    requires idHits == KidHits(node, d.uniqueId, Some(d.recordRoot))
    modifies node.Repr - {node}
    ensures node.Valid() && node.Repr == old(node.Repr)
    ensures forall j :: 0 <= j < |node.kids| ==> node.kids[j].Model() == DelimTree(old(node.kids[j].Model()), d)
    ensures rootOut == Assigned(LastHit(rootHits), rootNode)
    ensures idOut == Assigned(LastHit(idHits), idNode)
    decreases node.Repr, 1
  {
    ghost var n := |node.kids|;
    ghost var models := seq(n, j requires 0 <= j < n == |node.kids| && node.Valid() reads node, node.Repr =>
      node.kids[j].Model());
    rootOut, idOut := rootNode, idNode;
    var index := 0;
    while index < |node.kids|
      invariant 0 <= index <= |node.kids| == n
      invariant node.Valid() && node.Repr == old(node.Repr)
      invariant Untouched(node, index, d, models, rootHits, idHits)
      invariant Delimited(node, index, d, models)
      invariant Assigned(LastHit(rootHits[index..]), rootOut) == Assigned(LastHit(rootHits), rootNode)
      invariant Assigned(LastHit(idHits[index..]), idOut) == Assigned(LastHit(idHits), idNode)
    {
      assert rootHits[index..][1..] == rootHits[index + 1..];
      assert idHits[index..][1..] == idHits[index + 1..];
      rootOut, idOut := DelimKidAt(node, index, d, rootOut, idOut, models, rootHits, idHits);
      index := index + 1;
    }
  }

  /** The first half of `setDelim`: the node's own classification. The
      record root and the unique id are tested on the path as it was. */
  method ClassifyNode(node: Node, d: Delimiting, rootNode: Node?, idNode: Node?) returns (rootOut: Node?, idOut: Node?)
    requires node.Valid()
    modifies node`path, node`sourcePath
    ensures node.Valid()
    ensures var t := DelimNode(old(node.Model()), d); node.path == t.path && node.sourcePath == t.sourcePath
    ensures rootOut == Assigned(old(LastWithPath([node], Some(d.recordRoot), None)), rootNode)
    ensures idOut == Assigned(old(LastWithPath([node], d.uniqueId, Some(d.recordRoot))), idNode)
    ensures forall j :: 0 <= j < |node.kids| ==>
      && node.kids[j].Model() == old(node.kids[j].Model())
      && LastWithPath(node.kids[j].PreOrder(), Some(d.recordRoot), None)
         == old(LastWithPath(node.kids[j].PreOrder(), Some(d.recordRoot), None))
      && LastWithPath(node.kids[j].PreOrder(), d.uniqueId, Some(d.recordRoot))
         == old(LastWithPath(node.kids[j].PreOrder(), d.uniqueId, Some(d.recordRoot)))
  {
    rootOut, idOut := rootNode, idNode;
    if node.path == d.recordRoot {
      rootOut := node;
    } else if Some(node.path) == d.uniqueId {
      idOut := node;
    } else if Substring(node.path, 0, |d.container|) != d.container {
      node.path := "";
    } else {
      node.sourcePath := Some(d.prefix + Substring(node.path, |d.container|, |node.path|));
    }
  }

  /** One turn of the loop in `setDelim`. */
  method DelimKidAt(node: Node, index: nat, d: Delimiting, rootNode: Node?, idNode: Node?,
                    ghost models: seq<Tree>, ghost rootHits: seq<Option<Node>>, ghost idHits: seq<Option<Node>>)
    returns (rootOut: Node?, idOut: Node?)
    requires node.Valid() && index < |node.kids|
    requires Untouched(node, index, d, models, rootHits, idHits) && Delimited(node, index, d, models)
    modifies node.kids[index].Repr
    ensures node.Valid() && node.Repr == old(node.Repr) && node.kids == old(node.kids)
    ensures Untouched(node, index + 1, d, models, rootHits, idHits) && Delimited(node, index + 1, d, models)
    ensures rootOut == Assigned(rootHits[index], rootNode)
    ensures idOut == Assigned(idHits[index], idNode)
    decreases node.Repr, 0
  {
    var kid := node.kids[index];
    rootOut, idOut := SetDelim(kid, d, rootNode, idNode);
    forall j | 0 <= j < |node.kids| && j != index
      ensures node.kids[j].Repr == old(node.kids[j].Repr)
      ensures node.kids[j].Valid()
      ensures node.kids[j].Model() == old(node.kids[j].Model())
      ensures node.kids[j].PreOrder() == old(node.kids[j].PreOrder())
      ensures LastWithPath(node.kids[j].PreOrder(), Some(d.recordRoot), None)
         == old(LastWithPath(node.kids[j].PreOrder(), Some(d.recordRoot), None))
      ensures LastWithPath(node.kids[j].PreOrder(), d.uniqueId, Some(d.recordRoot))
         == old(LastWithPath(node.kids[j].PreOrder(), d.uniqueId, Some(d.recordRoot)))
    {
      assert node.kids[j].Repr !! kid.Repr;
    }
  }

  // ------------------------------------------------- descent along the route

  /** The segments the route path is followed by: `path.substring(1).split('/')`. */
  function RouteSegments(routePath: string): (r: seq<string>)
    ensures |r| >= 1
    ensures Join(r, '/') == Substring(routePath, 1, |routePath|)
  {
    JoinSplit(Substring(routePath, 1, |routePath|), '/');
    Split(Substring(routePath, 1, |routePath|), '/')
  }

  /** The position of the first node in `ks` with exactly the tag, or -1. */
  ghost function FirstWithTag(ks: seq<Node>, tag: string): (r: int)
    reads ks
    ensures -1 <= r < |ks|
    ensures r == -1 <==> forall j :: 0 <= j < |ks| ==> ks[j].tag != tag
    ensures r >= 0 ==> ks[r].tag == tag && forall j :: 0 <= j < r ==> ks[j].tag != tag
  {
    if |ks| == 0 then -1
    else if ks[0].tag == tag then 0
    else
      var r := FirstWithTag(ks[1..], tag);
      assert forall j :: 1 <= j < |ks| ==> ks[j] == ks[1..][j - 1];
      if r < 0 then -1 else r + 1
  }

  /** The node the route reaches from the candidates `ks`: each segment moves
      to the first candidate with that tag and takes its kids as the next
      candidates; a segment nobody matches ends the walk with nothing. */
  ghost function Route(ks: seq<Node>, segments: seq<string>, R: set<Node>): (r: Option<Node>)
    reads R
    requires |segments| >= 1
    requires forall k :: k in ks ==> k in R && k.Repr <= R && k.Valid()
    ensures r.Some? ==> r.value in R && r.value.Valid() && r.value.tag == segments[|segments| - 1]
    decreases |segments|
  {
    var i := FirstWithTag(ks, segments[0]);
    if i < 0 then None
    else if |segments| == 1 then Some(ks[i])
    else
      assert ks[i] in ks;
      KidsOwned(ks[i]);
      Route(ks[i].kids, segments[1..], R)
  }

  /** The inner `selectNode(path, node)`, started from the synthetic root
      `{tag: '', kids: [tree]}`: consumes one segment per level with `shift`
      and scans the kids for the first exact tag match. */
  method Descend(segments: seq<string>, tree: Node) returns (r: Option<Node>)
    requires tree.Valid() && |segments| >= 1
    ensures r == Route([tree], segments, tree.Repr)
  {
    ghost var R := tree.Repr;
    var kids := [tree];
    var path := segments;
    var current := tree;
    while |path| > 0
      invariant forall k :: k in kids ==> k in R && k.Repr <= R && k.Valid()
      invariant |path| < |segments| ==> current in R && current.Valid() && kids == current.kids
      invariant |path| == |segments| ==> path == segments && kids == [tree]
      invariant Route([tree], segments, R)
             == if |path| == 0 then Some(current) else Route(kids, path, R)
      decreases |path|
    {
      var tag := path[0];
      path := path[1..];
      var index := 0;
      while index < |kids| && kids[index].tag != tag
        invariant 0 <= index <= |kids|
        invariant forall j :: 0 <= j < index ==> kids[j].tag != tag
      {
        index := index + 1;
      }
      if index == |kids| {
        return None;
      }
      assert index == FirstWithTag(kids, tag);
      assert kids[index] in kids;
      KidsOwned(kids[index]);
      current := kids[index];
      kids := current.kids;
    }
    r := Some(current);
  }
}
