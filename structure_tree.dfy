/** The structure tree both file-detail controllers display: nodes carrying a
    tag, a path, value-length statistics and an occurrence count, owned by
    their parent. `Node` is the mutable object the controllers work on in
    place; `Tree` is its value, used to state what the in-place operations do. */
module StructureTree {
  import opened Js
  import opened Lodash

  /** The value of a subtree. */
  datatype Tree = Tree(
    tag: string,
    path: string,
    kids: seq<Tree>,
    lengths: seq<int>,
    count: int,
    sourcePath: Option<string>)

  class Node {
    var tag: string
    var path: string
    var kids: seq<Node>
    var lengths: seq<int>
    var count: int
    var sourcePath: Option<string>
    /** The objects of this subtree. */
    ghost var Repr: set<Node>

    /** Every kid owns its own part of the footprint: the tree is acyclic and
        no node is shared between two parents or listed twice. */
    ghost predicate Valid()
      reads this, Repr
      decreases Repr
    {
      && this in Repr
      && (forall i :: 0 <= i < |kids| ==>
            && kids[i] in Repr
            && kids[i].Repr <= Repr
            && this !in kids[i].Repr
            && kids[i].Valid())
      && (forall i, j :: 0 <= i < |kids| && 0 <= j < |kids| && i != j ==>
            kids[i].Repr !! kids[j].Repr)
    }

    /** The value of the subtree rooted here. */
    ghost function Model(): Tree
      reads this, Repr
      requires Valid()
      decreases Repr
    {
      Tree(tag, path,
           seq(|kids|, i requires 0 <= i < |kids| && kids[i] in Repr && kids[i].Repr < Repr && kids[i].Valid()
                         reads this, Repr => kids[i].Model()),
           lengths, count, sourcePath)
    }

    /** The nodes of the subtree in depth-first pre-order. */
    ghost function PreOrder(): (r: seq<Node>)
      reads this, Repr
      requires Valid()
      ensures |r| > 0 && r[0] == this
      ensures forall k :: 0 <= k < |r| ==> r[k] in Repr
      decreases Repr, 1
    {
      [this] + KidsPreOrder(0)
    }

    /** The pre-order of the kids from index `i` on, one after the other. */
    ghost function KidsPreOrder(i: nat): (r: seq<Node>)
      reads this, Repr
      requires Valid() && i <= |kids|
      ensures forall k :: 0 <= k < |r| ==> r[k] in Repr
      decreases Repr, 0, |kids| - i
    {
      if i == |kids| then [] else kids[i].PreOrder() + KidsPreOrder(i + 1)
    }
  }

  lemma {:induction false} ModelKid(n: Node, i: nat)
    requires n.Valid() && i < |n.kids|
    ensures n.Model().kids[i] == n.kids[i].Model()
    ensures |n.Model().kids| == |n.kids|
  {
  }

  /** Every kid of a valid node is a valid node of its footprint. */
  lemma {:induction false} KidsOwned(n: Node)
    requires n.Valid()
    ensures forall k :: k in n.kids ==> k in n.Repr && k.Repr <= n.Repr && k.Valid()
  {
    forall k | k in n.kids ensures k in n.Repr && k.Repr <= n.Repr && k.Valid() {
      var j :| 0 <= j < |n.kids| && n.kids[j] == k;
    }
  }

  /** A node whose own fields and whose kids' values agree with `t` has the
      value `t`. */
  lemma {:induction false} ModelFromKids(node: Node, t: Tree)
    requires node.Valid() && |node.kids| == |t.kids|
    requires forall j :: 0 <= j < |node.kids| ==> node.kids[j].Model() == t.kids[j]
    requires node.tag == t.tag && node.path == t.path && node.lengths == t.lengths
    requires node.count == t.count && node.sourcePath == t.sourcePath
    ensures node.Model() == t
  {
    var m := node.Model();
    forall j | 0 <= j < |node.kids| ensures m.kids[j] == t.kids[j] {
      ModelKid(node, j);
    }
    assert m.kids == t.kids;
  }

  // ------------------------------------------------------------------ sortKids

  /** The keys `sortKids` sorts by: the lower-cased tags. */
  function TagKeys(kids: seq<Tree>): (r: seq<string>)
    ensures |r| == |kids|
  {
    seq(|kids|, i requires 0 <= i < |kids| => ToLowerCase(kids[i].tag))
  }

  function NodeTagKeys(kids: seq<Node>): (r: seq<string>)
    reads kids
    ensures |r| == |kids|
  {
    seq(|kids|, i requires 0 <= i < |kids| reads kids => ToLowerCase(kids[i].tag))
  }

  /** The value `sortKids` leaves behind: every sibling list reordered by
      `_.sortBy` on the lower-cased tag, the parent before its kids. */
  function SortTree(t: Tree): Tree
    decreases t
  {
    var order := SortByOrder(TagKeys(t.kids));
    t.(kids := seq(|order|, j requires 0 <= j < |order| => SortTree(t.kids[order[j]])))
  }

  /** Siblings are in ascending order of lower-cased tag, at every level. */
  ghost predicate SortedEverywhere(t: Tree)
  {
    && (forall i, j :: 0 <= i < j < |t.kids| ==> KeyLe(TagKeys(t.kids), i, j))
    && (forall k :: 0 <= k < |t.kids| ==> SortedEverywhere(t.kids[k]))
  }

  /** Sorting keeps every field but the order of the kids. */
  lemma {:induction false} SortTreeKeepsFields(t: Tree)
    ensures var s := SortTree(t);
      s.tag == t.tag && s.path == t.path && s.lengths == t.lengths
      && s.count == t.count && s.sourcePath == t.sourcePath && |s.kids| == |t.kids|
  {
  }

  /** The kids of the sorted tree are the sorted kids, taken in `_.sortBy` order. */
  lemma {:induction false} SortTreeKids(t: Tree)
    ensures var order := SortByOrder(TagKeys(t.kids));
      SortTree(t).kids == Pick(seq(|t.kids|, i requires 0 <= i < |t.kids| => SortTree(t.kids[i])), order)
  {
  }

  /** Each sibling list of the sorted tree is a permutation of the (sorted)
      original kids. */
  lemma {:induction false} SortTreePermutes(t: Tree)
    ensures multiset(SortTree(t).kids)
         == multiset(seq(|t.kids|, i requires 0 <= i < |t.kids| => SortTree(t.kids[i])))
  {
    var sorted := seq(|t.kids|, i requires 0 <= i < |t.kids| => SortTree(t.kids[i]));
    SortTreeKids(t);
    SortByPermutes(sorted, TagKeys(t.kids));
  }

  /** Equal lower-cased tags keep their original relative order. */
  lemma {:induction false} SortTreeStable(t: Tree)
    ensures var order := SortByOrder(TagKeys(t.kids));
      forall a, b :: 0 <= a < b < |order| && TagKeys(t.kids)[order[a]] == TagKeys(t.kids)[order[b]] ==>
        order[a] < order[b]
  {
    OrderStable(TagKeys(t.kids), |t.kids|);
  }

  /** Sorting a tree leaves its kids' keys, read in the new order, ascending. */
  lemma {:induction false} SortedKeys(t: Tree)
    ensures var s := SortTree(t);
      forall i, j :: 0 <= i < j < |s.kids| ==> KeyLe(TagKeys(s.kids), i, j)
  {
    var keys := TagKeys(t.kids);
    var order := SortByOrder(keys);
    var s := SortTree(t);
    OrderSorted(keys, |keys|);
    forall j | 0 <= j < |s.kids| ensures TagKeys(s.kids)[j] == keys[order[j]] {
      SortTreeKeepsFields(t.kids[order[j]]);
    }
  }

  /** `sortKids` orders the siblings at every level. */
  lemma {:induction false} SortTreeSorted(t: Tree)
    ensures SortedEverywhere(SortTree(t))
    decreases t
  {
    var s := SortTree(t);
    SortedKeys(t);
    var order := SortByOrder(TagKeys(t.kids));
    forall k | 0 <= k < |s.kids| ensures SortedEverywhere(s.kids[k]) {
      SortTreeSorted(t.kids[order[k]]);
    }
  }

  /** Sorting an already sorted tree changes nothing. */
  lemma {:induction false} SortTreeOfSorted(t: Tree)
    requires SortedEverywhere(t)
    ensures SortTree(t) == t
    decreases t
  {
    var keys := TagKeys(t.kids);
    OrderOfSorted(keys, |keys|);
    var s := SortTree(t);
    forall k | 0 <= k < |t.kids| ensures s.kids[k] == t.kids[k] {
      SortTreeOfSorted(t.kids[k]);
    }
    assert s.kids == t.kids;
  }

  /** `sortKids` is idempotent. */
  lemma {:induction false} SortTreeIdempotent(t: Tree)
    ensures SortTree(SortTree(t)) == SortTree(t)
  {
    SortTreeSorted(t);
    SortTreeOfSorted(SortTree(t));
  }

  /** `sortKids(node)`: sorts the kids of `node` in place with `_.sortBy` on the
      lower-cased tag, then recurses into each kid in the new order. */
  method SortKids(node: Node)
    requires node.Valid()
    modifies node.Repr
    ensures node.Valid() && node.Repr == old(node.Repr)
    ensures node.Model() == SortTree(old(node.Model()))
    ensures multiset(node.kids) == multiset(old(node.kids))
    decreases node.Repr, 2
  {
    ghost var before := node.Model();
    if |node.kids| == 0 {
      return;
    }
    var order := ReorderKids(node);
    SortEachKid(node, before, order);
  }

  /** The loop of `sortKids`: every kid, in the new order, sorted in turn. */
  method SortEachKid(node: Node, ghost before: Tree, ghost order: seq<nat>)
    requires node.Valid()
    requires order == SortByOrder(TagKeys(before.kids)) && |node.kids| == |before.kids|
    requires forall j :: 0 <= j < |node.kids| ==> node.kids[j].Model() == before.kids[order[j]]
    requires node.tag == before.tag && node.path == before.path && node.lengths == before.lengths
    requires node.count == before.count && node.sourcePath == before.sourcePath
    modifies node.Repr
    ensures node.Valid() && node.Repr == old(node.Repr) && node.kids == old(node.kids)
    ensures node.Model() == SortTree(before)
    decreases node.Repr, 1
  {
    var index := 0;
    while index < |node.kids|
      invariant 0 <= index <= |node.kids| == |before.kids| == |order|
      invariant node.Valid() && node.Repr == old(node.Repr) && node.kids == old(node.kids)
      invariant forall j :: 0 <= j < index ==> node.kids[j].Model() == SortTree(before.kids[order[j]])
      invariant forall j :: index <= j < |node.kids| ==> node.kids[j].Model() == before.kids[order[j]]
      invariant node.tag == before.tag && node.path == before.path && node.lengths == before.lengths
      invariant node.count == before.count && node.sourcePath == before.sourcePath
    {
      SortKidAt(node, index);
      index := index + 1;
    }
    SortedFromKids(node, before, order);
  }

  /** The first half of `sortKids`: the kids list replaced by its `_.sortBy`
      reordering on the lower-cased tag. */
  method ReorderKids(node: Node) returns (order: seq<nat>)
    requires node.Valid() && |node.kids| > 0
    modifies node`kids
    ensures node.Valid()
    ensures order == SortByOrder(TagKeys(old(node.Model()).kids))
    ensures |node.kids| == |order| == |old(node.kids)|
    ensures multiset(node.kids) == multiset(old(node.kids))
    ensures forall j :: 0 <= j < |node.kids| ==> node.kids[j].Model() == old(node.Model()).kids[order[j]]
  {
    ghost var before := node.Model();
    var oldKids := node.kids;
    order := SortByOrder(NodeTagKeys(oldKids));
    ghost var keys := TagKeys(before.kids);
    forall i | 0 <= i < |oldKids| ensures before.kids[i] == oldKids[i].Model() {
      ModelKid(node, i);
    }
    assert NodeTagKeys(oldKids) == keys;
    assert Distinct(order);
    node.kids := Pick(oldKids, order);
    SortByPermutes(oldKids, keys);
    PermutedKidsValid(node, oldKids, order);
  }

  /** Reordering a valid kids list by a permutation keeps the node valid. */
  lemma {:induction false} PermutedKidsValid(node: Node, ks: seq<Node>, order: seq<nat>)
    requires node in node.Repr && |order| == |ks| && InRange(order, |ks|) && Distinct(order)
    requires node.kids == Pick(ks, order)
    requires forall i :: 0 <= i < |ks| ==>
      ks[i] in node.Repr && ks[i].Repr <= node.Repr && node !in ks[i].Repr && ks[i].Valid()
    requires forall i, j :: 0 <= i < |ks| && 0 <= j < |ks| && i != j ==> ks[i].Repr !! ks[j].Repr
    ensures node.Valid()
  {
    forall i, j | 0 <= i < |ks| && 0 <= j < |ks| && i != j
      ensures node.kids[i].Repr !! node.kids[j].Repr
    {
      assert order[i] != order[j];
    }
  }

  /** Once every kid holds its sorted value, in `_.sortBy` order, the node
      holds the sorted tree. */
  lemma {:induction false} SortedFromKids(node: Node, before: Tree, order: seq<nat>)
    requires node.Valid()
    requires order == SortByOrder(TagKeys(before.kids)) && |node.kids| == |before.kids|
    requires forall j :: 0 <= j < |node.kids| ==> node.kids[j].Model() == SortTree(before.kids[order[j]])
    requires node.tag == before.tag && node.path == before.path && node.lengths == before.lengths
    requires node.count == before.count && node.sourcePath == before.sourcePath
    ensures node.Model() == SortTree(before)
  {
    var m := node.Model();
    var s := SortTree(before);
    forall j | 0 <= j < |node.kids| ensures m.kids[j] == s.kids[j] {
      ModelKid(node, j);
    }
    assert m.kids == s.kids;
  }

  /** One turn of the loop in `sortKids`: sorting the kid at `index` leaves its
      siblings and their parent as they were. */
  method SortKidAt(node: Node, index: nat)
    requires node.Valid() && index < |node.kids|
    modifies node.kids[index].Repr
    ensures node.Valid() && node.Repr == old(node.Repr) && node.kids == old(node.kids)
    ensures node.kids[index].Model() == SortTree(old(node.kids[index].Model()))
    ensures forall j :: 0 <= j < |node.kids| && j != index ==> node.kids[j].Model() == old(node.kids[j].Model())
    decreases node.Repr, 0
  {
    var kid := node.kids[index];
    SortKids(kid);
    forall j | 0 <= j < |node.kids| && j != index
      ensures node.kids[j].Repr == old(node.kids[j].Repr)
      ensures node.kids[j].Valid()
      ensures node.kids[j].Model() == old(node.kids[j].Model())
    {
      assert node.kids[j].Repr !! kid.Repr;
    }
  }

  // ----------------------------------------------------------- pre-order searches

  /** The first node of `ns` with a non-empty `lengths` list. */
  ghost function FirstWithValues(ns: seq<Node>): (r: Option<Node>)
    reads ns
    ensures r.None? <==> forall k :: 0 <= k < |ns| ==> |ns[k].lengths| == 0
    ensures r.Some? ==> exists k :: 0 <= k < |ns| && ns[k] == r.value && |ns[k].lengths| > 0
                                  && forall j :: 0 <= j < k ==> |ns[j].lengths| == 0
  {
    if |ns| == 0 then None
    else if |ns[0].lengths| > 0 then Some(ns[0])
    else
      var r := FirstWithValues(ns[1..]);
      assert forall k :: 1 <= k < |ns| ==> ns[k] == ns[1..][k - 1];
      r
  }

  lemma {:induction false} FirstWithValuesConcat(a: seq<Node>, b: seq<Node>)
    ensures FirstWithValues(a + b) == if FirstWithValues(a).Some? then FirstWithValues(a) else FirstWithValues(b)
  {
    if |a| > 0 {
      assert (a + b)[1..] == a[1..] + b;
      FirstWithValuesConcat(a[1..], b);
    } else {
      assert a + b == b;
    }
  }

  /** `selectFirstWithValues(node)`: the node itself when it has lengths,
      otherwise the first hit found by searching the kids in order. */
  function SelectFirstWithValues(node: Node): (r: Option<Node>)
    reads node.Repr
    requires node.Valid()
    ensures r == FirstWithValues(node.PreOrder())
    ensures |node.lengths| > 0 ==> r == Some(node)
    decreases node.Repr, 1
  {
    if |node.lengths| > 0 then Some(node)
    else
      var r := FirstWithValuesAmong(node, 0);
      FirstWithValuesConcat([node], node.KidsPreOrder(0));
      r
  }

  /** The loop of `selectFirstWithValues` from kid `i` on. */
  function FirstWithValuesAmong(node: Node, i: nat): (r: Option<Node>)
    reads node.Repr
    requires node.Valid() && i <= |node.kids|
    ensures r == FirstWithValues(node.KidsPreOrder(i))
    decreases node.Repr, 0, |node.kids| - i
  {
    if i == |node.kids| then None
    else
      FirstWithValuesConcat(node.kids[i].PreOrder(), node.KidsPreOrder(i + 1));
      match SelectFirstWithValues(node.kids[i])
      case Some(n) => Some(n)
      case None => FirstWithValuesAmong(node, i + 1)
  }

  /** The first node of `ns` with no lengths and `count == c`. */
  ghost function FirstEmptyWithCount(ns: seq<Node>, c: int): (r: Option<Node>)
    reads ns
    ensures r.None? <==> forall k :: 0 <= k < |ns| ==> !(|ns[k].lengths| == 0 && ns[k].count == c)
    ensures r.Some? ==> exists k :: 0 <= k < |ns| && ns[k] == r.value && |ns[k].lengths| == 0 && ns[k].count == c
                                  && forall j :: 0 <= j < k ==> !(|ns[j].lengths| == 0 && ns[j].count == c)
  {
    if |ns| == 0 then None
    else if |ns[0].lengths| == 0 && ns[0].count == c then Some(ns[0])
    else
      var r := FirstEmptyWithCount(ns[1..], c);
      assert forall k :: 1 <= k < |ns| ==> ns[k] == ns[1..][k - 1];
      r
  }

  lemma {:induction false} FirstEmptyWithCountConcat(a: seq<Node>, b: seq<Node>, c: int)
    ensures FirstEmptyWithCount(a + b, c)
         == if FirstEmptyWithCount(a, c).Some? then FirstEmptyWithCount(a, c) else FirstEmptyWithCount(b, c)
  {
    if |a| > 0 {
      assert (a + b)[1..] == a[1..] + b;
      FirstEmptyWithCountConcat(a[1..], b, c);
    } else {
      assert a + b == b;
    }
  }

  /** `selectFirstEmptyWithCount(node, count)`: the node itself when it has no
      lengths and the wanted count, otherwise the first hit among the kids. */
  function SelectFirstEmptyWithCount(node: Node, c: int): (r: Option<Node>)
    reads node.Repr
    requires node.Valid()
    ensures r == FirstEmptyWithCount(node.PreOrder(), c)
    decreases node.Repr, 1
  {
    if |node.lengths| == 0 && node.count == c then Some(node)
    else
      var r := FirstEmptyWithCountAmong(node, c, 0);
      FirstEmptyWithCountConcat([node], node.KidsPreOrder(0), c);
      r
  }

  /** The loop of `selectFirstEmptyWithCount` from kid `i` on. */
  function FirstEmptyWithCountAmong(node: Node, c: int, i: nat): (r: Option<Node>)
    reads node.Repr
    requires node.Valid() && i <= |node.kids|
    ensures r == FirstEmptyWithCount(node.KidsPreOrder(i), c)
    decreases node.Repr, 0, |node.kids| - i
  {
    if i == |node.kids| then None
    else
      FirstEmptyWithCountConcat(node.kids[i].PreOrder(), node.KidsPreOrder(i + 1), c);
      match SelectFirstEmptyWithCount(node.kids[i], c)
      case Some(n) => Some(n)
      case None => FirstEmptyWithCountAmong(node, c, i + 1)
  }
}
