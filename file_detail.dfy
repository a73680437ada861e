/** What the two file-detail controllers share: the node status with its
    size tiers, histogram entries and the flags derived from them, the record
    delimiter proposal, the sanitised node path, and the requests the
    controllers hand to their services. */
module FileDetail {
  import opened Js
  import opened Lodash
  import opened StructureTree

  /** The panel on show: `activeView`. */
  datatype View = Lengths | SampleView | HistogramView

  /** `nodeStatus` response: the sample and histogram size tiers (ascending)
      and the number of distinct values. */
  datatype Status = Status(samples: Option<seq<int>>, histograms: Option<seq<int>>, uniqueCount: Option<int>)

  /** One field of a histogram entry; the entry's first field is the count.
      `Percent` is the field the completion handler appends: the percentage
      that the count is of the node's occurrence count. */
  datatype Cell = Num(n: int) | Text(s: string) | Percent(count: Option<Cell>, total: int)

  type Entry = seq<Cell>

  /** The body of a `setRecordDelimiter` call. */
  datatype DelimiterBody = DelimiterBody(recordRoot: string, uniqueId: string, recordCount: int)

  /** A service call a controller issues; its response later arrives at the
      matching completion method. */
  datatype Request =
    | NodeStatusRequest(fileName: string, nodePath: string)
    | SampleRequest(fileName: string, path: Option<string>, size: Option<int>)
    | HistogramRequest(fileName: string, path: Option<string>, size: Option<int>)
    | SetRecordDelimiter(fileName: string, body: DelimiterBody)

  // ------------------------------------------------------------- size tiers

  /** `isMoreSample` / `isMoreHistogram` once `status` is known: the tier list
      is present and the current size's sorted-search position is below its
      last index; an absent size has position -1. */
  function IsMore(tiers: Option<seq<int>>, size: Option<int>): bool
  {
    tiers.Some? && SortedIndexOf(tiers.value, size) < |tiers.value| - 1
  }

  /** The size `moreSample` / `moreHistogram` steps to: `tiers[which + 1]`,
      `undefined` past the end. */
  function NextSize(tiers: seq<int>, size: Option<int>): (r: Option<int>)
    ensures r.Some? ==> r.value in tiers
  {
    var which := SortedIndexOf(tiers, size);
    if which + 1 < |tiers| then Some(tiers[which + 1]) else None
  }

  /** There is more exactly when the size is not among the tiers of a
      non-empty list, or is one of them short of the last. */
  lemma {:induction false} IsMoreCases(tiers: seq<int>, size: Option<int>)
    requires Ascending(tiers)
    ensures IsMore(Some(tiers), size) <==>
      || (|tiers| > 0 && (size.None? || size.value !in tiers))
      || (size.Some? && exists k :: 0 <= k < |tiers| - 1 && tiers[k] == size.value)
  {
    if size.Some? {
      SortedIndexOfFindsFirst(tiers, size.value);
      var r := SortedIndexOf(tiers, size);
      if exists k :: 0 <= k < |tiers| - 1 && tiers[k] == size.value {
        var k :| 0 <= k < |tiers| - 1 && tiers[k] == size.value;
        assert tiers[k] in tiers;
        assert tiers[..r] + tiers[r..] == tiers;
      }
    }
  }

  /** Stepping from a size that is not a tier lands on the first tier. */
  lemma {:induction false} NextSizeFromAbsent(tiers: seq<int>, size: Option<int>)
    requires Ascending(tiers) && |tiers| > 0 && (size.None? || size.value !in tiers)
    ensures NextSize(tiers, size) == Some(tiers[0])
  {
    if size.Some? {
      SortedIndexOfFindsFirst(tiers, size.value);
    }
  }

  /** Stepping from a tier lands on the next larger one; when the tiers are
      strictly increasing that is the next tier in the list. */
  lemma {:induction false} NextSizeFromTier(tiers: seq<int>, k: nat)
    requires forall i, j :: 0 <= i < j < |tiers| ==> tiers[i] < tiers[j]
    requires k < |tiers|
    ensures NextSize(tiers, Some(tiers[k])) == if k + 1 < |tiers| then Some(tiers[k + 1]) else None
    ensures IsMore(Some(tiers), Some(tiers[k])) <==> k + 1 < |tiers|
  {
    SortedIndexOfFindsFirst(tiers, tiers[k]);
    assert tiers[k] in tiers;
    var r := SortedIndexOf(tiers, Some(tiers[k]));
    assert r == k;
  }

  /** Whenever there is more, the step lands on a tier. */
  lemma {:induction false} MoreLandsOnTier(tiers: seq<int>, size: Option<int>)
    requires IsMore(Some(tiers), size)
    ensures NextSize(tiers, size).Some?
  {
  }

  /** The tiers the controllers are typically served, [10, 50, 100]: from 100
      there is no more; from 50 the next size is 100; an unknown size restarts
      at 10. */
  lemma {:induction false} TypicalTiers()
    ensures !IsMore(Some([10, 50, 100]), Some(100))
    ensures IsMore(Some([10, 50, 100]), Some(50)) && NextSize([10, 50, 100], Some(50)) == Some(100)
    ensures IsMore(Some([10, 50, 100]), Some(70)) && NextSize([10, 50, 100], Some(70)) == Some(10)
  {
    NextSizeFromTier([10, 50, 100], 2);
    NextSizeFromTier([10, 50, 100], 1);
    NextSizeFromAbsent([10, 50, 100], Some(70));
  }

  // -------------------------------------------------------------- histogram

  /** The histogram after the completion handler's `forEach`: every entry with
      one more field, the percentage of its first field over `total`. */
  function Annotated(entries: seq<Entry>, total: int): (r: seq<Entry>)
    ensures |r| == |entries|
    ensures forall i :: 0 <= i < |r| ==> |r[i]| == |entries[i]| + 1 && r[i][..|entries[i]|] == entries[i]
  {
    seq(|entries|, i requires 0 <= i < |entries| => Annotate(entries[i], total))
  }

  /** `entry.push(percent)` for one entry. */
  function Annotate(entry: Entry, total: int): Entry
  {
    entry + [Percent(if |entry| > 0 then Some(entry[0]) else None, total)]
  }

  /** Appends the percentage to every entry of the response in place. */
  method AnnotateHistogram(entries: array<Entry>, total: int)
    modifies entries
    ensures entries[..] == Annotated(old(entries[..]), total)
  {
    var i := 0;
    while i < entries.Length
      invariant 0 <= i <= entries.Length
      invariant entries[..i] == Annotated(old(entries[..]), total)[..i]
      invariant entries[i..] == old(entries[i..])
    {
      entries[i] := Annotate(entries[i], total);
      i := i + 1;
    }
  }

  /** `histogramUnique`: `data.histogram[0] && data.histogram[0][0] == 1`. */
  predicate HistogramUnique(h: seq<Entry>)
  {
    |h| > 0 && |h[0]| > 0 && h[0][0] == Num(1)
  }

  /** The flag computed after the annotation says what it says of the
      response as received: the first entry is there and its count is 1. */
  lemma {:induction false} UniqueAfterAnnotation(h: seq<Entry>, total: int)
    ensures HistogramUnique(Annotated(h, total)) <==> (|h| > 0 && |h[0]| > 0 && h[0][0] == Num(1))
  {
    if |h| > 0 {
      var a := Annotated(h, total);
      assert a[0] == Annotate(h[0], total);
    }
  }

  /** Above this many distinct values the terms vocabulary is not offered. */
  const MaxForVocabulary: int := 12500

  /** `histogramVocabulary`: not unique and fewer distinct values than the
      maximum; a missing count compares false. */
  function Vocabulary(unique: bool, uniqueCount: Option<int>): (r: bool)
    ensures unique ==> !r
    ensures uniqueCount.None? ==> !r
    ensures uniqueCount.Some? && uniqueCount.value >= MaxForVocabulary ==> !r
    ensures !unique && uniqueCount.Some? && uniqueCount.value < MaxForVocabulary ==> r
  {
    !unique && match uniqueCount { case Some(n) => n < MaxForVocabulary case None => false }
  }

  // ------------------------------------------------------ delimiter proposal

  /** `setUniqueIdNode(node)`: the body sent when the tree holds a node with
      no lengths whose count equals the unique-id node's count; no body when
      there is none. */
  function Proposal(root: Node, uniqueIdNode: Node): (r: Option<DelimiterBody>)
    reads root.Repr, uniqueIdNode
    requires root.Valid()
  {
    match SelectFirstEmptyWithCount(root, uniqueIdNode.count)
    case None => None
    case Some(m) => Some(DelimiterBody(m.path, uniqueIdNode.path, uniqueIdNode.count))
  }

  /** A proposal exists exactly when the tree holds an empty node counted as
      often as the unique id; its record root is the path of such a node and
      it carries the unique id's path and count. */
  lemma {:induction false} ProposalMeaning(root: Node, uniqueIdNode: Node)
    requires root.Valid()
    ensures Proposal(root, uniqueIdNode).None? <==>
      forall n :: n in root.PreOrder() ==> !(|n.lengths| == 0 && n.count == uniqueIdNode.count)
    ensures Proposal(root, uniqueIdNode).Some? ==>
      var r := Proposal(root, uniqueIdNode).value;
      && r.uniqueId == uniqueIdNode.path && r.recordCount == uniqueIdNode.count
      && exists n :: n in root.PreOrder() && n.path == r.recordRoot && |n.lengths| == 0 && n.count == r.recordCount
  {
    var found := SelectFirstEmptyWithCount(root, uniqueIdNode.count);
    if found.Some? {
      assert found.value in root.PreOrder();
    }
  }

  // ------------------------------------------------------------ the api path

  /** `path.replace(":", "_").replace("@", "_")`: the first colon and the
      first at-sign become underscores. */
  function Sanitized(path: string): (r: string)
    ensures |r| == |path|
  {
    ReplaceFirst(ReplaceFirst(path, ':', '_'), '@', '_')
  }

  /** Only the first colon and the first at-sign change; every other
      character, later colons and at-signs included, survives. */
  lemma {:induction false} SanitizedChangesAtMostTwo(path: string, i: nat)
    requires i < |path| && i != IndexOf(path, ':') && i != IndexOf(path, '@')
    ensures Sanitized(path)[i] == path[i]
  {
    var once := ReplaceFirst(path, ':', '_');
    IndexOfSamePositions(path, once, '@');
  }

  /** A path with two colons keeps its second one. */
  lemma {:induction false} SanitizedExample()
    ensures Sanitized("a:b:c") == "a_b:c"
  {
    assert IndexOf("a:b:c", ':') == 1;
    assert IndexOf("a_b:c", '@') == -1;
  }
}
