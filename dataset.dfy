/** `DatasetCtrl`: the structure tree of one dataset with its record
    delimiter, the node selected in it (possibly through the route path),
    and the statistics shown for that node. */
module Dataset {
  import opened Js
  import opened StructureTree
  import opened FileDetail
  import opened DatasetTree

  class DatasetCtrl {
    const fileName: string
    /** `$rootScope.orgId`. */
    const orgId: string
    /** The URL prefix of the api, ending in the access key. */
    const apiPrefix: string
    /** `$routeParams.path` and `$routeParams.view`. */
    const routePath: Option<string>
    const routeView: Option<string>

    var recordContainer: Option<string>
    var recordRoot: Option<string>
    var uniqueId: Option<string>
    var allowUniqueIdSet: bool
    var tree: Node?
    var selectedNode: Node?
    var uniqueIdNode: Node?
    var recordRootNode: Node?
    var activePath: Option<string>
    var activeView: Option<View>
    var apiPathUnique: Option<string>
    var apiPathHistogram: Option<string>
    var sampleSize: Option<int>
    var histogramSize: Option<int>
    var sample: Option<seq<string>>
    var histogram: Option<seq<Entry>>
    var histogramUnique: bool
    var histogramVocabulary: bool
    var status: Option<Status>

    /** At most one of the sample and histogram buffers is filled. */
    ghost predicate Valid()
      reads this
    {
      !(sample.Some? && histogram.Some?)
    }

    constructor (fileName: string, orgId: string, apiPrefix: string, routePath: Option<string>, routeView: Option<string>)
      ensures Valid()
      ensures this.fileName == fileName && this.orgId == orgId && this.apiPrefix == apiPrefix
      ensures this.routePath == routePath && this.routeView == routeView
      ensures recordContainer.None? && recordRoot.None? && uniqueId.None? && !allowUniqueIdSet
      ensures tree == null && selectedNode == null && uniqueIdNode == null && recordRootNode == null
      ensures activePath.None? && activeView.None? && apiPathUnique.None? && apiPathHistogram.None?
      ensures sampleSize.None? && histogramSize.None? && sample.None? && histogram.None?
      ensures !histogramUnique && !histogramVocabulary && status.None?
    {
      this.fileName, this.orgId, this.apiPrefix := fileName, orgId, apiPrefix;
      this.routePath, this.routeView := routePath, routeView;
      recordContainer, recordRoot, uniqueId, allowUniqueIdSet := None, None, None, false;
      tree, selectedNode, uniqueIdNode, recordRootNode := null, null, null, null;
      activePath, activeView, apiPathUnique, apiPathHistogram := None, None, None, None;
      sampleSize, histogramSize, sample, histogram := None, None, None, None;
      histogramUnique, histogramVocabulary, status := false, false, None;
    }

    /** The `datasetInfo` response arrives: the record delimiter is set up. */
    method OnDatasetInfo(info: DatasetInfo)
      modifies this`recordContainer, this`recordRoot, this`uniqueId, this`allowUniqueIdSet
      ensures var s := DelimiterSetup(info);
        && allowUniqueIdSet == s.allowUniqueIdSet
        && (s.recordRoot.Some? ==>
              recordContainer == s.recordContainer && recordRoot == s.recordRoot && uniqueId == s.uniqueId)
        && (s.recordRoot.None? ==>
              recordContainer == old(recordContainer) && recordRoot == old(recordRoot) && uniqueId == old(uniqueId))
    {
      var s := DelimiterSetup(info);
      if s.recordRoot.Some? {
        recordContainer, recordRoot, uniqueId := s.recordContainer, s.recordRoot, s.uniqueId;
      }
      allowUniqueIdSet := s.allowUniqueIdSet;
    }

    /** The delimiting `setDelim` works with. */
    function CurrentDelimiting(): (d: Delimiting)
      reads this`recordRoot, this`uniqueId, this`recordContainer
      requires recordRoot.Some? && recordContainer.Some?
      ensures d.recordRoot == recordRoot.value && d.uniqueId == uniqueId && d.container == recordContainer.value
      ensures d.prefix == orgId + "/" + fileName
    {
      Delimiting(recordRoot.value, uniqueId, recordContainer.value, orgId + "/" + fileName)
    }

    /** The `index` response arrives: the tree is sorted, delimited when there
        is a record root, and kept; with a record root the unique-id trigger
        runs when the stored record count is not positive
        (`recordCountUnset`). The index is requested once, by the freshly
        built controller, so no tree is stored yet; the trigger runs before
        the tree is stored and so never finds the record root. */
    method OnIndex(data: Node, recordCountUnset: bool) returns (req: Option<Request>)
      requires data.Valid() && tree == null
      requires recordRoot.Some? ==> recordContainer.Some?
      modifies this`recordRootNode, this`uniqueIdNode, this`tree, data.Repr
      ensures data.Valid() && data.Repr == old(data.Repr) && tree == data
      ensures data.Model() == Prepared(old(data.Model()))
      ensures recordRoot.None? ==> recordRootNode == old(recordRootNode) && uniqueIdNode == old(uniqueIdNode)
      ensures req.None?
    {
      PrepareTree(data);
      ghost var prepared := data.Model();
      req := TriggerThenStore(data, recordCountUnset);
      assert data.Model() == prepared;
    }

    /** What `sortKids` and, with a record root, `setDelim` make of a tree. */
    ghost function Prepared(given: Tree): (t: Tree)
      reads this`recordRoot, this`uniqueId, this`recordContainer
      requires recordRoot.Some? ==> recordContainer.Some?
      ensures recordRoot.Some? ==> SameShape(t, SortTree(given))
    {
      if recordRoot.Some? then
        DelimTreeShape(SortTree(given), CurrentDelimiting());
        DelimTree(SortTree(given), CurrentDelimiting())
      else SortTree(given)
    }

    /** The end of `index` as written: the unique-id trigger runs before any
        tree is stored, so `setUniqueIdNode` finds no record root and asks
        for nothing; then the tree is stored. */
    method TriggerThenStore(data: Node, recordCountUnset: bool) returns (req: Option<Request>)
      requires tree == null
      modifies this`recordRootNode, this`uniqueIdNode, this`tree
      ensures req.None? && recordRootNode == old(recordRootNode) && uniqueIdNode == old(uniqueIdNode)
      ensures tree == data
    {
      req := None;
      if recordRoot.Some? && recordCountUnset && uniqueIdNode != null {
        req := SetUniqueIdNode(uniqueIdNode);
      }
      tree := data;
    }

    /** `OnIndex` with the tree stored before the unique-id trigger runs:
        the trigger then asks to store the record delimiter proposed for the
        unique-id node, whenever the tree has a candidate record root. */
    method OnIndexCorrected(data: Node, recordCountUnset: bool) returns (req: Option<Request>)
      requires data.Valid() && tree == null
      requires recordRoot.Some? ==> recordContainer.Some?
      modifies this`recordRootNode, this`uniqueIdNode, this`tree, data.Repr
      ensures data.Valid() && data.Repr == old(data.Repr) && tree == data
      ensures data.Model() == Prepared(old(data.Model()))
      ensures recordRoot.None? || !recordCountUnset ==> req.None?
      ensures req.Some? ==> req.value.SetRecordDelimiter? && req.value.fileName == fileName
                            && uniqueIdNode != null && Some(req.value.body) == Proposal(data, uniqueIdNode)
      ensures recordRoot.Some? && recordCountUnset && uniqueIdNode != null && Proposal(data, uniqueIdNode).Some?
              ==> req.Some?
    {
      PrepareTree(data);
      ghost var prepared := data.Model();
      req := StoreThenTrigger(data, recordCountUnset);
      assert data.Model() == prepared;
    }

    /** The end of `index` with the tree stored first: with a record root and
        no stored record count, the delimiter proposed for the unique-id node
        is sent whenever the tree has a candidate record root. */
    method StoreThenTrigger(data: Node, recordCountUnset: bool) returns (req: Option<Request>)
      requires data.Valid()
      modifies this`recordRootNode, this`uniqueIdNode, this`tree
      ensures tree == data && uniqueIdNode == old(uniqueIdNode)
      ensures recordRoot.None? || !recordCountUnset ==> req.None?
      ensures req.Some? ==> req.value.SetRecordDelimiter? && req.value.fileName == fileName
                            && uniqueIdNode != null && Some(req.value.body) == Proposal(data, uniqueIdNode)
      ensures recordRoot.Some? && recordCountUnset && uniqueIdNode != null && Proposal(data, uniqueIdNode).Some?
              ==> req.Some?
    {
      req := None;
      tree := data;
      if recordRoot.Some? && recordCountUnset && uniqueIdNode != null {
        req := SetUniqueIdNode(uniqueIdNode);
      }
    }

    /** `sortKids(tree)`, then `setDelim(tree)` when there is a record root. */
    method PrepareTree(data: Node)
      requires data.Valid()
      requires recordRoot.Some? ==> recordContainer.Some?
      modifies this`recordRootNode, this`uniqueIdNode, data.Repr
      ensures data.Valid() && data.Repr == old(data.Repr)
      ensures data.Model() == Prepared(old(data.Model()))
      ensures recordRoot.None? ==> recordRootNode == old(recordRootNode) && uniqueIdNode == old(uniqueIdNode)
    {
      SortKids(data);
      if recordRoot.Some? {
        DelimitIndex(data);
      }
    }

    /** `setDelim(tree)` over the stored record root, container and unique-id
        path: the last nodes on the record root and on the unique-id path are
        remembered. */
    method DelimitIndex(data: Node)
      requires data.Valid() && recordRoot.Some? && recordContainer.Some?
      modifies this`recordRootNode, this`uniqueIdNode, data.Repr
      ensures data.Valid() && data.Repr == old(data.Repr)
      ensures data.Model() == DelimTree(old(data.Model()), CurrentDelimiting())
      ensures recordRootNode == Assigned(old(LastWithPath(data.PreOrder(), recordRoot, None)), old(recordRootNode))
      ensures uniqueIdNode == Assigned(old(LastWithPath(data.PreOrder(), uniqueId, recordRoot)), old(uniqueIdNode))
    {
      recordRootNode, uniqueIdNode := SetDelim(data, CurrentDelimiting(), recordRootNode, uniqueIdNode);
    }


    /** The `getSourcePaths` response arrives: unlisted source paths are
        dropped from the tree. */
    method OnSourcePaths(sourcePaths: seq<string>)
      requires tree != null && tree.Valid()
      modifies tree.Repr
      ensures tree.Valid() && tree.Repr == old(tree.Repr)
      ensures tree.Model() == FilterTree(old(tree.Model()), sourcePaths)
    {
      FilterSourcePath(tree, sourcePaths);
    }

    /** The route path, when there is one, is followed from the synthetic
        root and the node reached is selected. */
    method SelectRoute() returns (req: Option<Request>)
      requires Valid() && tree != null && tree.Valid()
      modifies this`selectedNode, this`activePath
      ensures Valid()
      ensures (routePath.None? || routePath.value == "") ==> req.None? && unchanged(this)
      ensures routePath.Some? && routePath.value != "" ==>
        match Route([tree], RouteSegments(routePath.value), tree.Repr)
        case None => req.None? && unchanged(this)
        case Some(n) => Selected(n, req, old(selectedNode), old(activePath))
    {
      req := None;
      if routePath.Some? && routePath.value != "" {
        var reached := Descend(RouteSegments(routePath.value), tree);
        if reached.Some? {
          req := SelectNode(reached.value);
        }
      }
    }

    /** What `selectNode(node)` leaves behind: nothing for a node without
        lengths or without a path, otherwise the node selected and its status
        requested. */
    ghost predicate Selected(node: Node, req: Option<Request>, oldSelected: Node?, oldActivePath: Option<string>)
      reads this, node
    {
      if |node.lengths| == 0 || |node.path| == 0 then
        req.None? && selectedNode == oldSelected && activePath == oldActivePath
      else
        selectedNode == node && activePath == Some(node.path)
        && req == Some(NodeStatusRequest(fileName, node.path))
    }

    /** `selectNode(node)`. */
    method SelectNode(node: Node) returns (req: Option<Request>)
      requires Valid()
      modifies this`selectedNode, this`activePath
      ensures Valid() && Selected(node, req, old(selectedNode), old(activePath))
    {
      if |node.lengths| == 0 || |node.path| == 0 {
        return None;
      }
      selectedNode := node;
      activePath := Some(node.path);
      req := Some(NodeStatusRequest(fileName, node.path));
    }

    /** The `nodeStatus` response for `node` arrives: api paths and sizes are
        reset and the view the route asks for is fetched, the histogram when
        it asks for none of the others. */
    method OnNodeStatus(node: Node, data: Status) returns (req: Option<Request>)
      requires Valid()
      modifies this`status, this`apiPathUnique, this`apiPathHistogram, this`sampleSize, this`histogramSize,
               this`activeView, this`sample, this`histogram
      ensures Valid() && status == Some(data)
      ensures apiPathUnique == Some(apiPrefix + "/" + fileName + "/unique" + Sanitized(node.path))
      ensures apiPathHistogram == Some(apiPrefix + "/" + fileName + "/histogram" + Sanitized(node.path))
      ensures sampleSize == Some(100) && histogramSize == Some(100)
      ensures routeView == Some("sample") ==>
        activeView == Some(SampleView) && req == Some(SampleRequest(fileName, routePath, Some(100)))
        && sample == old(sample) && histogram == old(histogram)
      ensures routeView == Some("lengths") ==> activeView == Some(Lengths) && req.None? && sample.None? && histogram.None?
      ensures routeView != Some("sample") && routeView != Some("lengths") ==>
        activeView == Some(HistogramView) && req == Some(HistogramRequest(fileName, routePath, Some(100)))
        && sample == old(sample) && histogram == old(histogram)
    {
      status := Some(data);
      var filePath := Sanitized(node.path);
      apiPathUnique := Some(apiPrefix + "/" + fileName + "/unique" + filePath);
      apiPathHistogram := Some(apiPrefix + "/" + fileName + "/histogram" + filePath);
      sampleSize := Some(100);
      histogramSize := Some(100);
      if routeView == Some("sample") {
        var r := FetchSample();
        req := Some(r);
      } else if routeView == Some("lengths") {
        FetchLengths();
        req := None;
      } else {
        var r := FetchHistogram();
        req := Some(r);
      }
    }

    /** `setUniqueIdNode(node)`: like the dashboard's, except that a missing
        tree finds nothing. */
    method SetUniqueIdNode(node: Node) returns (req: Option<Request>)
      requires tree == null || tree.Valid()
      modifies this`recordRootNode, this`uniqueIdNode
      ensures tree == null ==> req.None? && unchanged(this)
      ensures tree != null ==> match old(SelectFirstEmptyWithCount(tree, node.count))
        case None => req.None? && recordRootNode == old(recordRootNode) && uniqueIdNode == old(uniqueIdNode)
        case Some(m) =>
          && recordRootNode == m && uniqueIdNode == node
          && req == Some(SetRecordDelimiter(fileName, DelimiterBody(m.path, node.path, node.count)))
      ensures tree != null ==> (req.Some? <==> Proposal(tree, node).Some?)
      ensures req.Some? ==> Some(req.value.body) == Proposal(tree, node)
    {
      var found := if tree == null then None else SelectFirstEmptyWithCount(tree, node.count);
      if found.Some? {
        recordRootNode := found.value;
        uniqueIdNode := node;
        req := Some(SetRecordDelimiter(fileName, DelimiterBody(recordRootNode.path, uniqueIdNode.path, uniqueIdNode.count)));
      } else {
        req := None;
      }
    }

    /** `fetchLengths()`: both buffers cleared, the lengths view. */
    method FetchLengths()
      modifies this`activeView, this`sample, this`histogram
      ensures Valid()
      ensures activeView == Some(Lengths) && sample.None? && histogram.None?
    {
      sample := None;
      histogram := None;
      activeView := Some(Lengths);
    }

    /** `fetchSample()`: the sample of the route path at the current size is
        requested, and the view switches to it. */
    method FetchSample() returns (req: Request)
      requires Valid()
      modifies this`activeView
      ensures Valid() && activeView == Some(SampleView)
      ensures req == SampleRequest(fileName, routePath, sampleSize)
    {
      req := SampleRequest(fileName, routePath, sampleSize);
      activeView := Some(SampleView);
    }

    /** The `sample` response arrives: it replaces the histogram. */
    method OnSample(data: seq<string>)
      modifies this`sample, this`histogram
      ensures Valid() && sample == Some(data) && histogram.None?
    {
      sample := Some(data);
      histogram := None;
    }

    /** `fetchHistogram()`: the histogram of the route path at the current
        size is requested, and the view switches to it. */
    method FetchHistogram() returns (req: Request)
      requires Valid()
      modifies this`activeView
      ensures Valid() && activeView == Some(HistogramView)
      ensures req == HistogramRequest(fileName, routePath, histogramSize)
    {
      req := HistogramRequest(fileName, routePath, histogramSize);
      activeView := Some(HistogramView);
    }

    /** The `histogram` response arrives: entries get their percentages, the
        histogram replaces the sample, and both flags are computed. */
    method OnHistogram(data: array<Entry>)
      requires selectedNode != null && status.Some?
      modifies this`histogram, this`sample, this`histogramUnique, this`histogramVocabulary, data
      ensures Valid() && sample.None?
      ensures histogram == Some(Annotated(old(data[..]), selectedNode.count)) && histogram == Some(data[..])
      ensures histogramUnique == HistogramUnique(histogram.value)
      ensures histogramVocabulary == Vocabulary(histogramUnique, status.value.uniqueCount)
    {
      AnnotateHistogram(data, selectedNode.count);
      histogram := Some(data[..]);
      sample := None;
      histogramUnique := HistogramUnique(data[..]);
      histogramVocabulary := Vocabulary(histogramUnique, status.value.uniqueCount);
    }

    /** `isMoreSample()`: false without a status or a sample tier list. */
    function IsMoreSample(): (r: bool)
      reads this
      ensures r ==> status.Some? && status.value.samples.Some?
    {
      status.Some? && IsMore(status.value.samples, sampleSize)
    }

    /** `moreSample()`: the next sample tier, then a sample fetch. */
    method MoreSample() returns (req: Request)
      requires Valid() && status.Some? && status.value.samples.Some?
      modifies this`sampleSize, this`activeView
      ensures Valid() && activeView == Some(SampleView)
      ensures sampleSize == NextSize(status.value.samples.value, old(sampleSize))
      ensures req == SampleRequest(fileName, routePath, sampleSize)
    {
      sampleSize := NextSize(status.value.samples.value, sampleSize);
      req := FetchSample();
    }

    /** `isMoreHistogram()`: false without a status or a histogram tier list. */
    function IsMoreHistogram(): (r: bool)
      reads this
      ensures r ==> status.Some? && status.value.histograms.Some?
    {
      status.Some? && IsMore(status.value.histograms, histogramSize)
    }

    /** `moreHistogram()`: the next histogram tier, then a histogram fetch. */
    method MoreHistogram() returns (req: Request)
      requires Valid() && status.Some? && status.value.histograms.Some?
      modifies this`histogramSize, this`activeView
      ensures Valid() && activeView == Some(HistogramView)
      ensures histogramSize == NextSize(status.value.histograms.value, old(histogramSize))
      ensures req == HistogramRequest(fileName, routePath, histogramSize)
    {
      histogramSize := NextSize(status.value.histograms.value, histogramSize);
      req := FetchHistogram();
    }
  }
}
