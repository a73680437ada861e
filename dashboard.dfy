/** `FileDetailCtrl` of the dashboard: the structure tree of one uploaded
    file, the node selected in it, and the statistics shown for that node. */
module Dashboard {
  import opened Js
  import opened StructureTree
  import opened FileDetail

  class FileDetailCtrl {
    const fileName: string
    /** The URL prefix of the statistics api for this file. */
    const apiPrefix: string
    var tree: Node?
    var selectedNode: Node?
    var uniqueIdNode: Node?
    var recordRootNode: Node?
    var apiPath: Option<string>
    var sampleSize: Option<int>
    var histogramSize: Option<int>
    var activeView: Option<View>
    var sample: Option<seq<string>>
    var histogram: Option<seq<Entry>>
    var histogramUnique: bool
    var status: Option<Status>

    /** At most one of the sample and histogram buffers is filled. */
    ghost predicate Valid()
      reads this
    {
      !(sample.Some? && histogram.Some?)
    }

    constructor (fileName: string, apiPrefix: string)
      ensures Valid()
      ensures this.fileName == fileName && this.apiPrefix == apiPrefix
      ensures tree == null && selectedNode == null && uniqueIdNode == null && recordRootNode == null
      ensures apiPath.None? && sampleSize.None? && histogramSize.None? && activeView.None?
      ensures sample.None? && histogram.None? && !histogramUnique && status.None?
    {
      this.fileName := fileName;
      this.apiPrefix := apiPrefix;
      tree, selectedNode, uniqueIdNode, recordRootNode := null, null, null, null;
      apiPath, sampleSize, histogramSize, activeView := None, None, None, None;
      sample, histogram, histogramUnique, status := None, None, false, None;
    }

    /** The `index` response arrives: the tree is sorted and kept. The
        completion then selects the first node with values, as
        `SelectFirstOf`. */
    method OnIndex(data: Node)
      requires data.Valid()
      modifies this`tree, data.Repr
      ensures data.Valid() && data.Repr == old(data.Repr)
      ensures data.Model() == SortTree(old(data.Model()))
      ensures tree == data
    {
      SortKids(data);
      tree := data;
    }

    /** The end of the `index` completion: the first node with values of the
        (sorted) tree is selected, when there is one. */
    method SelectFirstOf(data: Node) returns (req: Option<Request>)
      requires Valid() && data.Valid()
      modifies this`selectedNode, this`apiPath, this`sampleSize, this`histogramSize,
               this`activeView, this`sample, this`histogram
      ensures Valid()
      ensures match old(SelectFirstWithValues(data))
        case None => req.None? && unchanged(this)
        case Some(first) =>
          && selectedNode == first && req == Some(NodeStatusRequest(fileName, first.path))
          && apiPath == Some(apiPrefix + Sanitized(first.path))
          && sampleSize == Some(100) && histogramSize == Some(100)
          && activeView == Some(Lengths) && sample.None? && histogram.None?
    {
      var first := SelectFirstWithValues(data);
      if first.Some? {
        req := SelectNode(first.value);
      } else {
        req := None;
      }
    }

    /** `selectNode(node)`: ignored for a node without lengths, otherwise the
        node becomes the selection with fresh sizes and the lengths view, and
        its status is requested. */
    method SelectNode(node: Node) returns (req: Option<Request>)
      requires Valid()
      modifies this`selectedNode, this`apiPath, this`sampleSize, this`histogramSize,
               this`activeView, this`sample, this`histogram
      ensures Valid()
      ensures |node.lengths| == 0 ==> req.None? && unchanged(this)
      ensures |node.lengths| > 0 ==>
        && selectedNode == node
        && apiPath == Some(apiPrefix + Sanitized(node.path))
        && sampleSize == Some(100) && histogramSize == Some(100)
        && activeView == Some(Lengths) && sample.None? && histogram.None?
        && req == Some(NodeStatusRequest(fileName, node.path))
    {
      if |node.lengths| == 0 {
        return None;
      }
      var apiPathOfNode := apiPrefix + Sanitized(node.path);
      selectedNode := node;
      apiPath := Some(apiPathOfNode);
      sampleSize := Some(100);
      histogramSize := Some(100);
      FetchLengths();
      req := Some(NodeStatusRequest(fileName, node.path));
    }

    /** The `nodeStatus` response arrives. */
    method OnNodeStatus(data: Status)
      requires Valid()
      modifies this`status
      ensures Valid() && status == Some(data)
    {
      status := Some(data);
    }

    /** `setUniqueIdNode(node)`: when the tree holds an empty node counted as
        often as `node`, that node becomes the record root, `node` the unique
        id, and the delimiter is sent; otherwise nothing changes. */
    method SetUniqueIdNode(node: Node) returns (req: Option<Request>)
      requires Valid() && tree != null && tree.Valid()
      modifies this`recordRootNode, this`uniqueIdNode
      ensures Valid()
      ensures match old(SelectFirstEmptyWithCount(tree, node.count))
        case None => req.None? && recordRootNode == old(recordRootNode) && uniqueIdNode == old(uniqueIdNode)
        case Some(m) =>
          && recordRootNode == m && uniqueIdNode == node
          && req == Some(SetRecordDelimiter(fileName, DelimiterBody(m.path, node.path, node.count)))
      ensures req.Some? <==> old(Proposal(tree, node)).Some?
      ensures req.Some? ==> Some(req.value.body) == old(Proposal(tree, node))
    {
      var found := SelectFirstEmptyWithCount(tree, node.count);
      if found.Some? {
        recordRootNode := found.value;
        uniqueIdNode := node;
        req := Some(SetRecordDelimiter(fileName, DelimiterBody(recordRootNode.path, uniqueIdNode.path, uniqueIdNode.count)));
      } else {
        req := None;
      }
    }

    /** `fetchLengths()`: the lengths view, with both buffers cleared. */
    method FetchLengths()
      modifies this`activeView, this`sample, this`histogram
      ensures Valid()
      ensures activeView == Some(Lengths) && sample.None? && histogram.None?
    {
      activeView := Some(Lengths);
      sample := None;
      histogram := None;
    }

    /** `fetchSample()`: the sample view; the sample of the selected node at
        the current size is requested. */
    method FetchSample() returns (req: Request)
      requires Valid() && selectedNode != null
      modifies this`activeView
      ensures Valid() && activeView == Some(SampleView)
      ensures req == SampleRequest(fileName, Some(selectedNode.path), sampleSize)
    {
      activeView := Some(SampleView);
      req := SampleRequest(fileName, Some(selectedNode.path), sampleSize);
    }

    /** The `sample` response arrives: it replaces the histogram. */
    method OnSample(data: seq<string>)
      modifies this`sample, this`histogram
      ensures Valid() && sample == Some(data) && histogram.None?
    {
      sample := Some(data);
      histogram := None;
    }

    /** `fetchHistogram()`: the histogram view; the histogram of the selected
        node at the current size is requested. */
    method FetchHistogram() returns (req: Request)
      requires Valid() && selectedNode != null
      modifies this`activeView
      ensures Valid() && activeView == Some(HistogramView)
      ensures req == HistogramRequest(fileName, Some(selectedNode.path), histogramSize)
    {
      activeView := Some(HistogramView);
      req := HistogramRequest(fileName, Some(selectedNode.path), histogramSize);
    }

    /** The `histogram` response arrives: each entry gets its percentage of
        the selected node's count, the histogram replaces the sample, and
        `histogramUnique` is computed. */
    method OnHistogram(data: array<Entry>)
      requires selectedNode != null
      modifies this`histogram, this`sample, this`histogramUnique, data
      ensures Valid() && sample.None?
      ensures histogram == Some(Annotated(old(data[..]), selectedNode.count)) && histogram == Some(data[..])
      ensures histogramUnique == HistogramUnique(histogram.value)
    {
      AnnotateHistogram(data, selectedNode.count);
      histogram := Some(data[..]);
      sample := None;
      histogramUnique := HistogramUnique(data[..]);
    }

    /** `isMoreSample()`: false without a status or a sample tier list. */
    function IsMoreSample(): (r: bool)
      reads this
      ensures r ==> status.Some? && status.value.samples.Some?
    {
      status.Some? && IsMore(status.value.samples, sampleSize)
    }

    /** `moreSample()`: the next sample tier, then a sample fetch. */
    method MoreSample() returns (req: Request)
      requires Valid() && status.Some? && status.value.samples.Some? && selectedNode != null
      modifies this`sampleSize, this`activeView
      ensures Valid() && activeView == Some(SampleView)
      ensures sampleSize == NextSize(status.value.samples.value, old(sampleSize))
      ensures req == SampleRequest(fileName, Some(selectedNode.path), sampleSize)
    {
      sampleSize := NextSize(status.value.samples.value, sampleSize);
      req := FetchSample();
    }

    /** `isMoreHistogram()`: false without a status or a histogram tier list. */
    function IsMoreHistogram(): (r: bool)
      reads this
      ensures r ==> status.Some? && status.value.histograms.Some?
    {
      status.Some? && IsMore(status.value.histograms, histogramSize)
    }

    /** `moreHistogram()`: the next histogram tier, then a histogram fetch. */
    method MoreHistogram() returns (req: Request)
      requires Valid() && status.Some? && status.value.histograms.Some? && selectedNode != null
      modifies this`histogramSize, this`activeView
      ensures Valid() && activeView == Some(HistogramView)
      ensures histogramSize == NextSize(status.value.histograms.value, old(histogramSize))
      ensures req == HistogramRequest(fileName, Some(selectedNode.path), histogramSize)
    {
      histogramSize := NextSize(status.value.histograms.value, histogramSize);
      req := FetchHistogram();
    }
  }
}
