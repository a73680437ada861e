# xml-ray file-detail controllers in Dafny

This project models the structure-tree logic and the statistics-view state of
the two file-detail controllers of xml-ray's web client:

- `FileDetailCtrl` of the dashboard, together with `String.prototype.hashCode`;
- `DatasetCtrl` of the dataset page.

Both controllers hold the structure tree of an uploaded XML file. Each node
has a tag, a path, its kids, a `lengths` histogram and an occurrence count.
The dataset copy also has an optional `sourcePath`. The controllers:

- sort every sibling list by lower-cased tag;
- search the tree in pre-order for the first node with values, and for the
  first empty node counted as often as a chosen unique-id node (the
  record-root proposal);
- on the dataset page, set up the record delimiter, classify nodes against
  the record container, prune unlisted source paths, and follow the route
  path;
- keep a small state machine for the lengths, sample and histogram views,
  with their size tiers.

Modules:

| module | file | what it holds |
|---|---|---|
| `Js` | `js.dfy` | the ECMAScript built-ins used, with their edge cases: ToInt32, `toLowerCase` (ASCII), `<` on strings, `indexOf`, `lastIndexOf`, `substring`, first-occurrence `replace`, `split`/`join` |
| `Lodash` | `lodash.dfy` | `_.sortBy` as a stable insertion order over index sequences, and the sorted `_.indexOf` as lodash's binary search |
| `StructureTree` | `structure_tree.dfy` | the `Node` class with its footprint `Repr` and abstract value `Tree`; `sortKids` in place; the two pre-order searches |
| `HashCode` | `hash_code.dfy` | `hashCode` as a loop, and its equality with Java's polynomial hash reduced to 32 bits |
| `FileDetail` | `file_detail.dfy` | what both controllers share: tier stepping, the histogram annotation and flags, the delimiter proposal, and path sanitising |
| `Dashboard` | `dashboard.dfy` | `FileDetailCtrl` as a class |
| `DatasetTree` | `dataset_tree.dfy` | the delimiter set-up, `setDelim`, `filterSourcePath` and the route descent |
| `Dataset` | `dataset.dfy` | `DatasetCtrl` as a class |

Modelling choices:

- Every in-place tree walk (`SortKids`, `SetDelim`, `FilterSourcePath`) is a
  module-level method that takes a `node: Node` and modifies its footprint
  `node.Repr`. It is proved against a function on the tree's value:
  `node.Model() == SortTree(old(node.Model()))` and the like. The properties
  of those functions are separate lemmas.
- `selectFirstWithValues` and `selectFirstEmptyWithCount` only read the tree,
  and their loops end by returning early. They are functions that recurse
  over the kid index, specified against the first matching node of the
  ghost pre-order list `PreOrder()`.
- Each asynchronous completion is its own method taking the response data.
- A service call becomes a returned `Request` value.
- A field the source leaves `undefined` is an `Option`.
- `$routeParams.path` and `$routeParams.view` are constants of `DatasetCtrl`
  (`routePath`, `routeView`). This assumes that a change of the location's
  search, as `setActiveView` and `setActivePath` make, rebuilds the
  controller with the new parameters, which is Angular's default
  (`reloadOnSearch`). The route configuration is not part of this model.

## Model

In the source column, `dashboard-controllers.js` is short for
`app/assets/javascripts/dashboard/dashboard-controllers.js` and
`dataset-controllers.js` for `app/assets/javascripts/dataset/dataset-controllers.js`;
the cells themselves carry the full paths.

| member | source | states |
|---|---|---|
| Js.ToInt32 | app/assets/javascripts/dashboard/dashboard-controllers.js:165-166 | the value `<<` and `&` produce is a signed 32-bit integer congruent to the exact value modulo 2^32 |
| Js.ToInt32Congruent | app/assets/javascripts/dashboard/dashboard-controllers.js:165-166 | values congruent modulo 2^32 wrap to the same 32-bit integer |
| Js.ToInt32OfInt32 | app/assets/javascripts/dashboard/dashboard-controllers.js:166 | `hash & hash` leaves a value that already is a 32-bit integer alone |
| Js.ToLowerCase | app/assets/javascripts/dashboard/dashboard-controllers.js:191 | same length; no upper-case letter is left, each became the lower-case letter at the same place in the alphabet, and every other character is kept (ASCII letters only) |
| Js.ToLowerCaseFixed | app/assets/javascripts/dashboard/dashboard-controllers.js:191 | lowering leaves a string unchanged exactly when it holds no upper-case letter |
| Js.ToLowerCaseIdempotent | app/assets/javascripts/dashboard/dashboard-controllers.js:191 | lowering twice equals lowering once: a sort key is already its own key |
| Js.LessIrreflexive | app/assets/javascripts/dashboard/dashboard-controllers.js:190-192 | no key sorts before itself under the string `<` `_.sortBy` compares with |
| Js.LessAsymmetric | app/assets/javascripts/dashboard/dashboard-controllers.js:190-192 | two keys never both sort before each other |
| Js.LessTransitive | app/assets/javascripts/dashboard/dashboard-controllers.js:190-192 | the string order is transitive |
| Js.LessTotal | app/assets/javascripts/dashboard/dashboard-controllers.js:190-192 | two keys are equal or one sorts before the other |
| Js.IndexOf | app/assets/javascripts/dashboard/dashboard-controllers.js:250 | `indexOf` of a character: -1 exactly when it is absent, otherwise a position holding it with no earlier occurrence |
| Js.LastIndexOf | app/assets/javascripts/dataset/dataset-controllers.js:51 | `lastIndexOf`: -1 exactly when absent, otherwise a position holding it with no later occurrence |
| Js.SubstringPrefix | app/assets/javascripts/dataset/dataset-controllers.js:78-79 | `s.substring(0, p.length) == p` holds exactly when `p` is a prefix of `s`, also when `p` is longer than `s` |
| Js.ReplaceFirst | app/assets/javascripts/dashboard/dashboard-controllers.js:250 | `replace` with a one-character pattern changes the first occurrence only; without one the string is unchanged |
| Js.IndexOfSamePositions | app/assets/javascripts/dataset/dataset-controllers.js:170 | strings holding a character at the same positions agree on its `indexOf` |
| Js.Split | app/assets/javascripts/dataset/dataset-controllers.js:127 | `split` yields at least one piece and no piece holds the separator |
| Js.JoinSplit | app/assets/javascripts/dataset/dataset-controllers.js:127 | joining the pieces of a split gives back the string |
| Lodash.Insert | app/assets/javascripts/dashboard/dashboard-controllers.js:190-192 | one insertion step adds exactly the new index |
| Lodash.OrderOf | app/assets/javascripts/dashboard/dashboard-controllers.js:190-192 | the order `_.sortBy` gives the first `k` elements lists each of their indices exactly once |
| Lodash.SortByOrder | app/assets/javascripts/dashboard/dashboard-controllers.js:190-192 | the order of a whole collection is as long as the collection and stays within it |
| Lodash.InsertOrdered | app/assets/javascripts/dashboard/dashboard-controllers.js:190-192 | inserting an index into a key-ordered sequence keeps it key-ordered |
| Lodash.InsertStable | app/assets/javascripts/dashboard/dashboard-controllers.js:190-192 | inserting an index larger than all present keeps equal keys in their original relative order |
| Lodash.OrderSorted | app/assets/javascripts/dashboard/dashboard-controllers.js:190-192 | `_.sortBy` puts keys in non-decreasing order |
| Lodash.OrderStable | app/assets/javascripts/dashboard/dashboard-controllers.js:190-192 | `_.sortBy` is stable |
| Lodash.OrderStep | app/assets/javascripts/dashboard/dashboard-controllers.js:190-192 | the order of `k` elements is the order of `k - 1` with index `k - 1` inserted |
| Lodash.OrderPermutes | app/assets/javascripts/dashboard/dashboard-controllers.js:190-192 | the reordered first `k` elements are a permutation of them |
| Lodash.SortByPermutes | app/assets/javascripts/dashboard/dashboard-controllers.js:190-192 | `_.sortBy` returns a permutation of its collection |
| Lodash.OrderOfSorted | app/assets/javascripts/dataset/dataset-controllers.js:61-63 | keys already in order are left where they are |
| Lodash.SortedIndex | app/assets/javascripts/dashboard/dashboard-controllers.js:342 | lodash's binary search stays within the range it searches |
| Lodash.SortedIndexOf | app/assets/javascripts/dashboard/dashboard-controllers.js:342 | the sorted `_.indexOf` is -1 or a position holding the value; an absent size gives -1 |
| Lodash.SortedIndexIsLowerBound | app/assets/javascripts/dashboard/dashboard-controllers.js:342 | on an ascending array the search lands where everything before is smaller and nothing after is |
| Lodash.SortedIndexOfFindsFirst | app/assets/javascripts/dashboard/dashboard-controllers.js:347 | on an ascending array the result is -1 exactly when the value is absent, otherwise its first position |
| StructureTree.Node.PreOrder | app/assets/javascripts/dashboard/dashboard-controllers.js:199-210 | the visiting order of the searches starts at the node and stays inside its footprint |
| StructureTree.TagKeys | app/assets/javascripts/dashboard/dashboard-controllers.js:190-192 | one lower-cased tag key per kid |
| StructureTree.SortTreeKeepsFields | app/assets/javascripts/dashboard/dashboard-controllers.js:188-197 | sorting keeps tag, path, lengths, count and source path of the node |
| StructureTree.SortTreeKids | app/assets/javascripts/dashboard/dashboard-controllers.js:190-195 | the new kids are the old kids taken in `_.sortBy` order, each sorted in turn |
| StructureTree.SortTreePermutes | app/assets/javascripts/dashboard/dashboard-controllers.js:190-195 | each sibling list becomes a permutation of its (sorted) old kids |
| StructureTree.SortTreeStable | app/assets/javascripts/dashboard/dashboard-controllers.js:190-192 | siblings with equal lower-cased tags keep their relative order |
| StructureTree.SortedKeys | app/assets/javascripts/dashboard/dashboard-controllers.js:190-192 | the kids' keys read in the new order never decrease |
| StructureTree.SortTreeSorted | app/assets/javascripts/dashboard/dashboard-controllers.js:188-197 | after sorting, the siblings are in order at every level |
| StructureTree.SortTreeOfSorted | app/assets/javascripts/dataset/dataset-controllers.js:59-67 | sorting an already sorted tree changes nothing |
| StructureTree.SortTreeIdempotent | app/assets/javascripts/dataset/dataset-controllers.js:59-67 | sorting twice is sorting once |
| StructureTree.SortKids | app/assets/javascripts/dashboard/dashboard-controllers.js:188-197 | in place, the tree's value becomes its sorted value; the footprint and the set of kids are unchanged |
| StructureTree.SortEachKid | app/assets/javascripts/dashboard/dashboard-controllers.js:193-195 | the loop sorting every kid in the new order completes the sorted value of the node |
| StructureTree.ReorderKids | app/assets/javascripts/dashboard/dashboard-controllers.js:190-192 | the kids list is replaced by a permutation of itself in `_.sortBy` order |
| StructureTree.SortKidAt | app/assets/javascripts/dashboard/dashboard-controllers.js:194 | sorting one kid sorts its subtree and leaves its siblings' values alone |
| StructureTree.FirstWithValues | app/assets/javascripts/dashboard/dashboard-controllers.js:199-210 | the reference search: none exactly when no node has lengths, otherwise a node with lengths before which none has them |
| StructureTree.FirstWithValuesConcat | app/assets/javascripts/dashboard/dashboard-controllers.js:204-207 | searching two lists in turn is searching the first, then the second |
| StructureTree.SelectFirstWithValues | app/assets/javascripts/dashboard/dashboard-controllers.js:199-210 | `selectFirstWithValues` is the first node with lengths in pre-order; a node with lengths is itself the result |
| StructureTree.FirstWithValuesAmong | app/assets/javascripts/dashboard/dashboard-controllers.js:204-208 | the loop over the kids from `i` on finds the first node with lengths in their pre-orders |
| StructureTree.FirstEmptyWithCount | app/assets/javascripts/dashboard/dashboard-controllers.js:212-221 | the reference search: none exactly when no node is empty with the count, otherwise such a node before which there is none |
| StructureTree.FirstEmptyWithCountConcat | app/assets/javascripts/dashboard/dashboard-controllers.js:216-219 | searching two lists in turn is searching the first, then the second |
| StructureTree.SelectFirstEmptyWithCount | app/assets/javascripts/dashboard/dashboard-controllers.js:212-221 | `selectFirstEmptyWithCount` is the first empty node with the count in pre-order |
| StructureTree.FirstEmptyWithCountAmong | app/assets/javascripts/dashboard/dashboard-controllers.js:216-220 | the loop over the kids from `i` on finds the first such node in their pre-orders |
| HashCode.Hash | app/assets/javascripts/dashboard/dashboard-controllers.js:159-169 | the hash of the empty string is 0, and every hash is a signed 32-bit integer |
| HashCode.StepIsInt32 | app/assets/javascripts/dashboard/dashboard-controllers.js:165-166 | one turn of the loop is `int32(31*h + c)` |
| HashCode.HashAppend | app/assets/javascripts/dashboard/dashboard-controllers.js:163-167 | `hash(s + [c]) == int32(31*hash(s) + c)` |
| HashCode.HashIsPoly | app/assets/javascripts/dashboard/dashboard-controllers.js:159-169 | the hash is Java's polynomial string hash reduced to 32 bits |
| HashCode.HashCodeOf | app/assets/javascripts/dashboard/dashboard-controllers.js:159-169 | the loop computes the hash |
| FileDetail.NextSize | app/assets/javascripts/dashboard/dashboard-controllers.js:347-348 | the size stepped to, when there is one, is one of the tiers |
| FileDetail.IsMoreCases | app/assets/javascripts/dashboard/dashboard-controllers.js:340-344 | on ascending tiers there is more exactly when the size is absent from a non-empty list, or is a tier at some position before the last |
| FileDetail.NextSizeFromAbsent | app/assets/javascripts/dashboard/dashboard-controllers.js:346-349 | from a size that is not a tier, the step lands on tier 0 |
| FileDetail.NextSizeFromTier | app/assets/javascripts/dashboard/dashboard-controllers.js:352-361 | on strictly ascending tiers, from tier `k` the step lands on tier `k + 1`, and there is more exactly when that tier exists |
| FileDetail.MoreLandsOnTier | app/assets/javascripts/dashboard/dashboard-controllers.js:340-349 | whenever `isMore` holds, `more` steps to a defined size |
| FileDetail.TypicalTiers | app/assets/javascripts/dashboard/dashboard-controllers.js:340-349 | with tiers [10, 50, 100]: none after 100, 50 steps to 100, an unlisted 70 steps to 10 |
| FileDetail.Annotated | app/assets/javascripts/dashboard/dashboard-controllers.js:330-333 | every entry grows by exactly one field, its old fields kept |
| FileDetail.AnnotateHistogram | app/assets/javascripts/dashboard/dashboard-controllers.js:330-333 | the array of entries is annotated in place |
| FileDetail.UniqueAfterAnnotation | app/assets/javascripts/dashboard/dashboard-controllers.js:336 | `histogramUnique` after the annotation holds exactly when the first entry's count is 1 |
| FileDetail.Vocabulary | app/assets/javascripts/dataset/dataset-controllers.js:240 | the vocabulary is never offered for a unique histogram, without a distinct count (`undefined < 12500` is false) or at 12500 distinct values or more, and is offered otherwise |
| FileDetail.ProposalMeaning | app/assets/javascripts/dashboard/dashboard-controllers.js:259-268 | a delimiter body exists exactly when some node is empty and counted as often as the unique id; its record root is such a node's path, with the unique id's path and count |
| FileDetail.Sanitized | app/assets/javascripts/dashboard/dashboard-controllers.js:250 | sanitising keeps the path's length |
| FileDetail.SanitizedChangesAtMostTwo | app/assets/javascripts/dataset/dataset-controllers.js:170 | every position but the first colon and the first at-sign keeps its character |
| FileDetail.SanitizedExample | app/assets/javascripts/dataset/dataset-controllers.js:170 | a second colon survives sanitising |
| Dashboard.FileDetailCtrl.constructor | app/assets/javascripts/dashboard/dashboard-controllers.js:184-186 | nothing selected, no unique id or record root, no tree |
| Dashboard.FileDetailCtrl.OnIndex | app/assets/javascripts/dashboard/dashboard-controllers.js:239-241 | the tree is sorted in place and stored |
| Dashboard.FileDetailCtrl.SelectFirstOf | app/assets/javascripts/dashboard/dashboard-controllers.js:242-243 | with a first node with values, that node is selected as by `selectNode`; without one nothing changes |
| Dashboard.FileDetailCtrl.SelectNode | app/assets/javascripts/dashboard/dashboard-controllers.js:246-257 | a node without lengths changes nothing; otherwise it is selected, sizes are 100, the lengths view shows with both buffers cleared, and its status is requested |
| Dashboard.FileDetailCtrl.OnNodeStatus | app/assets/javascripts/dashboard/dashboard-controllers.js:254-256 | the status is stored |
| Dashboard.FileDetailCtrl.SetUniqueIdNode | app/assets/javascripts/dashboard/dashboard-controllers.js:259-273 | with no match nothing changes and nothing is sent; with a match, it becomes the record root, the node the unique id, and the proposal is sent |
| Dashboard.FileDetailCtrl.FetchLengths | app/assets/javascripts/dashboard/dashboard-controllers.js:275-279 | lengths view, both buffers cleared |
| Dashboard.FileDetailCtrl.FetchSample | app/assets/javascripts/dashboard/dashboard-controllers.js:319-321 | sample view; the selected node's sample at the current size is requested |
| Dashboard.FileDetailCtrl.OnSample | app/assets/javascripts/dashboard/dashboard-controllers.js:321-324 | the sample is stored and the histogram cleared |
| Dashboard.FileDetailCtrl.FetchHistogram | app/assets/javascripts/dashboard/dashboard-controllers.js:327-329 | histogram view; the selected node's histogram at the current size is requested |
| Dashboard.FileDetailCtrl.OnHistogram | app/assets/javascripts/dashboard/dashboard-controllers.js:329-337 | entries annotated in place, histogram stored, sample cleared, `histogramUnique` computed |
| Dashboard.FileDetailCtrl.IsMoreSample | app/assets/javascripts/dashboard/dashboard-controllers.js:340-344 | false without a status or a sample tier list |
| Dashboard.FileDetailCtrl.MoreSample | app/assets/javascripts/dashboard/dashboard-controllers.js:346-350 | the size steps to the next tier and that sample is requested |
| Dashboard.FileDetailCtrl.IsMoreHistogram | app/assets/javascripts/dashboard/dashboard-controllers.js:352-356 | false without a status or a histogram tier list |
| Dashboard.FileDetailCtrl.MoreHistogram | app/assets/javascripts/dashboard/dashboard-controllers.js:358-362 | the size steps to the next tier and that histogram is requested |
| DatasetTree.DelimiterSetup | app/assets/javascripts/dataset/dataset-controllers.js:41-56 | with a record root, the container is a prefix of it |
| DatasetTree.HarvestSetup | app/assets/javascripts/dataset/dataset-controllers.js:41-47 | a harvest delimits by `/pockets/pocket` with unique id `/pockets/pocket/@id` and forbids setting the unique id |
| DatasetTree.DelimitSetup | app/assets/javascripts/dataset/dataset-controllers.js:48-53 | with a stored record root, the container is that root up to, not including, its last `/`, and setting the unique id is allowed exactly for a drop |
| DatasetTree.NoDelimitSetup | app/assets/javascripts/dataset/dataset-controllers.js:54-56 | otherwise only the permission is set, to true |
| DatasetTree.DelimNode | app/assets/javascripts/dataset/dataset-controllers.js:71-87 | classifying a node keeps its tag, kids, lengths and count |
| DatasetTree.DelimNodeCases | app/assets/javascripts/dataset/dataset-controllers.js:71-87 | record root and unique id are left as they are; outside the container the path is cleared; inside it the source path is the prefix plus the rest of the path |
| DatasetTree.DelimTreeShape | app/assets/javascripts/dataset/dataset-controllers.js:70-91 | `setDelim` keeps the shape of the tree |
| DatasetTree.FilterTreeListed | app/assets/javascripts/dataset/dataset-controllers.js:100-106 | afterwards every remaining non-empty source path is listed |
| DatasetTree.FilterTreeOfListed | app/assets/javascripts/dataset/dataset-controllers.js:100-106 | a tree whose source paths are all listed is left unchanged |
| DatasetTree.FilterTreeIdempotent | app/assets/javascripts/dataset/dataset-controllers.js:100-108 | pruning twice with the same list is pruning once |
| DatasetTree.FilterTreeShape | app/assets/javascripts/dataset/dataset-controllers.js:100-106 | tags, lengths, counts and the kids' shape are unchanged; at every node the path is unchanged, a missing source path stays missing, a listed one is kept and an unlisted one is dropped |
| DatasetTree.FilterSourcePath | app/assets/javascripts/dataset/dataset-controllers.js:100-107 | in place, the tree's value becomes its pruned value |
| DatasetTree.FilterKidAt | app/assets/javascripts/dataset/dataset-controllers.js:105 | pruning one kid leaves its siblings' values alone |
| DatasetTree.LastWithPathIsLast | app/assets/javascripts/dataset/dataset-controllers.js:71-76 | the node a walk records is one with the path, and no later node has it |
| DatasetTree.SetDelim | app/assets/javascripts/dataset/dataset-controllers.js:70-91 | in place, the tree's value becomes its delimited value; the record root and the unique id become the last nodes with those paths in pre-order, or stay as they were |
| DatasetTree.DelimKids | app/assets/javascripts/dataset/dataset-controllers.js:88-90 | the loop delimits every kid and keeps the last hits over the kids |
| DatasetTree.ClassifyNode | app/assets/javascripts/dataset/dataset-controllers.js:71-87 | the node's path and source path become those of its classification, and a hit on the node itself is recorded |
| DatasetTree.DelimKidAt | app/assets/javascripts/dataset/dataset-controllers.js:89 | delimiting one kid records that kid's hits |
| DatasetTree.RouteSegments | app/assets/javascripts/dataset/dataset-controllers.js:127 | the segments are at least one, and they join back to the route path without its first character |
| DatasetTree.FirstWithTag | app/assets/javascripts/dataset/dataset-controllers.js:119-124 | the first kid whose tag is exactly the segment, or -1 exactly when there is none |
| DatasetTree.Route | app/assets/javascripts/dataset/dataset-controllers.js:113-126 | a node reached carries the last segment as its tag |
| DatasetTree.Descend | app/assets/javascripts/dataset/dataset-controllers.js:113-127 | the descent from the synthetic root reaches the node the route names, or nothing |
| Dataset.DatasetCtrl.constructor | app/assets/javascripts/dataset/dataset-controllers.js:33-35 | nothing selected, no unique id or record root, no tree |
| Dataset.DatasetCtrl.OnDatasetInfo | app/assets/javascripts/dataset/dataset-controllers.js:37-56 | the scope fields take the delimiter set-up; without a record root only the permission changes |
| Dataset.DatasetCtrl.OnIndex | app/assets/javascripts/dataset/dataset-controllers.js:58-111 | the tree is sorted, delimited with a record root, and stored; no delimiter is ever sent |
| Dataset.DatasetCtrl.Prepared | app/assets/javascripts/dataset/dataset-controllers.js:68-93 | with a record root the prepared tree has the shape of the sorted tree |
| Dataset.DatasetCtrl.TriggerThenStore | app/assets/javascripts/dataset/dataset-controllers.js:94-111 | the trigger, run before the tree is stored, sends nothing and changes no node field |
| Dataset.DatasetCtrl.OnIndexCorrected | app/assets/javascripts/dataset/dataset-controllers.js:58-111 | as `OnIndex` with the tree stored first: with a record root and no record count, the proposal for the unique-id node is sent exactly when the tree has a candidate |
| Dataset.DatasetCtrl.StoreThenTrigger | app/assets/javascripts/dataset/dataset-controllers.js:94-111 | the tree stored first, the trigger sends exactly the proposal when there is one |
| Dataset.DatasetCtrl.PrepareTree | app/assets/javascripts/dataset/dataset-controllers.js:68-93 | sorting, then delimiting with a record root, makes the tree's value its prepared value |
| Dataset.DatasetCtrl.DelimitIndex | app/assets/javascripts/dataset/dataset-controllers.js:92-93 | `setDelim` over the scope's delimiting records record root and unique-id node |
| Dataset.DatasetCtrl.OnSourcePaths | app/assets/javascripts/dataset/dataset-controllers.js:99-109 | the stored tree is pruned by the listed source paths |
| Dataset.DatasetCtrl.SelectRoute | app/assets/javascripts/dataset/dataset-controllers.js:127 | without a route path nothing changes; otherwise the node the route reaches, if any, is selected |
| Dataset.DatasetCtrl.SelectNode | app/assets/javascripts/dataset/dataset-controllers.js:163-168 | a node without lengths or with a cleared path changes nothing; otherwise it is selected, becomes the active path, and its status is requested |
| Dataset.DatasetCtrl.OnNodeStatus | app/assets/javascripts/dataset/dataset-controllers.js:168-186 | the status is stored, api paths and sizes reset, and the route's view fetched: sample, lengths, or the histogram for anything else |
| Dataset.DatasetCtrl.SetUniqueIdNode | app/assets/javascripts/dataset/dataset-controllers.js:189-215 | without a tree nothing happens; with no match nothing changes; with a match, record root and unique id are set and the proposal is sent |
| Dataset.DatasetCtrl.FetchLengths | app/assets/javascripts/dataset/dataset-controllers.js:217-221 | lengths view, both buffers cleared |
| Dataset.DatasetCtrl.FetchSample | app/assets/javascripts/dataset/dataset-controllers.js:223-229 | sample view; the route path's sample at the current size is requested |
| Dataset.DatasetCtrl.OnSample | app/assets/javascripts/dataset/dataset-controllers.js:224-227 | the sample is stored and the histogram cleared |
| Dataset.DatasetCtrl.FetchHistogram | app/assets/javascripts/dataset/dataset-controllers.js:231-243 | histogram view; the route path's histogram at the current size is requested |
| Dataset.DatasetCtrl.OnHistogram | app/assets/javascripts/dataset/dataset-controllers.js:232-241 | entries annotated in place, histogram stored, sample cleared, `histogramUnique` and `histogramVocabulary` computed |
| Dataset.DatasetCtrl.IsMoreSample | app/assets/javascripts/dataset/dataset-controllers.js:245-249 | false without a status or a sample tier list |
| Dataset.DatasetCtrl.MoreSample | app/assets/javascripts/dataset/dataset-controllers.js:251-255 | the size steps to the next tier and that sample is requested |
| Dataset.DatasetCtrl.IsMoreHistogram | app/assets/javascripts/dataset/dataset-controllers.js:257-261 | false without a status or a histogram tier list |
| Dataset.DatasetCtrl.MoreHistogram | app/assets/javascripts/dataset/dataset-controllers.js:263-267 | the size steps to the next tier and that histogram is requested |

## Left out

- Service calls, promises and responses that arrive late or out of order. A
  call is a returned `Request`; a response is a method call.
- `DashboardCtrl` (uploads and polling), `TreeCtrl`, `TreeNodeCtrl`,
  `NodeCtrl` and the `main.js` module registrations: timers, I/O and Angular
  wiring.
- Navigation and DOM glue: `scrollTo`, `goToDashboard`, `goToTerms`,
  `setAligning`, `$event.stopPropagation`, `$location.search` inside
  `setActiveView`/`setActivePath`, and the redirect of a missing user. Only
  the `activeView`/`activePath` assignments are modelled.
- URL construction: `absUrl`, `apiPrefix` and the hash's hexadecimal
  formatting (`toString(16).substring(1)`). `apiPrefix` is a constructor
  argument, and `hashCode` itself is modelled.
- `getColor`, `getX`, `getY`: chart accessors and floating-point colours.
- The histogram percentage `(100 * entry[0]) / count` is a float. It is
  modelled as an uninterpreted `Percent` cell holding its operands.
- `toLowerCase` lowers ASCII letters only.
- Js.Less compares characters as Unicode scalar values, while JavaScript's
  `<` compares UTF-16 code units. The two orders disagree when a character
  outside the Basic Multilingual Plane (U+10000 and up, a surrogate pair
  starting 0xD800-0xDBFF) meets one in U+E000-U+FFFF. For example, a tag
  starting U+10000 sorts after one starting U+FFFD here and before it in the
  source, so `sortKids` orders such siblings the other way round.
- `hashCode` works on UTF-16 code units, given as a sequence of integers;
  `charCodeAt` is not modelled.
- Loose equality (`==` between a count and a number, an entry's first field
  and 1) is modelled as equality of integers.
- The `parseInt(datasetInfo.delimit.recordCount) <= 0` test is a boolean
  parameter (`recordCountUnset`). Parsing is not modelled. Neither is the
  TypeError the test raises for a harvest without `delimit`.
- `allowUniqueIdSet`, and the flags `histogramUnique` of both controllers and
  `histogramVocabulary` of the dataset page, are plain booleans that start
  as `false`. The source never initialises them, and
  `data.histogram[0] && …` leaves `histogramUnique` `undefined` for an empty
  histogram. Both are falsy, so every test of these flags reads the same.
- The `$scope.histogram = data` response object is modelled as its entry
  list.
- Dataset.DatasetCtrl.OnIndex: it requires that no tree is stored yet. The
  index is requested once, by the freshly built controller. OnIndex states
  the recorded record-root and unique-id nodes only through DelimitIndex.
- Dataset.DatasetCtrl.OnIndex: the `getSourcePaths` request it issues is not
  returned; its response is `OnSourcePaths`.
- Dashboard.FileDetailCtrl.OnIndex: the `index` completion is split into
  OnIndex (sort and store) and SelectFirstOf (select the first node with
  values).
- Dataset.DatasetCtrl.SelectRoute: `path.shift()` consuming the segment array
  is modelled by the loop of DatasetTree.Descend, which drops the head of an
  immutable segment sequence; DatasetTree.Route is its recursive reference.
  The array's mutation itself is not modelled.
- Dataset.DatasetCtrl.OnIndex: the last step of the `index` completion, the
  route selection, is the separate method SelectRoute, called on the stored
  tree.
- Crash paths are preconditions rather than modelled errors. The source
  throws a TypeError in each of these cases, so the model requires their
  absence:
  - Dashboard.FileDetailCtrl.SetUniqueIdNode requires a stored tree
    (`selectFirstEmptyWithCount` reads `node.lengths` of the undefined tree);
  - FetchSample, FetchHistogram, OnHistogram, MoreSample and MoreHistogram
    of the dashboard, and OnHistogram of the dataset page, require a
    selected node (they read `selectedNode.path` or `selectedNode.count`);
  - MoreSample and MoreHistogram of both controllers require a status with
    the tier list (they read `status.samples` or `status.histograms`);
  - Dataset.DatasetCtrl.OnHistogram requires a status (it reads
    `status.uniqueCount`).

## Findings

| source | as written | input that shows it | evidently intended | confidence | as-written member | corrected member |
|---|---|---|---|---|---|---|
| app/assets/javascripts/dataset/dataset-controllers.js:94-111 | the record-count trigger calls `setUniqueIdNode` before `$scope.tree = tree`, so the search runs on an undefined tree, finds nothing, and no delimiter is sent | a dataset with a stored record root, record count 0, and a unique-id node whose count matches an empty node of the tree | the tree is searched and the delimiter with the record count is sent | not executed | Dataset.DatasetCtrl.OnIndex | Dataset.DatasetCtrl.OnIndexCorrected |
