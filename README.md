# DSA assignment: a verified model of the single-threaded exercises

This project models the algorithmic core of the DSA assignment repository in
Dafny and proves what each exercise promises. It covers:

- **Qn1a**: the fewest measurements needed to find a critical temperature,
  given `samples` samples and `levels` levels. This is the egg-drop table.
- **Qn1b**: the k-th smallest product of two arrays, read from a heap of the
  products. The heap is `java.util.PriorityQueue` as OpenJDK implements it:
  an array with `siftUp` on `offer` and, on `poll`, the last entry moved to
  the root and sifted down. So among equal products, the model polls the one
  the program polls.
- **Qn2a**: the fewest rewards to hand out along a row of employee ratings.
- **Qn2b**: the closest pair of points by Manhattan distance, with
  lexicographic tie-breaking.
- **Qn3a**: the cheapest way to connect devices. Each device can get a module
  or use a cable. The program runs Kruskal's algorithm over a union-find by
  rank with path compression. A virtual hub node stands in for the modules.
- **Qn4a**: the trending hashtags. Tags are counted case-insensitively over
  the tweets and the top three are listed.
- **Qn4b**: package collection on a road map. The program builds adjacency
  lists, runs a two-level BFS from every start location, then a "backtrack"
  pass, and returns the smallest count.
- **Qn6b**: the page-scraping helpers of the crawler. `extractTitle` returns
  the trimmed text between `<title>` and `</title>`. `extractUrls` returns the
  absolute `href="..."` values.
- **The network topology designer** (NetworkTopologyOptimizer.jsx):
  - the editor state: nodes, connections, selection, connection mode, the
    picked source and target, the connection being edited, and the form's
    cost and bandwidth;
  - the handlers that add, find, edit, save and delete connections and nodes;
  - the total-cost metric;
  - the "optimal topology": Kruskal's algorithm over a dictionary union-find
    with path compression.

Each source file maps to one module:

| module | file |
|---|---|
| `CriticalTemperature` | critical_temperature.dfy |
| `KthProduct` | kth_product.dfy |
| `MinRewards` | min_rewards.dfy |
| `ClosestPair` | closest_pair.dfy |
| `DeviceNetwork` | device_network.dfy |
| `Hashtags` | hashtags.dfy |
| `PackageRoads` | package_roads.dfy |
| `PageScraper` | page_scraper.dfy |
| `Topology` (state and handlers) | topology.dfy |
| `OptimalTopology` (the Kruskal scan) | optimal_topology.dfy |

Two shared modules support them:

- `Wrappers` holds `Option`, `Result` and the exception kinds.
- `Sorting` holds a stable insertion sort. It works in place on an array and
  is proved against a functional `Sort`. It stands in for Java's
  `List.sort` and JavaScript's `Array.prototype.sort`, both of which are
  stable.

Java's exceptions become `Failure` results wherever the program's own control
flow reaches them:

- `IllegalArgumentException` becomes `IllegalArgument`.
- An out-of-range array index becomes `IndexOutOfBounds`.
- `NegativeArraySizeException` becomes `NegativeArraySize`.
- A loop that never ends becomes `NonTermination`.

Loops and in-place updates stay imperative:

- arrays: the reward passes, the sort, the BFS `visited` and `packages`
  arrays;
- classes: Qn3a's `UnionFind` over `parent`/`rank` arrays and the topology's
  `NodeSet` over a `map`.

Pure expressions become functions. That includes the React handlers: each one
replaces state with a new value, so each is modelled as a function from one
`Editor` value to the next.

## Model

| member | source | states |
|---|---|---|
| CriticalTemperature.CoverageAtLeastMeasurements | Qn1a.java:53-57 | with at least one sample, m measurements cover at least m levels, so the search loop ends |
| CriticalTemperature.CoverageGrowsWithMeasurements | Qn1a.java:53-57 | one more measurement never covers fewer levels |
| CriticalTemperature.FindCriticalTemperature | Qn1a.java:43-61 | fails exactly when an argument is negative or there are no samples but at least one level: a negative array size below -1, an index error otherwise; else returns the least number of measurements whose coverage reaches `levels`, never more than `levels`, and 0 for no levels |
| CriticalTemperature.RecordedOutputs | Qn1a.java:63-74 | (1, 2), (2, 6) and (3, 14) need 2, 3 and 4 measurements |
| KthProduct.NonNegativeRowsAreSorted | Qn1b.java:55-72 | when the multipliers are non-negative and array2 ascends, walking each row left to right lists its products in ascending order |
| KthProduct.MirroredRowsAreSorted | Qn1b.java:55-72 | walking rows with a negative multiplier right to left makes every row ascending |
| KthProduct.KthSmallestUnique | Qn1b.java:45-46 | the k-th smallest product is unique |
| KthProduct.StaircaseRank | Qn1b.java:61-72 | a value polled when c[i] products of each row are used up has rank Total(c) |
| KthProduct.PollKeepsShape | Qn1b.java:63-71 | polling the least entry and offering its row's next column keeps one entry per unfinished row, each at that row's walk position |
| KthProduct.FirstPollIsLeast | Qn1b.java:56-64 | the first poll returns the least of the seeded products |
| KthProduct.PollKeepsOrder | Qn1b.java:63-71 | on row-sorted input, every remaining entry is no smaller than the polled value |
| KthProduct.HeapEmptyOnlyAtEnd | Qn1b.java:62-63 | the heap is empty only after every product is polled, so with k at most the product count `poll` never returns null |
| KthProduct.HeapRootIsLeast | Qn1b.java:53 | in a heap ordered on the product, the root's product is the least |
| KthProduct.SiftUpPermutes | Qn1b.java:57 | siftUp only rearranges: the slots hold the old entries with x in place of slot k's |
| KthProduct.SiftDownPermutes | Qn1b.java:63 | siftDown only rearranges: the slots hold the old entries with x in place of slot k's |
| KthProduct.PushedIsHeap | Qn1b.java:57 | offering to a heap gives a heap holding the old entries and the new one |
| KthProduct.PoppedIsHeap | Qn1b.java:63 | polling a heap leaves a heap holding every entry but the root |
| KthProduct.HeapOffer | Qn1b.java:57 | the siftUp loop of `offer` computes the sift-up queue: parents larger than the entry move down, and it stops at a parent no larger |
| KthProduct.HeapPoll | Qn1b.java:63 | `poll` returns the root; its siftDown loop computes the sift-down queue, taking the right child only when strictly smaller and stopping at a child no smaller |
| KthProduct.Seed | Qn1b.java:55-58 | the seeding loop builds the queue that offering every row's first column in row order gives; it is a heap with one entry per row at that row's first walk column |
| KthProduct.PollAndOffer | Qn1b.java:63-71 | one poll and the offer of the polled row's next column give the queue the program holds next, still a heap; it holds the other entries and that offer |
| KthProduct.AfterPollIsHeap | Qn1b.java:63-71 | the queue after one round is a heap again and holds exactly the entries other than the polled one, plus the offer of that row's next column when there is one |
| KthProduct.RoundKeepsShape | Qn1b.java:63-71 | after a round, the queue again holds one entry per unfinished row, at that row's next walk position |
| KthProduct.RoundKeepsOrder | Qn1b.java:63-71 | on row-sorted input, after a round every queued product is at least the polled one |
| KthProduct.Poll | Qn1b.java:63-71 | one round returns the root's product, which is the polled row's current column, and keeps the heap's shape and order |
| KthProduct.Round | Qn1b.java:62-72 | one pass of the loop keeps the walk state: the queue is a heap with one entry per unfinished row, and the remaining rounds end on the same value |
| KthProduct.Walk | Qn1b.java:56-74 | the result is the value k rounds of the program's queue give; after k polls it is a product; on row-sorted input it is the k-th smallest |
| KthProduct.KthSmallestInvestment | Qn1b.java:46-75 | fails with IllegalArgument when k exceeds the product count, and with an index error when array2 is empty but array1 is not; returns 0 for k <= 0; otherwise returns the value of k rounds of the program's queue, which is a product, and the k-th smallest when multipliers are non-negative and array2 ascends |
| KthProduct.NegativeRowCounterexample | Qn1b.java:46-75 | on ([-1], [1, 2], k = 1) the program returns -1, which is not the smallest product; -2 is |
| KthProduct.KthSmallestProduct | Qn1b.java:46-75 | same error cases; for every array1 and an ascending array2, the result is the k-th smallest product |
| KthProduct.TieOrderSample | Qn1b.java:53-72 | on ([-2, -2, -1], [0, 1], k = 4) the program returns -1: after the first poll, row 2's tied entry moves to the root ahead of row 1's |
| KthProduct.FirstSampleIsKth | Qn1b.java:21-28 | the 2nd smallest product of [2, 5] and [3, 4] is 8 |
| KthProduct.SecondSampleIsKth | Qn1b.java:29-39 | the 6th smallest product of [-4, -2, 0, 3] and [2, 4] is 0 |
| KthProduct.SecondSampleRun | Qn1b.java:29-39 | six rounds of the program's queue on ([-4, -2, 0, 3], [2, 4]) end on 0 |
| KthProduct.RecordedOutputs | Qn1b.java:77-94 | the two sample calls of the program give 8 and 0, and 0 is indeed the 6th smallest product of the second sample |
| MinRewards.RewardsAreFair | Qn2a.java:29-46 | the three passes give everybody at least one reward, and a higher-rated neighbour on either side gets more |
| MinRewards.FairAboveAscent | Qn2a.java:34-39 | any fair assignment gives each employee at least the length of the rising run that ends there |
| MinRewards.FairAboveDescent | Qn2a.java:41-46 | any fair assignment gives each employee at least the length of the falling run that starts there |
| MinRewards.RewardsAreMinimal | Qn2a.java:2-7 | no fair assignment has a smaller total than the computed one |
| MinRewards.LeftPass | Qn2a.java:34-39 | after the left-to-right pass each reward is the rising run ending there |
| MinRewards.RightPass | Qn2a.java:41-46 | after the right-to-left pass each reward is the larger of the rising and falling runs through that position |
| MinRewards.Total | Qn2a.java:48-52 | the loop adds up the array |
| MinRewards.MinRewards | Qn2a.java:25-55 | the result is the total of some fair assignment, no fair assignment totals less, and it is 0 for no ratings |
| MinRewards.RecordedOutputs | Qn2a.java:57-70 | [1, 0, 2] needs 5 rewards and [1, 2, 2] needs 4 |
| ClosestPair.ClosestIsOrdered | Qn2b.java:42-47 | with ties broken lexicographically, the chosen pair has its smaller index first |
| ClosestPair.ClosestIsUnique | Qn2b.java:38-47 | at most one pair is closest with the lexicographic tie-break |
| ClosestPair.FindClosestPair | Qn2b.java:25-52 | fails with an index error exactly when there are two or more points and fewer y than x coordinates; otherwise, when some pair lies closer than Integer.MAX_VALUE, the result is the lexicographically least pair at the least distance; when none does, and for fewer than two points, it is [0, 0] |
| ClosestPair.RecordedOutput | Qn2b.java:54-69 | the sample's closest pair is (0, 3) |
| DeviceNetwork.CompressKeepsRoots | Qn3a.java:41-47 | pointing a node straight at its root keeps the parent array a forest with the same root for every node |
| DeviceNetwork.LinkKeepsForest | Qn3a.java:58-61 | hanging a lower-rank root under another root keeps a forest and merges exactly the two components |
| DeviceNetwork.LinkEqualKeepsForest | Qn3a.java:62-65 | hanging one of two equal-rank roots under the other and raising the other's rank keeps a forest and merges the two components |
| DeviceNetwork.UnionFind.Find | Qn3a.java:41-47 | returns the root of x, points x at that root, and leaves ranks and every node's root unchanged |
| DeviceNetwork.UnionFind.Union | Qn3a.java:50-67 | returns whether x and y had different roots. If so, the two components merge: the root of lower rank goes under the other with every rank kept, and on equal ranks y's root goes under x's, whose rank grows by one. Otherwise only path compression happens, and every root and rank stays |
| DeviceNetwork.UnionStep | Qn3a.java:94-97 | a union merges the two devices' components exactly when they differ |
| DeviceNetwork.EdgesShape | Qn3a.java:71-83 | the edge list holds every connection shifted to 0-based devices and one hub edge per device at its module cost |
| DeviceNetwork.CheaperIsStrictWeakOrder | Qn3a.java:86 | the cost comparator is a strict weak order, so the sort is well defined |
| DeviceNetwork.AcceptedCount | Qn3a.java:89-102 | the scan accepts exactly n edges, so it always connects every device to the hub |
| DeviceNetwork.AcceptedInCostOrder | Qn3a.java:86-102 | every accepted edge is one of the edges, and the accepted edges come in nondecreasing cost order |
| DeviceNetwork.BuildEdges | Qn3a.java:71-86 | fails with an index error when modules is shorter than n, otherwise builds the edge list |
| DeviceNetwork.InRangeNeverFails | Qn3a.java:94-95 | a scan over edges between existing nodes never reaches a missing node |
| DeviceNetwork.DevicesInRangeNeverFail | Qn3a.java:75-95 | connections naming devices 1..n + 1 never make the program index past the union-find |
| DeviceNetwork.Scan | Qn3a.java:89-104 | fails with an index error exactly when the scan reaches an edge naming a missing node before its n-th acceptance; otherwise the union-find loop's total is the cost sum of the edges Kruskal's scan accepts |
| DeviceNetwork.MinTotalCost | Qn3a.java:71-105 | fails with an index error exactly when modules has fewer than n entries or the scan reaches a connection naming a missing device; otherwise returns the cost sum of the accepted edges |
| DeviceNetwork.UnreachedConnection | Qn3a.java:94-100 | a connection between missing devices that sorts after the n-th accepted edge is never read: n = 1, modules [1], connection (5, 6, 100) gives 1 |
| DeviceNetwork.ReachedConnection | Qn3a.java:94-95 | the same connection at cost 0 is read first and fails with an index error |
| DeviceNetwork.RecordedOutput | Qn3a.java:108-116 | the sample network costs 3 |
| PackageRoads.NeighboursAreRoads | Qn4b.java:80-86 | y is in x's adjacency list exactly when a road joins x and y in either direction |
| PackageRoads.NeighboursSymmetric | Qn4b.java:84-85 | adjacency is symmetric |
| PackageRoads.GraphWithin | Qn4b.java:72-89 | with every road inside 0..n-1, every adjacency entry is a location |
| PackageRoads.BuildGraph | Qn4b.java:72-89 | the loops build the adjacency lists, in road order |
| PackageRoads.InBall | Qn4b.java:99-119 | a location is reached exactly when it is the start, a neighbour of the start, or a neighbour of one |
| PackageRoads.BallSize | Qn4b.java:99-119 | at least one and at most n locations are reached |
| PackageRoads.Explore | Qn4b.java:111-117 | exploring a location marks its unvisited neighbours, queues them, and counts each once |
| PackageRoads.PollOne | Qn4b.java:103-117 | one poll clears the polled location's package and explores it |
| PackageRoads.Level | Qn4b.java:101-118 | one level polls every queued location and keeps the search's bookkeeping |
| PackageRoads.Bfs | Qn4b.java:92-122 | the count is the number of reached locations other than the start; those locations are marked visited; exactly the packages within one road of the start are cleared |
| PackageRoads.Backtrack | Qn4b.java:125-152 | the start is polled first, so the pass returns 0 and only marks the start visited |
| PackageRoads.MinUpToIsLeast | Qn4b.java:51-66 | the running minimum is one of the counts and no count is smaller |
| PackageRoads.FewestIsLeast | Qn4b.java:51-68 | the answer is the smallest count over all starts, which lies between 0 and n-1 |
| PackageRoads.FromStart | Qn4b.java:54-66 | one start's round updates the running minimum and clears that start's nearby packages |
| PackageRoads.FindMinRoads | Qn4b.java:47-69 | returns the least, over all starts, of the number of locations within two roads; clears exactly the packages that hold 1 |
| PackageRoads.RecordedOutput1 | Qn4b.java:29-40 | the first sample gives 2 |
| PackageRoads.RecordedOutput2 | Qn4b.java:42-43 | the second sample gives 3, as the output at line 158 records |
| Hashtags.JoinSplit | Qn4a.java:36 | splitting on single spaces loses nothing: joining the words back gives the text |
| Hashtags.SplitJoin | Qn4a.java:36 | splitting joined space-free words gives those words back |
| Hashtags.DroppedWordsHoldNoTag | Qn4a.java:36-48 | dropping the trailing empty strings, as Java's split does, drops no hashtag |
| Hashtags.LowerIsLower | Qn4a.java:43 | lowercasing leaves no upper-case letter and is idempotent |
| Hashtags.AllTagsWellFormed | Qn4a.java:39-47 | every counted tag starts with '#', holds no space and no upper-case letter |
| Hashtags.TallyOneMore | Qn4a.java:46 | getOrDefault plus one keeps the map a tally of the tags seen |
| Hashtags.CountWords | Qn4a.java:39-48 | the inner loop adds this tweet's tags to the tally |
| Hashtags.CountHashtags | Qn4a.java:31-49 | the map counts every tag occurrence in all the tweets |
| Hashtags.OccursIffIn | Qn4a.java:46 | a tag has a positive count exactly when it appears |
| Hashtags.StringLessTransitive | Qn4a.java:55 | String.compareTo order is transitive (irreflexivity, asymmetry and totality are the three lemmas beside it) |
| Hashtags.ByRankIsStrictWeakOrder | Qn4a.java:53-56 | the comparator (count descending, then tag) is a strict weak order |
| Hashtags.EntriesOf | Qn4a.java:52 | the entry list lists each map entry exactly once |
| Hashtags.SortedListRanks | Qn4a.java:52-64 | a sorted entry list's first k entries are the top k |
| Hashtags.RanksUnique | Qn4a.java:53-64 | the top k under the comparator are unique |
| Hashtags.TopThree | Qn4a.java:52-67 | lists min(3, size) entries and they are the top ranked ones |
| Hashtags.TrendingHashtags | Qn4a.java:27-67 | the tally covers all tweets and the table is the top three, with ties in ascending tag order |
| Hashtags.RecordedOutput | Qn4a.java:19-67 | the sample gives #happyday 3, #techlife 2, #feelgood 1 |
| Hashtags.MarchTweetCounted | Qn4a.java:31-49 | a tweet dated 2024-03-01 is counted, but the February view drops it |
| Hashtags.InMonth | Qn4a.java:1 | keeps exactly the tweets dated in the given month |
| Hashtags.TrendingInFebruary | Qn4a.java:1-9 | counts only February 2024 and breaks ties in descending tag order |
| Hashtags.OtherMonthIgnored | Qn4a.java:1 | a tweet from another month changes nothing in the February count |
| Hashtags.IntendedOutput | Qn4a.java:5-9 | the sample under the intended order gives #happyday 3, #techlife 2, #worklife 1 |
| Hashtags.TopOfCounts | Qn4a.java:53-67 | with counts 3, 2, 1 and ties after the third, the table is exactly those three |
| PageScraper.IndexOfIsFirst | Qn6b.java:129-130 | indexOf returns the first occurrence at or after `from` |
| PageScraper.TrimIsSlice | Qn6b.java:133 | trim returns a slice with only blanks cut on either side, not starting or ending blank |
| PageScraper.TrimIdempotent | Qn6b.java:133 | trimming twice is trimming once |
| PageScraper.ExtractTitle | Qn6b.java:128-136 | "No Title" when either tag is missing; the only error is an out-of-range substring |
| PageScraper.TitleFailsIffCloseFirst | Qn6b.java:129-133 | substring throws exactly when the first "</title>" comes before the first "<title>" |
| PageScraper.TitleBetweenTags | Qn6b.java:129-133 | a found title is the text between the tags with only blanks cut, and it holds no "</title>" |
| PageScraper.HaltsOnce | Qn6b.java:147-158 | when the loop ends it ends with one set of links |
| PageScraper.ScanReachesRestart | Qn6b.java:147-149 | an unclosed href=" sends the scan back to position -1 with the links met so far |
| PageScraper.RestartRunsForever | Qn6b.java:147-149 | from -1 the search starts over at the page's beginning and comes back to -1 with the same links, forever |
| PageScraper.ClosedHrefIsLink | Qn6b.java:147-155 | a kept link is absolute, holds no quote, and is the value of an href=" of the page |
| PageScraper.ExtractUrls | Qn6b.java:141-159 | when the loop ends, it ends with the returned links, all of them links of the page; otherwise it runs forever |
| PageScraper.UnclosedHrefLoops | Qn6b.java:147-149 | the page `href="x` makes the loop run forever |
| PageScraper.ExtractUrlsStopping | Qn6b.java:141-159 | stopping at an unclosed href=" returns the links before it; whenever the program's loop ends, it ends with the same links |
| PageScraper.NoHrefNoLinks | Qn6b.java:147 | a page with no href=" has no links |
| Topology.Filter | NetworkTopologyOptimizer.jsx:290-301 | filter keeps exactly the accepted elements, in order |
| Topology.TotalCost | NetworkTopologyOptimizer.jsx:171-177 | the metric is 0 with no connections and never negative when costs are non-negative |
| Topology.CostSumSplits | NetworkTopologyOptimizer.jsx:177 | the cost sum splits over any filter and its complement |
| Topology.ConnectionId | NetworkTopologyOptimizer.jsx:247 | the id is "conn-", the source, "-", then the target |
| Topology.AddConnection | NetworkTopologyOptimizer.jsx:245-254 | appends one connection with that id, endpoints, cost and bandwidth, and keeps the others in place |
| Topology.AddConnectionCost | NetworkTopologyOptimizer.jsx:177 | adding a connection adds its cost to the total |
| Topology.FindExisting | NetworkTopologyOptimizer.jsx:222-225 | finds a connection linking the two nodes in either direction exactly when one exists |
| Topology.FindExistingFirst | NetworkTopologyOptimizer.jsx:222-225 | the one found is the first linking connection |
| Topology.FindExistingSymmetric | NetworkTopologyOptimizer.jsx:223-224 | the lookup does not depend on the order of the two nodes |
| Topology.AddThenFind | NetworkTopologyOptimizer.jsx:222-253 | after adding a link between a and b the lookup finds one, the new one if none existed |
| Topology.DeleteConnection | NetworkTopologyOptimizer.jsx:300-302 | drops exactly the connections with that id and changes nothing else |
| Topology.DeleteConnectionCost | NetworkTopologyOptimizer.jsx:177-301 | the total falls by the cost of the dropped connections |
| Topology.DeleteNode | NetworkTopologyOptimizer.jsx:289-297 | drops the node and every connection touching it, and clears the selection if it was that node |
| Topology.UpdateParamsChanges | NetworkTopologyOptimizer.jsx:268-272 | only the matching connections take the form's cost and bandwidth, and nothing else changes |
| Topology.UpdateParamsCost | NetworkTopologyOptimizer.jsx:177-272 | with a unique id, saving swaps that connection's cost in the total |
| Topology.ClickNode | NetworkTopologyOptimizer.jsx:215-242 | toggles the selection outside connection mode; in it, picks the source, or opens an existing link for editing, or adds a new one and clears the picks |
| Topology.SaveConnection | NetworkTopologyOptimizer.jsx:266-279 | the edited connection takes the form's values, or a picked pair gets a new link; the editor is closed |
| Topology.CancelEdit | NetworkTopologyOptimizer.jsx:282-286 | closes the editor and clears the picks |
| Topology.ToggleConnectionMode | NetworkTopologyOptimizer.jsx:305-311 | flips the mode and clears the selection, the picks and the editor |
| Topology.SimpleAdd | NetworkTopologyOptimizer.jsx:222-237 | a link added after the lookup found none keeps the graph free of loops and duplicate pairs |
| Topology.ClickKeepsConsistent | NetworkTopologyOptimizer.jsx:215-242 | a click keeps the editor consistent: a simple graph over the nodes, a source only in connection mode, a target only while editing |
| Topology.SaveKeepsConsistent | NetworkTopologyOptimizer.jsx:266-279 | in a consistent editor, save never adds a link and keeps it consistent |
| Topology.DeleteNodeKeepsConsistent | NetworkTopologyOptimizer.jsx:289-297 | deleting a node outside connection mode keeps the editor consistent |
| Topology.DeleteConnectionKeepsConsistent | NetworkTopologyOptimizer.jsx:300-302 | deleting a connection keeps the editor consistent |
| Topology.CancelAndToggleKeepConsistent | NetworkTopologyOptimizer.jsx:282-311 | cancel and toggle keep the editor consistent |
| OptimalTopology.CompressKeepsLabels | NetworkTopologyOptimizer.jsx:324-329 | path compression keeps the dictionary a forest and every id's root |
| OptimalTopology.LinkKeepsLabels | NetworkTopologyOptimizer.jsx:331-333 | pointing one root at another merges exactly those two components |
| OptimalTopology.NodeSet.Find | NetworkTopologyOptimizer.jsx:324-329 | returns the id's component root, which points to itself, and keeps every component |
| OptimalTopology.NodeSet.Union | NetworkTopologyOptimizer.jsx:331-333 | merges id1's component into id2's |
| OptimalTopology.AllConnected | NetworkTopologyOptimizer.jsx:345-353 | true exactly when every node has the first node's root |
| OptimalTopology.CostBeforeIsStrictWeakOrder | NetworkTopologyOptimizer.jsx:318 | comparing by cost is a strict weak order |
| OptimalTopology.SortByCost | NetworkTopologyOptimizer.jsx:318 | the copy is sorted stably by cost |
| OptimalTopology.OptimalFromConnections | NetworkTopologyOptimizer.jsx:335-356 | the chosen connections are drawn from the list without repeats and come in nondecreasing cost order |
| OptimalTopology.OptimalSpans | NetworkTopologyOptimizer.jsx:335-356 | the chosen connections run between nodes, close no cycle, and join the endpoints of every connection of the list |
| OptimalTopology.OptimalSize | NetworkTopologyOptimizer.jsx:335-356 | at most one fewer connection than nodes is chosen |
| OptimalTopology.KruskalAdvance | NetworkTopologyOptimizer.jsx:337-355 | one round takes the connection exactly when its ends lie in different components, then merges them |
| OptimalTopology.Consider | NetworkTopologyOptimizer.jsx:337-355 | one round of the loop keeps the union-find equal to the components so far, and what is chosen equal to the scan's choice |
| OptimalTopology.Scan | NetworkTopologyOptimizer.jsx:335-356 | the loop's list is the scan's choice |
| OptimalTopology.FindOptimalTopology | NetworkTopologyOptimizer.jsx:314-359 | nothing with fewer than two nodes or no connection; otherwise the connections Kruskal's scan chooses |

## Left out

- Qn5 and Qn6a (the thread turn-taking) are not part of this model.
- In Qn6b, page fetching, the thread pool, the synchronized visited set and
  the sleep are I/O and concurrency, so they are left out. Only
  `extractTitle` and `extractUrls` are modelled.
- Printing, `main`, and the drawing of tables are left out.
- Integers are mathematical. Java's 32-bit overflow in products, sums and
  costs is not modelled. Only `Integer.MAX_VALUE` appears, as a constant
  where the source compares against it.
- ClosestPair.FindClosestPair reports the index error before its scan. The
  program throws partway through the scan, but nothing it does before that
  can be observed.
- PackageRoads: every road endpoint must be a location. The program would
  index past the adjacency list otherwise.
- PackageRoads.FindMinRoads: with no locations the answer is
  `Integer.MAX_VALUE`, as in the program.
- PackageRoads.Backtrack: its neighbour loop is dead code, because the start
  is polled first. The model states that it returns 0 and does not model the
  loop.
- Hashtags: several Java library details are simplified.
  - `split(" ")` is modelled as splitting on single spaces and then dropping
    trailing empty strings. Regular expressions in general are not modelled.
  - `toLowerCase` is modelled on ASCII letters only.
  - `compareTo` is modelled as comparing characters by Unicode code point.
    Java compares UTF-16 code units, so the two orders differ between a
    character above U+FFFF and a character in U+E000–U+FFFF. Only the
    tie order of such hashtags is affected.
  - Java's `HashMap` iteration order is not modelled. Entries are listed in
    some order and then sorted, and the proved results do not depend on that
    order.
- PageScraper: `trim` is modelled as cutting characters up to and including
  U+0020. The loop that never ends on an unclosed `href="` is modelled as
  `Failure(NonTermination)`, together with a proof that the loop runs
  forever.
- Topology: the following are left out:
  - `handleAddNode`, node dragging, random placement, JSON import/export;
  - `findShortestPath`, `averageLatency` (floating point), rendering;
  - `parseInt` and NaN (form values are integers).
- OptimalTopology.FindOptimalTopology requires every connection's endpoints
  to be node ids. Every consistent editor state meets this; the
  Topology.*KeepsConsistent lemmas show the handlers keep it. With a dangling
  endpoint, `find` would follow `undefined`. Returning `None` stands for the
  early return, which leaves `optimalTopology` unchanged.
- OptimalTopology.OptimalSpans is weaker than minimality. The model proves
  what the scan takes and in what order, that the result is acyclic and
  spanning, and the size bound. It does not prove that the total cost is
  minimal among all spanning forests.
- DeviceNetwork.MinTotalCost takes n as a natural number. With a negative n
  the program builds no hub edges, and `new UnionFind(n + 1)` throws for n
  below -1; these cases are not modelled.
- DeviceNetwork.AcceptedCount and AcceptedInCostOrder also stop short of
  minimality. Cost-minimality of Qn3a's result over all spanning trees is not
  proved.

## Findings

| source | as written | input that shows it | evidently intended | confidence | as-written member | corrected member |
|---|---|---|---|---|---|---|
| Qn1b.java:55-72 | every row is seeded at column 0 and walked to the right, which lists a row's products in ascending order only when its multiplier is non-negative | array1 = [-1], array2 = [1, 2], k = 1 returns -1 | the k-th smallest product, here -2 | not executed | KthProduct.NegativeRowCounterexample | KthProduct.KthSmallestProduct |
| Qn4a.java:53-56 | ties in count are broken by ascending hashtag | the sample tweets give #feelgood as the third row | descending hashtag order, as the header says, giving #worklife | not executed | Hashtags.RecordedOutput | Hashtags.IntendedOutput |
| Qn4a.java:31-49 | every tweet is counted, whatever its date | a tweet dated 2024-03-01 with "#a" is counted | only tweets of February 2024 are counted | not executed | Hashtags.MarchTweetCounted | Hashtags.TrendingInFebruary |
| Qn6b.java:147-149 | an unclosed href=" sets hrefEnd to -1, so the next search starts again at the beginning of the page | the page `href="x` loops forever | stop at the unclosed value and return the links found | not executed | PageScraper.UnclosedHrefLoops | PageScraper.ExtractUrlsStopping |
