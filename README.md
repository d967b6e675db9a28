# Route finder core, modelled in Dafny

This project models the offline route pipeline of a browser route finder. It covers the
steps that run after road data has been downloaded:

- the **graph builder** (`buildGraph`) turns a flat list of map elements into a directed
  graph. Each node keeps an insertion-ordered adjacency map from neighbour id to an edge
  cost `{time, distance}`. Speeds come from a road-class table, a `maxspeed` tag can
  override them, the `lanes` tag sets a congestion factor, and the `oneway`, `junction`
  and `highway` tags decide which directed edges are written.
- the **tile merge** keeps one element per id across downloaded tiles.
- the **spatial index** (`buildSpatialIndex`) is a 100 × 100 grid over the search bounds,
  queried with the 3 × 3 block of cells around a point. **Snapping** (`findNearestNode`)
  picks the nearest candidate, with a 20 km cut-off.
- the **A\* worker** has a binary min-heap `PriorityQueue` and a search loop. The loop has
  an open map, a closed set, lazy re-insertion, parent-chain path reconstruction, and an
  exploration trace posted in batches of 500 records.
- the **path totals** sum `time` and `distance` over the consecutive pairs of a found path.
- the **cache manager** (`CacheManager`) holds two insertion-ordered stores: geocoded
  addresses (7 days, 100 entries) and map data (3 days, 20 entries). It has TTL reads,
  purging, oldest-first eviction, and a map-data lookup by bounds containment or by
  at least 80% area overlap.

Modules, one per file:

| file | module | models |
|---|---|---|
| `wrappers.dfy` | `Wrappers` | `null`/`undefined` results as `Option` |
| `geo.dfy` | `Geo` | coordinates, boxes, the distance function type |
| `ordered_maps.dfy` | `OrderedMaps` | JavaScript `Map` (insertion order, `set`, `delete`, `values`) |
| `js_text.dfy` | `JsText` | `match(/\d+/)`, `parseInt`, `includes`, `toLowerCase`, `trim` |
| `road_graph.dfy` | `RoadGraph` | `buildGraph` and the path-total loop of `drawFinalPath` |
| `tiles.dfy` | `Tiles` | the merge-by-id step of `getRoadNetworkTiled` |
| `spatial.dfy` | `Spatial` | `buildSpatialIndex`, `getNearbyNodes`, `findNearestNode` |
| `heap.dfy` | `Heap` | the worker's `PriorityQueue` |
| `astar.dfy` | `AStar` | the worker's `onmessage` search |
| `cache.dfy` | `Cache` | `CacheManager` |

Great-circle distance is never computed. Every operation that needs it takes a function
`dist: (Coord, Coord) -> real` as a parameter. Clock readings are a parameter `now` in
milliseconds. Coordinates and costs are `real`.

The code is followed where it differs from what the design intends, with one exception:
a `maxspeed` override of 0, which this real-valued model cannot follow (see
`RoadGraph.SpeedKmh` under "Left out"). The model keeps these behaviours of the code:

- The A\* loop does not skip a stale heap entry, that is, an entry whose id is already
  closed. The stale entry is traced again and its neighbours are looked at again. The
  proof shows that such a pop never pushes anything (`AStar.ExpandNeighbors`).
- A search that runs out of open entries posts only the error string, with no trace.
- The trace records every popped non-goal entry that has a parent, stale ones included.
- The spatial index clamps a node's row and column only from above. A node south or west
  of the bounds can be dropped or filed in the wrong row (`Spatial.SouthOfGridIsDropped`,
  `Spatial.WestOfGridIsMisfiled`).
- The map-data lookup tests containment and overlap entry by entry. The first unexpired
  entry that passes either test wins; it does not try all containments before any
  overlap.

## Model

| member | source | states |
|---|---|---|
| `OrderedMaps.OMap.Set` | script.js:546-551 | `Map.set`: the key now maps to the value; a new key is appended to the iteration order and an existing key keeps its place |
| `OrderedMaps.OMap.Delete` | script.js:242 | `Map.delete`: the key is gone, the other keys keep their order, and the size drops by one exactly when the key was present |
| `JsText.FirstDigitRunFinds` | script.js:518-519 | `match(/\d+/)` then `parseInt`: text with no digit, a number, then a non-digit reads as that number |
| `JsText.FirstDigitRunNone` | script.js:518 | a tag with no digit has no digit run, so it gives no override |
| `JsText.ParseIntReads` | script.js:528 | `parseInt(s, 10)` reads a rendered number that is followed by a non-digit |
| `JsText.ParseIntReadsNegative` | script.js:528 | with a leading minus sign, `parseInt` reads the negated number |
| `JsText.ParseIntNaN` | script.js:528-529 | `parseInt` gives NaN exactly when no digit follows the white space and the optional sign |
| `JsText.DecimalRoundTrip` | script.js:519 | reading back the decimal rendering of a number gives the number |
| `RoadGraph.MaxSpeedIsTableMaximum` | script.js:43-45 | 110 km/h is the largest table entry (motorway), and the worker's bound is 275/9 m/s |
| `RoadGraph.TableSpeedKmh` | script.js:515-516 | the table entry for the road class, or 40 km/h for an unknown class; always positive |
| `RoadGraph.MaxspeedOverride` | script.js:517-519 | the override is never negative |
| `RoadGraph.SpeedKmh` | script.js:516-521 | the speed is always positive, and it equals the code's speed unless the code's speed is 0 (see Left out) |
| `RoadGraph.MaxspeedInMph` | script.js:517-519 | a `maxspeed` such as "60 mph" gives 60 × 1.60934 km/h |
| `RoadGraph.MaxspeedInKmh` | script.js:517-519 | a `maxspeed` without "mph", such as "50" or "50;70", gives its first number in km/h |
| `RoadGraph.SpeedFromTable` | script.js:515-520 | without a readable `maxspeed`, the road class decides, and an unknown class gives 40 km/h |
| `RoadGraph.ZeroMaxspeedAsWritten` | script.js:517-521 | `maxspeed=0` makes the code's speed 0, while the model keeps the table speed (40 km/h) |
| `RoadGraph.DirectionOf` | script.js:523-525 | a way is reversed exactly when tagged `oneway=-1`, and it is one-way only if tagged `oneway` yes, 1 or -1, or a roundabout, or a class containing "motorway" |
| `RoadGraph.CongestionFactor` | script.js:527-535 | the factor is one of 0.9, 1.0, 1.05 and 1.15, so it lies between 0.9 and 1.15 |
| `RoadGraph.LanesFactor` | script.js:527-532 | 1 lane gives 1.15, 2 lanes 1.05, 3 lanes 1.0, and 4 or more 0.9 |
| `RoadGraph.MotorwayWithoutLanes` | script.js:533-535 | a motorway or motorway_link with no lane count gives 0.9 |
| `RoadGraph.ReversedMotorway` | script.js:524-525 | `oneway=-1` reverses the way, even on a motorway |
| `RoadGraph.OneWayTagIsForward` | script.js:523 | `oneway` of yes or 1 makes the way one-way forward |
| `RoadGraph.RoundaboutIsForward` | script.js:525 | a roundabout is one-way forward unless tagged `oneway=-1` |
| `RoadGraph.MotorwayIsOneWay` | script.js:525 | a way whose class contains "motorway" anywhere is one-way forward unless tagged `oneway=no` or `oneway=-1` |
| `RoadGraph.PlainWayIsTwoWay` | script.js:523-525 | a way with none of the one-way markers is two-way |
| `RoadGraph.SegmentCost` | script.js:541-543 | the edge's distance is the segment's length |
| `RoadGraph.SegmentTime` | script.js:521-542 | the edge time multiplied by the speed in m/s gives the distance scaled by the congestion factor |
| `RoadGraph.AddNodes` | script.js:511-512 | the first pass gives a valid graph whose every node has an empty adjacency map |
| `RoadGraph.PutEdge` | script.js:546-551 | one `adj.set`: only that entry of that node changes, and the node set is untouched |
| `RoadGraph.PutSegment` | script.js:537-553 | a segment with a missing endpoint writes nothing. Otherwise forward writes only A→B, backward writes only B→A, and two-way writes both with the same cost |
| `RoadGraph.PutWays` | script.js:514-555 | the way pass keeps the node set, its order and the positions |
| `RoadGraph.AddWay` | script.js:537-554 | the loop over a way's consecutive node pairs computes the function `PutSegments` |
| `RoadGraph.BuildGraph` | script.js:509-558 | `buildGraph` computes `GraphOf`: node elements first, then every way in element order |
| `RoadGraph.GraphEdgesAreLastWrites` | script.js:537-553 | last way wins: each edge holds the cost of the last write of its ordered pair, and an edge that was never written is absent |
| `RoadGraph.EdgeTargetsAreNodes` | script.js:538-540 | every edge of the built graph leads to a node of the graph |
| `RoadGraph.GraphNodeIds` | script.js:511-512 | the graph's keys are exactly the ids of the node elements |
| `RoadGraph.PathTotals` | script.js:633-642 | the totals loop computes `PathCost`: the sum over consecutive pairs, where a missing edge adds nothing |
| `RoadGraph.PathCostStep` | script.js:639-640 | appending a step the graph has adds exactly that edge's time and distance |
| `Tiles.MergeTiles` | script.js:407-428 | the tile loop returns, in first-seen order, the first element for each key (`Firsts`) |
| `Tiles.MergedIsFirsts` | script.js:419-428 | the merge map's keys are the input's keys, and its values in order are the first occurrences |
| `Tiles.FirstsKeys` | script.js:419-423 | the merge loses no key, keeps one element per key, and invents none |
| `Tiles.FirstOccurrenceKept` | script.js:420-421 | the first element with a key is the one kept for that key |
| `Tiles.MergeById` | script.js:419-423 | the merge as written, keyed by `el.id` alone: no two merged elements share an id |
| `Tiles.IdCollisionLosesWay` | script.js:419-423 | a node and a later way with the same id: the id merge drops the way, and the kind-and-id merge keeps it |
| `Tiles.MergeByKindAndId` | script.js:419-423 | the corrected merge keeps exactly the input's (kind, id) keys, one element each |
| `Tiles.MergeKeepsEveryWay` | script.js:419-423 | under the corrected key, every input way keeps a way with its id in the merge |
| `Spatial.Layout.FilingIndex` | script.js:582-584 | a filing index is never above 9999 |
| `Spatial.Layout.QueryRow` | script.js:592 | a query row is always inside the grid |
| `Spatial.Layout.QueryColumn` | script.js:593 | a query column is always inside the grid |
| `Spatial.NodeList` | script.js:563 | the node list is the graph's nodes in insertion order |
| `Spatial.Filed` | script.js:581-588 | a cell holds only nodes whose filing index names it |
| `Spatial.FiledOnce` | script.js:581-588 | a node is in the cell its index names and in no other; a negative index drops it |
| `Spatial.FileNodes` | script.js:581-588 | the filing loop leaves the grid holding exactly `Cells` |
| `Spatial.SpatialIndex.constructor` | script.js:560-589 | the index keeps the node list and a 100 × 100 layout over the bounds, and its grid is filed |
| `Spatial.SpatialIndex.GetNearbyNodes` | script.js:590-606 | a query computes `NearbyNodes`: nothing for no nodes, everything for a degenerate grid, otherwise the 3 × 3 block, or everything if the block is empty |
| `Spatial.ScanBlock` | script.js:595-604 | the nested loop collects the 3 × 3 block row by row |
| `Spatial.ScanRow` | script.js:597-603 | the inner loop collects the in-grid cells of one row |
| `Spatial.QueryWithoutNodes` | script.js:565-567 | with no nodes, every query returns nothing |
| `Spatial.QueryOnDegenerateGrid` | script.js:577-579 | with a zero cell height or width, every query returns every node |
| `Spatial.QueryNonEmpty` | script.js:605 | a query on a non-empty node set always returns some node |
| `Spatial.QueryReturnsIndexedNodes` | script.js:595-605 | every node a query returns is an indexed node |
| `Spatial.SouthOfGridIsDropped` | script.js:582-605 | a node one row south of the bounds gets index -95 and is in no cell; a query at its own place, beside a node just inside the grid, returns only that other node |
| `Spatial.WestOfGridIsMisfiled` | script.js:582-605 | a node west of the bounds in row 1 is filed at row 0, column 99; a query at its own place (row 1, column 0), beside a node filed there, returns only that other node |
| `Spatial.NearestAmong` | script.js:611-629 | the scan returns the first candidate at the least distance, or none if the candidates are empty or the least distance is over 20 000 m |
| `Spatial.FindNearestNode` | script.js:610-630 | snapping picks the nearest of the query's candidates, subject to the cut-off, and the pick is an indexed node |
| `Spatial.NearestFound` | script.js:624-629 | if some candidate is within 20 000 m (exactly 20 000 counts), a node is found and it is no farther away |
| `Heap.ParentIndex` | worker.js:7-9 | `floor((i - 1) / 2)` is the one parent of every index but the root |
| `Heap.RootIsMin` | worker.js:6 | in a heap-ordered sequence, the root's key is no larger than any entry's |
| `Heap.Swap` | worker.js:10 | a swap exchanges two entries, keeps the others and keeps the multiset |
| `Heap.PriorityQueue.constructor` | worker.js:3 | a new queue is empty and uses the given key |
| `Heap.PriorityQueue.IsEmpty` | worker.js:4-5 | the queue is empty exactly when it holds no entry |
| `Heap.PriorityQueue.Peek` | worker.js:6 | peek gives an entry of least key, or none when the queue is empty |
| `Heap.PriorityQueue.Push` | worker.js:12 | push adds exactly the value, grows the size by one, returns the new size, and keeps heap order |
| `Heap.PriorityQueue.SiftUp` | worker.js:13 | sifting up turns an ordered heap plus one new last entry back into heap order, keeping the multiset |
| `Heap.PriorityQueue.Pop` | worker.js:14 | pop on a non-empty queue returns the root, which has the least key, and removes exactly that one occurrence. Pop on an empty queue returns none and leaves it empty |
| `Heap.PriorityQueue.SiftDown` | worker.js:15 | sifting down turns a heap whose root may be too large back into heap order, keeping the multiset |
| `AStar.Heuristic` | worker.js:97 | in time mode the estimate times the top speed (275/9 m/s) is the distance to the goal; a non-negative distance gives an estimate between 0 and that distance |
| `AStar.Chain` | worker.js:60-66 | a parent chain ends with the entry itself |
| `AStar.ChainIsPath` | worker.js:91-98 | the parent chain of a sound entry is a path of graph edges from the start to the entry, and its cost in the chosen mode is the entry's g |
| `AStar.ReconstructPath` | worker.js:60-66 | the push-then-reverse loop returns the parent chain, start first |
| `AStar.InitialState` | worker.js:40-48 | the start entry alone in the heap and the open map satisfies the search invariant |
| `AStar.PopFresh` | worker.js:54-72 | popping a least entry whose id is not closed closes that id with the entry's g, keeps the invariant, and leaves the popped node relaxed over none of its edges yet |
| `AStar.PopStale` | worker.js:54-72 | popping an entry whose id is already closed leaves the open map and the closing costs unchanged, and the id was already settled at a cost no higher than the entry's g |
| `AStar.NewEntrySound` | worker.js:91-98 | a neighbour entry gets g = parent's g + the edge's time or distance, h = the heuristic, and f = g + h |
| `AStar.PushKeepsInv` | worker.js:94-102 | pushing an entry for an unclosed id with no open entry or a dearer one, and pointing the open map at it, keeps the invariant |
| `AStar.ExhaustedMeansUnreachable` | worker.js:53-105 | when the heap is empty, no path of graph edges leads from the start to the goal |
| `AStar.ClosedBounded` | worker.js:72 | no more ids can be closed than the graph has nodes |
| `AStar.AddRecord` | worker.js:74-84 | a popped entry with a parent appends its `{from, to}` record, and a batch that reaches 500 records moves into the log |
| `AStar.FlushBatch` | worker.js:58 | on success a non-empty last batch moves into the log, and every batch but the last holds exactly 500 records |
| `AStar.PopNext` | worker.js:54-72 | a pop returns an entry of the heap with the least f, removes exactly that one occurrence, and removes its id from the open map. A non-goal id becomes closed, and a stale pop changes no closing cost |
| `AStar.ExpandNeighbors` | worker.js:86-103 | the neighbour loop only adds to the heap. Each added entry is for an adjacent, known, unclosed id with no open entry or a dearer one, has the popped entry as parent and g = its g + the edge cost, and is what the open map now holds for that id; every such id gets one, and every open-map change points at an added entry. Afterwards the popped node is relaxed over all its edges, and a stale pop pushes nothing |
| `AStar.Finish` | worker.js:57-69 | reaching the goal posts `done` with a path from start to goal and a batched log holding the whole trace |
| `AStar.ExhaustedNoPath` | worker.js:105 | "No path could be found." is posted only when no path exists |
| `AStar.Explore` | worker.js:53-105 | the loop terminates. It either posts a path of graph edges from start to goal together with the trace of the popped non-goal entries in pop order, or it posts the no-path error when no path exists. The goal is never among the traced pops, each popped entry's parent was popped before it, the start entry is popped first, and every point of the path but the goal is a popped entry |
| `AStar.SearchStep` | worker.js:54-103 | one turn pops a least-f entry of the heap. It ends exactly when that entry is the goal, with the entry's parent chain as the path, which runs through popped entries; otherwise it appends the entry to the pops, keeps the search state, and closes a new id or shrinks the heap |
| `AStar.CloseAndExpand` | worker.js:72-103 | after a non-goal pop, `closedSet.add`, the trace record and the neighbour loop keep the search state, append the pop to the trace, and leave the heap alone on a stale pop |
| `AStar.StartPoppedFirst` | worker.js:40-46 | the first popped entry has no parent, so it is the start entry |
| `AStar.ChainPopped` | worker.js:60-66 | every point of a popped entry's parent chain is a popped entry |
| `AStar.PopTraced` | worker.js:54-55 | a popped entry's parent was popped before it, and every entry left in the heap still has a popped parent |
| `AStar.PushTraced` | worker.js:95-101 | entries pushed by a popped entry keep every heap entry's parent popped |
| `AStar.Search` | worker.js:26-106 | the worker posts exactly one message. "Start or end node not found in graph." is posted exactly when an endpoint is missing, the no-path error only when no path exists, and otherwise a valid path with its batched trace. The start is popped first, the goal is never among the traced pops, and the path runs through popped entries |
| `Cache.GeocodingKey` | script.js:79-81 | the key is the lowered address with only white space cut from either end: a slice of the lowered address, with white space of the address before and after it |
| `JsText.TrimCut` | script.js:80 | `trim` keeps one slice of the text and drops only white space before and after it |
| `Cache.GeocodingKeyNormal` | script.js:79-81 | a geocoding key has no ASCII capital letter and no white space at either end |
| `Cache.GeocodingKeyIdempotent` | script.js:79-81 | normalising a key again gives the same key |
| `Cache.Hundredths` | script.js:86-99 | `Math.round(x * 100)` is within half a hundredth of `x * 100` |
| `Cache.HundredthsClose` | script.js:86-89 | a rounded coordinate is within 0.005 degrees of the original |
| `Cache.MapDataKey` | script.js:84-91 | a bounds key always reads back as a box, and never equals a route key |
| `Cache.RouteBasedKey` | script.js:94-101 | a route key is never a bounds key and reads back as no box |
| `Cache.RouteBasedKeyPrecision` | script.js:94-101 | each rounded endpoint coordinate of a route key is within 0.005 degrees of the original |
| `Cache.BoxOfKey` | script.js:205-207 | a key reads back as a box exactly when it is a bounds key |
| `Cache.BoundsKeyRoundTrip` | script.js:84-91 | reading a bounds key as a box and keying that box again gives the same key |
| `Cache.MapDataKeyPrecision` | script.js:84-91 | the box read back from a bounds key lies within 0.005 degrees of the box it came from, side by side |
| `Cache.IsExpired` | script.js:106-108 | with a non-negative lifetime, an expired entry was stamped before `now` |
| `Cache.ExpiredStaysExpired` | script.js:106-108 | an expired entry stays expired at any later time |
| `Cache.BoundsContains` | script.js:210-215 | containment holds exactly when the intersection of the two boxes is the target box itself |
| `Cache.Lookup` | script.js:111-117 | a read returns the stored data exactly when the key is present and not expired |
| `Cache.BoundsOverlap` | script.js:218-234 | overlap holds exactly when the intersection has positive height and width and covers at least 80% of the query box's area |
| `Cache.RouteWriteKeepsRouteOnly` | script.js:164-177 | a route write with its eviction keeps every key of a route-only store a route key |
| `Cache.RouteOnlyServesNothing` | script.js:132-148 | in a store whose keys are all route keys, no entry answers a bounds lookup |
| `Cache.RouteWriteNeverServesBounds` | script.js:132-177 | after the program's route write into a route-only store, no entry answers a bounds lookup and the lookup as written never returns data, whatever bounds were stored |
| `Cache.FirstCovering` | script.js:132-148 | the corrected lookup returns the data of the first unexpired entry whose stored bounds (or key box) contain or overlap the query, and none exactly when no entry does |
| `Cache.RouteWriteServesCoveredRequest` | script.js:164-177 | with the corrected lookup, a route write at once answers a bounds lookup for any box inside the bounds it stored |
| `Cache.ContainsImpliesOverlap` | script.js:210-234 | a cached box that contains a query box of positive area also overlaps it |
| `Cache.RouteEntryNeverServes` | script.js:205-207 | an entry under a route key never answers a bounds lookup |
| `Cache.InsertByStamp` | script.js:240 | one insertion step of the sort keeps the multiset of keys |
| `Cache.SortByStamp` | script.js:240 | the sort is a permutation of the keys |
| `Cache.SortSorted` | script.js:240 | the sort orders keys by timestamp |
| `Cache.SortStable` | script.js:240 | the sort is stable: entries with the same timestamp keep their insertion order |
| `Cache.SortDistinct` | script.js:239-240 | sorting a repeat-free key list gives a repeat-free list |
| `Cache.OldestKeys` | script.js:241 | the keys chosen for removal are store keys, as many as the surplus |
| `Cache.EvictValid` | script.js:236-244 | eviction leaves a valid store whose entries are unchanged old entries |
| `Cache.EvictSize` | script.js:236-244 | eviction is a no-op within the limit, and otherwise leaves exactly `maxEntries` entries |
| `Cache.EvictOldestFirst` | script.js:239-242 | every evicted entry is no newer than any surviving entry |
| `Cache.EvictTiesByInsertion` | script.js:240-242 | among entries with the same timestamp, the earlier inserted are evicted first |
| `Cache.EnforceLimit` | script.js:236-244 | `enforceLimit` computes `Evict` |
| `Cache.UnexpiredContents` | script.js:276-291 | purging keeps exactly the unexpired entries, unchanged |
| `Cache.PurgeKeepsReads` | script.js:276-291 | a purge changes no read made at the same time |
| `Cache.PurgeIdempotent` | script.js:276-291 | a second purge at the same time removes nothing |
| `Cache.Purge` | script.js:280-284 | one `cleanup` loop computes `Unexpired` |
| `Cache.SetThenLookup` | script.js:120-126 | writing the newest entry into a store within its limit and reading it at once returns the written data |
| `Cache.CacheManager.constructor` | script.js:72-76 | both stores start empty |
| `Cache.CacheManager.GetCachedGeocode` | script.js:111-118 | returns the coordinates under the normalised address exactly when present and not expired |
| `Cache.CacheManager.SetCachedGeocode` | script.js:120-129 | writes under the normalised key, then evicts down to 100 entries; the map-data store is unchanged, and the write can be read back at once |
| `Cache.CacheManager.GetCachedMapData` | script.js:132-149 | the result is the lookup as written: the data of the first unexpired entry in insertion order whose key box contains the query box or overlaps it by 80%, unless an earlier unexpired entry has a route key, which makes the call throw (`Raises`); null (`Miss`) exactly when no entry does either. In a store of route entries only, the call never returns data, and it throws exactly when some entry has not expired |
| `Cache.ScanEntries` | script.js:134-147 | the `for` loop over the entries computes `LookupAsWritten` |
| `Cache.LookupAsWrittenMiss` | script.js:134-148 | the lookup as written gives null exactly when no entry answers the query or throws |
| `Cache.LookupAsWrittenHit` | script.js:134-146 | returned data comes from an entry that answers, and no earlier entry answers or throws |
| `Cache.LookupAsWrittenRaises` | script.js:134-137 | a thrown error comes from an unexpired entry whose key names no box, and no earlier entry answers or throws |
| `Cache.LookupAsWrittenAt` | script.js:132-149 | the same three facts stated over the entries of a whole store |
| `Cache.LookupStep` | script.js:135-146 | one turn of the loop: the entry answers, throws, or passes the scan to the next entry |
| `Cache.RouteOnlyLookupRaises` | script.js:132-148 | in a store of route entries, the lookup never returns data, and it throws exactly when some entry has not expired |
| `Cache.RouteWriteThenLookupRaises` | script.js:132-177 | after the program's route write into a route-only store within its limit, the next bounds lookup at the same time throws, whatever bounds were stored and whatever box is asked for |
| `Cache.CacheManager.GetCachedMapDataByRoute` | script.js:152-162 | returns the data under the rounded route key exactly when present and not expired |
| `Cache.CacheManager.SetCachedMapDataByRoute` | script.js:164-181 | writes a marked route entry with its bounds, then evicts down to 20 entries; the geocoding store is unchanged, and a store of route entries only stays so |
| `Cache.CacheManager.SetCachedMapData` | script.js:185-200 | writes under the rounded bounds key, then evicts down to 20 entries; the geocoding store is unchanged |
| `Cache.CacheManager.Cleanup` | script.js:276-294 | both stores lose exactly their expired entries, and the survivors are unchanged |
| `Cache.CacheManager.GetStats` | script.js:297-302 | the sizes of both stores, at most 100 and 20 |
| `Cache.CacheManager.ClearAll` | script.js:305-307 | both stores end empty |

## Left out

- canvas-layer.js is not part of this model. It only draws on the map.
- The user interface is not modelled: status text, loading state, animation replay, the
  rendering half of `drawFinalPath`, map set-up and the event handlers.
- Network work is not modelled. This covers address geocoding, the Overpass query and its
  endpoint retry, the download halves of `getRoadNetworkSingle` and
  `getRoadNetworkTiled`, and the bounds padding and retry policy of the route handler.
- The worker boundary is not modelled. Creating the worker, serialising the graph
  (worker.js:29-31), `postMessage` and `terminate` are left out. `AStar.Search` takes the
  graph directly and returns the one message the worker would post.
- The `empty graph` check happens in the caller (script.js:846), outside this model.
- `saveToStorage` and `loadFromStorage` are not modelled (local storage, all failures
  caught). `Cache.CacheManager.constructor` starts with both stores empty, while the code
  restores the geocoding store from storage. The 30-minute cleanup timer and
  `updateCacheDisplay` are left out.
- Great-circle distance is a parameter `dist` with no properties. Trigonometry is not
  modelled.
- Floating point is not modelled. Coordinates and costs are `real`, so NaN, Infinity and
  rounding error do not arise.
- The `timestamp` arithmetic uses unbounded integers, and `Date.now()` is the parameter
  `now`.
- Cache keys are modelled as tuples of integer hundredths, not as JavaScript number
  strings. A bounds key and a route key are different constructors, as the `route_`
  prefix makes them in the code.
- Cache.CacheManager.GetCachedMapData: a route key such as `route_1,2_to_3,4` has two
  commas, so `boundsFromKey` splits it into `[NaN, NaN, 4]`. Leaflet's `LatLng` constructor
  throws on a NaN coordinate. The Leaflet library is not part of this model: the model
  takes that throw as given and returns `Raises` for the first unexpired route entry. The
  message of that error is not modelled. Since the program writes only route entries, every
  stored entry is such a route entry (see Findings).
- AStar.Search: optimality of the returned path is not stated. The time heuristic divides
  by 110 km/h, but `maxspeed` tags can exceed that and the 0.9 lanes factor raises the
  effective speed above it. The heuristic can therefore overestimate. The model proves path
  validity and the no-path case, not optimality.
- AStar.Search: the worker receives `MAX_SPEED_MS` in its message. The model uses the
  constant the caller always sends (script.js:45, 888).
- RoadGraph.SpeedKmh: a `maxspeed` override of 0 is replaced by the table speed. In the
  code the speed becomes 0, and each segment time is Infinity, or NaN for a zero-length
  segment (script.js:520, 542). Reals have neither value, so this model does not follow
  the code for that input; `RoadGraph.ZeroMaxspeedAsWritten` shows the code's speed of 0.
- JsText.ToLower: only ASCII A–Z are lowered. JavaScript `toLowerCase` also folds other
  Unicode capitals (for example "MÜNCHEN"), so such addresses get different geocoding keys
  here than in the code.
- AStar.Explore: the ghost `pops` is the sequence the loop builds, one popped entry per
  turn (`AStar.SearchStep` states that step), but the contract does not relate `pops`
  to a reference run of the search, so that it holds every pop of the run is not stated.
  A reference run would have to fix the heap's tie-breaking among equal f values.
- AStar.Search: the trace is tied to the same `pops` as in `AStar.Explore`, with the same
  gap.
- Graph nodes do not store their own id, because the builder always files a node under its
  own id.
- The search state (g, h, f, parent) lives in separate entries. The code copies the node
  object with those fields, and the state is the same.
- Spatial.SpatialIndex.constructor: the source's `new Array(10000)` of empty arrays is an
  `array<seq<PathPoint>>`. The query closure becomes the method `GetNearbyNodes`.

## Findings

| source | as written | input that shows it | evidently intended | confidence | as-written member | corrected member |
|---|---|---|---|---|---|---|
| script.js:393 | the bounds fallback of the map-data lookup reads each cached box from the key. But the program writes map data only through `setCachedMapDataByRoute` (script.js:431, 459), and a route key reads back as a NaN corner that Leaflet refuses by throwing. So once a route is cached, every later route request whose endpoints miss the route cache reaches the fallback and throws at that entry, within its 3-day life. The error is not an `OverpassError`, so it is rethrown (script.js:839, 924) and shown as the request's error (script.js:940) | a route from A to B, then a route from C to D within 3 days | a cached entry answers a bounds lookup by the bounds stored with it, and a route key is never read as a box | medium, not executed | `Cache.RouteWriteThenLookupRaises` | `Cache.RouteWriteServesCoveredRequest` |
| script.js:419-423 | tiles are merged by `el.id` alone. Node ids and way ids are separate numbering schemes, so a node and a way with the same id collide and the later one is dropped | node 7 in one tile and way 7 in a later tile | merge by element kind and id, so no way or node is lost | medium, not executed | `Tiles.IdCollisionLosesWay` | `Tiles.MergeByKindAndId` |
