/**
 * The A* worker: a search from a start node to an end node over the road graph, by time
 * or by distance. Entries carry their cost so far (g), the heuristic (h), their sum (f)
 * and a link to the entry they were reached from. The open set is a heap ordered by f
 * plus a map from node id to the newest entry for it; popped ids go into a closed set.
 * An entry whose id was already closed (a stale duplicate) is not skipped when popped:
 * it is traced again and its neighbours are looked at again, which never pushes anything.
 * Each popped entry that has a parent adds a trace record; records go out in batches of 500.
 */
module AStar {
  import opened Wrappers
  import opened Geo
  import opened OrderedMaps
  import opened RoadGraph
  import opened Heap

  datatype Mode = ByTime | ByDistance

  /** An entry of the open set: `{...node, g, h, f, parent}`. */
  datatype SearchEntry = SearchEntry(id: NodeId, pos: Coord, g: real, h: real, f: real, parent: Option<SearchEntry>)

  /** One trace record: the segment from an entry's parent to the entry. */
  datatype Record = Record(from: Coord, to: Coord)

  /** The one message the worker posts. */
  datatype Outcome =
    | Done(log: seq<seq<Record>>, finalPath: seq<PathPoint>)
    | Failed(error: string)

  const BatchSize: nat := 500
  const MissingEndpoint: string := "Start or end node not found in graph."
  const NoPathFound: string := "No path could be found."

  /** The edge cost the mode uses. */
  function CostOf(mode: Mode, c: EdgeCost): real {
    if mode == ByTime then c.time else c.distance
  }

  /** The distance to the goal, turned into seconds at the top speed in time mode. */
  function Heuristic(mode: Mode, dist: Distance, pos: Coord, goal: Coord): (h: real)
    ensures mode == ByTime ==> h * MaxSpeedMs == dist(pos, goal)
    ensures 0.0 <= dist(pos, goal) ==> 0.0 <= h <= dist(pos, goal)
  {
    MaxSpeedIsTableMaximum();
    if mode == ByTime then dist(pos, goal) / MaxSpeedMs else dist(pos, goal)
  }

  /** The heap key: the worker's comparator is `a.f < b.f`. */
  function FKey(e: SearchEntry): real { e.f }

  /** One search request. */
  datatype Problem = Problem(graph: Graph, startId: NodeId, goalId: NodeId, mode: Mode, dist: Distance)
  {
    ghost predicate Ok() {
      startId in graph.table && goalId in graph.table
    }

    function GoalPos(): Coord
      requires goalId in graph.table
    {
      graph.table[goalId].pos
    }
  }

  /**
   * An entry as the worker builds it: a node of the graph at its position, h the
   * heuristic there, f = g + h, and either the start with g = 0 or reached from a sound
   * parent along an edge, g being the parent's g plus that edge's cost.
   */
  ghost predicate Sound(p: Problem, e: SearchEntry)
    decreases e
  {
    && p.goalId in p.graph.table
    && e.id in p.graph.table && e.pos == p.graph.table[e.id].pos
    && e.h == Heuristic(p.mode, p.dist, e.pos, p.GoalPos())
    && e.f == e.g + e.h
    && match e.parent
       case None => e.id == p.startId && e.g == 0.0
       case Some(q) =>
         && Sound(p, q)
         && q.id in p.graph.table
         && e.id in p.graph.table[q.id].adj.table
         && e.g == q.g + CostOf(p.mode, p.graph.table[q.id].adj.table[e.id])
  }

  /** The parent chain of an entry, from the first ancestor to the entry. */
  function Chain(e: SearchEntry): (path: seq<PathPoint>)
    ensures |path| > 0 && path[|path| - 1] == PathPoint(e.id, e.pos)
    decreases e
  {
    match e.parent
    case None => [PathPoint(e.id, e.pos)]
    case Some(q) => Chain(q) + [PathPoint(e.id, e.pos)]
  }

  /** `path` runs from `from` to `to` over graph nodes, each step an edge of the graph. */
  ghost predicate IsPath(graph: Graph, path: seq<PathPoint>, from: NodeId, to: NodeId) {
    && |path| > 0 && path[0].id == from && path[|path| - 1].id == to
    && (forall i | 0 <= i < |path| :: path[i].id in graph.table && path[i].pos == graph.table[path[i].id].pos)
    && (forall i | 0 <= i < |path| - 1 :: path[i + 1].id in graph.table[path[i].id].adj.table)
  }

  /** The chain of a sound entry is a path from the start to the entry, and its cost is g. */
  lemma {:induction false} ChainIsPath(p: Problem, e: SearchEntry)
    requires Sound(p, e)
    ensures IsPath(p.graph, Chain(e), p.startId, e.id)
    ensures CostOf(p.mode, PathCost(p.graph, Chain(e))) == e.g
    decreases e
  {
    match e.parent
    case None =>
    case Some(q) =>
      ChainIsPath(p, q);
      var c := Chain(q);
      PathCostStep(p.graph, c, PathPoint(e.id, e.pos));
      var path := Chain(e);
      assert path == c + [PathPoint(e.id, e.pos)];
      forall i | 0 <= i < |path| - 1
        ensures path[i + 1].id in p.graph.table[path[i].id].adj.table
      {
        if i < |c| - 1 {
          assert path[i] == c[i] && path[i + 1] == c[i + 1];
        }
      }
  }

  function Reverse<T>(s: seq<T>): (r: seq<T>)
    ensures |r| == |s|
  {
    if s == [] then [] else [s[|s| - 1]] + Reverse(s[..|s| - 1])
  }

  /** `while (temp) { finalPath.push(...); temp = temp.parent }` then `finalPath.reverse()`. */
  method ReconstructPath(goal: SearchEntry) returns (finalPath: seq<PathPoint>)
    ensures finalPath == Chain(goal)
  {
    var acc: seq<PathPoint> := [];
    var temp: Option<SearchEntry> := Some(goal);
    while temp.Some?
      invariant Chain(goal) == (if temp.Some? then Chain(temp.value) else []) + Reverse(acc)
      decreases temp
    {
      var point := PathPoint(temp.value.id, temp.value.pos);
      assert Reverse(acc + [point]) == [point] + Reverse(acc) by {
        assert (acc + [point])[..|acc|] == acc;
      }
      acc := acc + [point];
      temp := temp.value.parent;
    }
    finalPath := Reverse(acc);
  }

  // ---------------------------------------------------------------------------
  // The search state and what the loop keeps true of it

  /**
   * Every edge out of closed node `u` among `ws` to an open-able node has an open entry
   * no dearer than going through `u` at the cost `u` was closed with.
   */
  ghost predicate Relaxed(p: Problem, open: map<NodeId, SearchEntry>, closed: map<NodeId, real>, u: NodeId, ws: seq<NodeId>) {
    u in closed && u in p.graph.table &&
    forall w | w in ws && w in p.graph.table[u].adj.table && w in p.graph.table && w !in closed ::
      w in open && open[w].g <= closed[u] + CostOf(p.mode, p.graph.table[u].adj.table[w])
  }

  /** Closed node `u` is relaxed over all its edges. */
  ghost predicate Settled(p: Problem, open: map<NodeId, SearchEntry>, closed: map<NodeId, real>, u: NodeId) {
    u in closed && u in p.graph.table &&
    forall w | w in p.graph.table[u].adj.table && w in p.graph.table && w !in closed ::
      w in open && open[w].g <= closed[u] + CostOf(p.mode, p.graph.table[u].adj.table[w])
  }

  /** Every closed node but those in `skip` is relaxed over all its edges. */
  ghost predicate AllRelaxed(p: Problem, open: map<NodeId, SearchEntry>, closed: map<NodeId, real>, skip: set<NodeId>) {
    forall u | u in closed && u !in skip :: Settled(p, open, closed, u)
  }

  /**
   * The search invariant. `closed` maps each closed id to the g it was closed with.
   * Heap entries are sound; the open map holds, for unclosed ids only, an entry that is
   * in the heap and is the cheapest heap entry for its id; a stale heap entry is no
   * cheaper than its id's closing cost; the goal is never closed; the start is open or
   * closed.
   */
  ghost predicate Inv(p: Problem, heap: seq<SearchEntry>, open: map<NodeId, SearchEntry>, closed: map<NodeId, real>) {
    && p.Ok()
    && (forall e | e in heap :: Sound(p, e))
    && (forall v | v in open :: v !in closed && open[v].id == v && open[v] in heap)
    && (forall e | e in heap && e.id !in closed :: e.id in open && open[e.id].g <= e.g)
    && (forall e | e in heap && e.id in closed :: closed[e.id] <= e.g)
    && p.goalId !in closed
    && (forall v | v in closed :: v in p.graph.table)
    && (p.startId in closed || p.startId in open)
  }

  /** The state after pushing the start entry. */
  lemma InitialState(p: Problem, start: SearchEntry)
    requires p.Ok() && Sound(p, start) && start.id == p.startId
    ensures Inv(p, [start], map[p.startId := start], map[])
    ensures AllRelaxed(p, map[p.startId := start], map[], {})
  {
  }

  /**
   * The state after a non-goal pop of `e`: its id joins the closed ids (keeping the cost it
   * was first closed with), the invariant holds of the rest, and every closed node but `e`'s
   * is still relaxed; a stale pop finds its node already relaxed.
   */
  ghost predicate Popped(p: Problem, rest: seq<SearchEntry>, open: map<NodeId, SearchEntry>,
                         closed: map<NodeId, real>, closed': map<NodeId, real>, e: SearchEntry) {
    && closed'.Keys == closed.Keys + {e.id}
    && Inv(p, rest, open, closed') && AllRelaxed(p, open, closed', {e.id})
    && (e.id in closed ==> closed' == closed && Settled(p, open, closed, e.id) && closed[e.id] <= e.g)
    && (e.id !in closed ==> closed'[e.id] == e.g && |closed'| == |closed| + 1)
    && |closed'| <= |p.graph.table.Keys|
  }

  /** Popping a least entry whose id is not closed yet, and closing the id with its g. */
  lemma PopFresh(p: Problem, heap: seq<SearchEntry>, rest: seq<SearchEntry>, open: map<NodeId, SearchEntry>,
                 closed: map<NodeId, real>, e: SearchEntry)
    requires Inv(p, heap, open, closed) && AllRelaxed(p, open, closed, {})
    requires e in heap && multiset(rest) + multiset{e} == multiset(heap)
    requires forall x | x in heap :: e.f <= x.f
    requires e.id !in closed && e.id != p.goalId
    ensures Popped(p, rest, open - {e.id}, closed, closed[e.id := e.g], e)
    ensures Relaxed(p, open - {e.id}, closed[e.id := e.g], e.id, [])
    ensures Sound(p, e)
  {
    FreshInv(p, heap, rest, open, closed, e);
    FreshRelaxed(p, open, closed, e);
    ClosedBounded(p, rest, open - {e.id}, closed[e.id := e.g]);
  }

  /** The invariant part of `PopFresh`: the least entry for its id carries that id's open cost. */
  lemma FreshInv(p: Problem, heap: seq<SearchEntry>, rest: seq<SearchEntry>, open: map<NodeId, SearchEntry>,
                 closed: map<NodeId, real>, e: SearchEntry)
    requires Inv(p, heap, open, closed)
    requires e in heap && multiset(rest) + multiset{e} == multiset(heap)
    requires forall x | x in heap :: e.f <= x.f
    requires e.id !in closed && e.id != p.goalId
    ensures Inv(p, rest, open - {e.id}, closed[e.id := e.g]) && Sound(p, e)
  {
    var v := e.id;
    var om := open[v];
    assert Sound(p, om) && Sound(p, e);
    assert e.g == om.g;
    var open' := open - {v};
    var closed' := closed[v := e.g];
    forall x | x in rest ensures x in heap {
      assert x in multiset(rest) && x in multiset(heap);
    }
    forall w | w in open' ensures open'[w] in rest {
      assert open[w] in multiset(heap) && open[w] != e;
    }
    forall x | x in rest && x.id in closed' ensures closed'[x.id] <= x.g {
      assert x in heap;
    }
  }

  /** The relaxation part of `PopFresh`: closing a new id unsettles no other closed node. */
  lemma FreshRelaxed(p: Problem, open: map<NodeId, SearchEntry>, closed: map<NodeId, real>, e: SearchEntry)
    requires AllRelaxed(p, open, closed, {}) && e.id !in closed && e.id in p.graph.table
    ensures AllRelaxed(p, open - {e.id}, closed[e.id := e.g], {e.id})
    ensures Relaxed(p, open - {e.id}, closed[e.id := e.g], e.id, [])
  {
    var open', closed' := open - {e.id}, closed[e.id := e.g];
    forall u | u in closed' && u != e.id ensures Settled(p, open', closed', u) {
      assert Settled(p, open, closed, u);
    }
  }

  /** Popping an entry whose id is already closed changes nothing else. */
  lemma PopStale(p: Problem, heap: seq<SearchEntry>, rest: seq<SearchEntry>, open: map<NodeId, SearchEntry>,
                 closed: map<NodeId, real>, e: SearchEntry)
    requires Inv(p, heap, open, closed) && AllRelaxed(p, open, closed, {})
    requires e in heap && multiset(rest) + multiset{e} == multiset(heap)
    requires e.id in closed
    ensures open - {e.id} == open
    ensures Popped(p, rest, open - {e.id}, closed, closed, e)
    ensures Sound(p, e)
  {
    ClosedBounded(p, heap, open, closed);
    assert closed.Keys + {e.id} == closed.Keys;
    forall x | x in rest ensures x in heap {
      assert x in multiset(rest) && x in multiset(heap);
    }
    forall w | w in open ensures open[w] in rest {
      assert open[w] in multiset(heap) && open[w] != e;
    }
  }

  /** The entry built for neighbour `w` of a sound entry `cur` is sound. */
  lemma NewEntrySound(p: Problem, cur: SearchEntry, ne: SearchEntry)
    requires p.Ok() && Sound(p, cur)
    requires ne.id in p.graph.table && ne.id in p.graph.table[cur.id].adj.table
    requires ne.pos == p.graph.table[ne.id].pos && ne.parent == Some(cur)
    requires ne.g == cur.g + CostOf(p.mode, p.graph.table[cur.id].adj.table[ne.id])
    requires ne.h == Heuristic(p.mode, p.dist, ne.pos, p.GoalPos()) && ne.f == ne.g + ne.h
    ensures Sound(p, ne)
  {
  }

  /**
   * Pushing a sound entry for an unclosed id that has no open entry or a dearer one, and
   * making it that id's open entry, keeps the invariant.
   */
  lemma PushKeepsInv(p: Problem, heap: seq<SearchEntry>, heap': seq<SearchEntry>, open: map<NodeId, SearchEntry>,
                     closed: map<NodeId, real>, ne: SearchEntry)
    requires Inv(p, heap, open, closed) && Sound(p, ne)
    requires ne.id !in closed && (ne.id !in open || ne.g < open[ne.id].g)
    requires multiset(heap') == multiset(heap) + multiset{ne}
    ensures Inv(p, heap', open[ne.id := ne], closed)
  {
    var open' := open[ne.id := ne];
    forall x | x in heap' ensures x in heap || x == ne {
      assert x in multiset(heap');
    }
    forall v | v in open ensures open[v] in heap' {
      assert open[v] in multiset(heap) && open[v] in multiset(heap');
    }
    assert ne in multiset(heap');
    forall x | x in heap' && x.id !in closed ensures x.id in open' && open'[x.id].g <= x.g {
      if x != ne {
        assert x in heap;
      }
    }
    forall x | x in heap' && x.id in closed ensures closed[x.id] <= x.g {
      if x != ne {
        assert x in heap;
      }
    }
  }

  /** Lowering (or adding) one open entry keeps every relaxed edge relaxed. */
  lemma LowerKeepsRelaxed(p: Problem, open: map<NodeId, SearchEntry>, closed: map<NodeId, real>, ne: SearchEntry,
                          u: NodeId, ws: seq<NodeId>)
    requires Relaxed(p, open, closed, u, ws)
    requires ne.id !in open || ne.g < open[ne.id].g
    ensures Relaxed(p, open[ne.id := ne], closed, u, ws)
  {
  }

  lemma LowerKeepsAllRelaxed(p: Problem, open: map<NodeId, SearchEntry>, closed: map<NodeId, real>, ne: SearchEntry,
                             skip: set<NodeId>)
    requires AllRelaxed(p, open, closed, skip)
    requires ne.id !in open || ne.g < open[ne.id].g
    ensures AllRelaxed(p, open[ne.id := ne], closed, skip)
  {
    forall u | u in closed && u !in skip
      ensures Settled(p, open[ne.id := ne], closed, u)
    {
      assert Settled(p, open, closed, u);
    }
  }

  /** Looking at neighbour `w` of `cur` when nothing is pushed keeps everything and relaxes the edge. */
  lemma SkipStep(p: Problem, open: map<NodeId, SearchEntry>, closed: map<NodeId, real>, cur: SearchEntry, t: nat)
    requires p.Ok() && Sound(p, cur) && cur.id in closed && closed[cur.id] == cur.g
    requires t < |p.graph.table[cur.id].adj.keys|
    requires Relaxed(p, open, closed, cur.id, p.graph.table[cur.id].adj.keys[..t])
    requires var w := p.graph.table[cur.id].adj.keys[t];
      w in p.graph.table[cur.id].adj.table &&
      (w in p.graph.table && w !in closed ==>
        w in open && open[w].g <= cur.g + CostOf(p.mode, p.graph.table[cur.id].adj.table[w]))
    ensures Relaxed(p, open, closed, cur.id, p.graph.table[cur.id].adj.keys[..t + 1])
  {
    var ks := p.graph.table[cur.id].adj.keys;
    assert ks[..t + 1] == ks[..t] + [ks[t]];
  }

  /** Once every key has been looked at, the closed node is relaxed over all its edges. */
  lemma RelaxedAll(p: Problem, open: map<NodeId, SearchEntry>, closed: map<NodeId, real>, u: NodeId)
    requires u in p.graph.table && p.graph.table[u].adj.Valid()
    requires Relaxed(p, open, closed, u, p.graph.table[u].adj.keys[..|p.graph.table[u].adj.keys|])
    ensures Settled(p, open, closed, u)
  {
    var ks := p.graph.table[u].adj.keys;
    assert ks[..|ks|] == ks;
    p.graph.table[u].adj.KeysInTable();
  }

  /**
   * When the open set runs dry, the closed nodes include the start and every node
   * reachable from a closed one, and the goal is not among them: no path exists.
   */
  lemma {:induction false} ExhaustedMeansUnreachable(p: Problem, open: map<NodeId, SearchEntry>, closed: map<NodeId, real>,
                                                     path: seq<PathPoint>)
    requires Inv(p, [], open, closed) && AllRelaxed(p, open, closed, {})
    ensures !IsPath(p.graph, path, p.startId, p.goalId)
  {
    assert forall v | v in open :: open[v] in [];
    assert open == map[];
    if IsPath(p.graph, path, p.startId, p.goalId) {
      var i := 0;
      while i < |path| - 1
        invariant 0 <= i < |path| && path[i].id in closed
      {
        var u := path[i].id;
        assert Settled(p, open, closed, u);
        i := i + 1;
      }
    }
  }

  /** No more nodes can be closed than the graph has. */
  lemma SubsetCard<T>(a: set<T>, b: set<T>)
    requires a <= b
    ensures |a| <= |b|
  {
    if a != {} {
      var x :| x in a;
      SubsetCard(a - {x}, b - {x});
    }
  }

  /** Every closed id is a graph node, so no more ids can be closed than the graph has. */
  lemma ClosedBounded(p: Problem, heap: seq<SearchEntry>, open: map<NodeId, SearchEntry>, closed: map<NodeId, real>)
    requires Inv(p, heap, open, closed)
    ensures |closed| <= |p.graph.table.Keys|
  {
    forall v | v in closed.Keys ensures v in p.graph.table.Keys {
      assert v in closed;
    }
    SubsetCard(closed.Keys, p.graph.table.Keys);
  }

  // ---------------------------------------------------------------------------
  // The trace

  function Flatten(log: seq<seq<Record>>): seq<Record> {
    if log == [] then [] else Flatten(log[..|log| - 1]) + log[|log| - 1]
  }

  /** The record a popped entry adds: the segment from its parent, if it has one. */
  function RecordOf(e: SearchEntry): seq<Record> {
    if e.parent.Some? then [Record(e.parent.value.pos, e.pos)] else []
  }

  /** The records of a sequence of popped entries: one per entry that has a parent. */
  function Trace(pops: seq<SearchEntry>): seq<Record> {
    if pops == [] then [] else Trace(pops[..|pops| - 1]) + RecordOf(pops[|pops| - 1])
  }

  lemma FlattenAppend(log: seq<seq<Record>>, batch: seq<Record>)
    ensures Flatten(log + [batch]) == Flatten(log) + batch
  {
    assert (log + [batch])[..|log|] == log;
  }

  lemma TraceAppend(pops: seq<SearchEntry>, e: SearchEntry)
    ensures Trace(pops + [e]) == Trace(pops) + RecordOf(e)
  {
    assert (pops + [e])[..|pops|] == pops;
  }

  /** A log and batch that hold the trace of `pops`, extended by `e`'s record, hold the trace of `pops + [e]`. */
  lemma TraceStep(log: seq<seq<Record>>, batch: seq<Record>, log': seq<seq<Record>>, batch': seq<Record>,
                  pops: seq<SearchEntry>, e: SearchEntry)
    requires Flatten(log) + batch == Trace(pops)
    requires Flatten(log') + batch' == Flatten(log) + batch + RecordOf(e)
    ensures Flatten(log') + batch' == Trace(pops + [e])
  {
    TraceAppend(pops, e);
  }

  /** Full batches of 500; a final, shorter, non-empty one may follow. */
  ghost predicate Batched(log: seq<seq<Record>>) {
    forall i | 0 <= i < |log| :: 0 < |log[i]| <= BatchSize && (i < |log| - 1 ==> |log[i]| == BatchSize)
  }

  /** Every batch holds exactly 500 records: the log while the search runs. */
  ghost predicate AllFull(log: seq<seq<Record>>) {
    forall i | 0 <= i < |log| :: |log[i]| == BatchSize
  }

  // ---------------------------------------------------------------------------
  // The worker

  /**
   * Tracing one popped entry: its record goes into the current batch, and a batch that
   * reaches 500 records moves into the log.
   */
  method AddRecord(animationLog: seq<seq<Record>>, pathBatch: seq<Record>, current: SearchEntry)
    returns (log: seq<seq<Record>>, batch: seq<Record>)
    requires AllFull(animationLog) && |pathBatch| < BatchSize
    ensures AllFull(log) && |batch| < BatchSize
    ensures Flatten(log) + batch == Flatten(animationLog) + pathBatch + RecordOf(current)
  {
    log, batch := animationLog, pathBatch;
    if current.parent.Some? {
      batch := batch + [Record(current.parent.value.pos, current.pos)];
    }
    if |batch| >= BatchSize {
      FlattenAppend(log, batch);
      log := log + [batch];
      batch := [];
    }
  }

  /** Full batches followed by one non-empty batch, or by none, form a well-batched log. */
  lemma FullThenLast(log: seq<seq<Record>>, batch: seq<Record>)
    requires AllFull(log) && |batch| <= BatchSize
    ensures Batched(log)
    ensures |batch| > 0 ==> Batched(log + [batch])
  {
    if |batch| > 0 {
      var r := log + [batch];
      forall i | 0 <= i < |r| ensures 0 < |r[i]| <= BatchSize && (i < |r| - 1 ==> |r[i]| == BatchSize) {
        if i < |log| {
          assert r[i] == log[i];
        }
      }
    }
  }

  /** The final flush: a non-empty batch moves into the log. */
  method FlushBatch(animationLog: seq<seq<Record>>, pathBatch: seq<Record>) returns (log: seq<seq<Record>>)
    requires AllFull(animationLog) && |pathBatch| < BatchSize
    ensures Batched(log) && Flatten(log) == Flatten(animationLog) + pathBatch
  {
    log := animationLog;
    FullThenLast(log, pathBatch);
    if |pathBatch| > 0 {
      FlattenAppend(log, pathBatch);
      log := log + [pathBatch];
    }
  }

  /**
   * `openSet.pop()` followed by `openSetMap.delete(current.id)`: the least entry leaves
   * the heap and its id leaves the open map. Unless it is the goal, its id is closed:
   * with the entry's g when it was not closed before (one node fewer left to close), and
   * unchanged when the entry is stale.
   */
  method PopNext(ghost p: Problem, openSet: PriorityQueue<SearchEntry>, openSetMap: map<NodeId, SearchEntry>,
                 ghost closed: map<NodeId, real>)
    returns (current: SearchEntry, openMap: map<NodeId, SearchEntry>, ghost closed': map<NodeId, real>, ghost stale: bool)
    requires openSet.Valid() && openSet.key == FKey && openSet.heap != []
    requires Inv(p, openSet.heap, openSetMap, closed) && AllRelaxed(p, openSetMap, closed, {})
    modifies openSet
    ensures openSet.Valid() && openSet.key == FKey && |openSet.heap| == old(|openSet.heap|) - 1
    ensures current in old(openSet.heap) && forall x | x in old(openSet.heap) :: current.f <= x.f
    ensures multiset(openSet.heap) + multiset{current} == old(multiset(openSet.heap))
    ensures openMap == openSetMap - {current.id} && Sound(p, current)
    ensures stale <==> current.id in closed
    ensures current.id != p.goalId ==> Popped(p, openSet.heap, openMap, closed, closed', current)
  {
    ghost var heapBefore := openSet.heap;
    var popped := openSet.Pop();
    current := popped.value;
    assert current in heapBefore;
    assert forall x | x in heapBefore :: current.f <= x.f by {
      forall x | x in heapBefore ensures current.f <= x.f {
        assert FKey(current) <= FKey(x);
      }
    }
    openMap := openSetMap - {current.id};
    stale := current.id in closed;
    closed' := if stale then closed else closed[current.id := current.g];
    if current.id == p.goalId {
      assert Sound(p, current);
    } else if stale {
      PopStale(p, heapBefore, openSet.heap, openSetMap, closed, current);
    } else {
      PopFresh(p, heapBefore, openSet.heap, openSetMap, closed, current);
    }
  }

  /**
   * Neighbour `w` of `cur`, along an edge of `adj`, qualifies for a push against the open
   * map `open`: it is a graph node, it is not closed, and it has no open entry or a dearer one.
   */
  predicate Improves(graph: Graph, adj: OMap<NodeId, EdgeCost>, mode: Mode, closedSet: set<NodeId>,
                     open: map<NodeId, SearchEntry>, cur: SearchEntry, w: NodeId) {
    && w in adj.table && w in graph.table && w !in closedSet
    && (w !in open || cur.g + CostOf(mode, adj.table[w]) < open[w].g)
  }

  /** `e` is the entry the neighbour loop of `cur` builds for a qualifying neighbour. */
  predicate PushedBy(graph: Graph, adj: OMap<NodeId, EdgeCost>, mode: Mode, closedSet: set<NodeId>,
                     open: map<NodeId, SearchEntry>, cur: SearchEntry, e: SearchEntry) {
    && Improves(graph, adj, mode, closedSet, open, cur, e.id)
    && e.parent == Some(cur) && e.pos == graph.table[e.id].pos
    && e.g == cur.g + CostOf(mode, adj.table[e.id])
  }

  /**
   * The neighbour loop of one popped entry: for each adjacency entry, skip closed ids and
   * ids missing from the graph, and push a new entry when the id has no open entry or a
   * dearer one. The heap gains exactly the entries pushed, one for each qualifying
   * neighbour, and the open map points each of those ids at its new entry. After the loop
   * the popped node is relaxed over all its edges; when the pop was stale nothing was pushed.
   */
  method ExpandNeighbors(ghost p: Problem, graph: Graph, mode: Mode, dist: Distance, endPos: Coord,
                         openSet: PriorityQueue<SearchEntry>, openSetMap: map<NodeId, SearchEntry>,
                         closedSet: set<NodeId>, ghost closed: map<NodeId, real>,
                         current: SearchEntry, ghost stale: bool)
    returns (openMap: map<NodeId, SearchEntry>)
    requires graph == p.graph && mode == p.mode && dist == p.dist && p.Ok() && endPos == p.GoalPos()
    requires openSet.Valid() && openSet.key == FKey
    requires closedSet == closed.Keys && current.id in closed && Sound(p, current)
    requires Inv(p, openSet.heap, openSetMap, closed) && AllRelaxed(p, openSetMap, closed, {current.id})
    requires graph.table[current.id].adj.Valid()
    requires stale ==> Settled(p, openSetMap, closed, current.id) && closed[current.id] <= current.g
    requires !stale ==> closed[current.id] == current.g
    modifies openSet
    ensures openSet.Valid() && openSet.key == FKey
    ensures Inv(p, openSet.heap, openMap, closed) && AllRelaxed(p, openMap, closed, {})
    ensures stale ==> openSet.heap == old(openSet.heap)
    ensures old(multiset(openSet.heap)) <= multiset(openSet.heap)
    ensures forall e | e in multiset(openSet.heap) - old(multiset(openSet.heap)) ::
      && PushedBy(graph, graph.table[current.id].adj, mode, closedSet, openSetMap, current, e)
      && e.id in openMap && openMap[e.id] == e
    ensures forall w | Improves(graph, graph.table[current.id].adj, mode, closedSet, openSetMap, current, w) ::
      w in openMap && openMap[w] in multiset(openSet.heap) - old(multiset(openSet.heap))
    ensures forall v | v in openSetMap :: v in openMap
    ensures forall v | v in openMap && (v !in openSetMap || openMap[v] != openSetMap[v]) ::
      openMap[v] in multiset(openSet.heap) - old(multiset(openSet.heap))
  {
    openMap := openSetMap;
    var adj := graph.table[current.id].adj;
    var ks := adj.keys;
    ghost var heap0 := openSet.heap;
    ghost var pushed: seq<SearchEntry> := [];
    StaleImprovesNothing(p, adj, closedSet, closed, current, stale, openSetMap);
    ExpandStart(p, adj, closedSet, closed, current, stale, heap0, openSetMap);
    for t := 0 to |ks|
      invariant openSet.Valid() && openSet.key == FKey
      invariant Expanding(p, adj, closedSet, closed, current, stale, heap0, openSetMap, openSet.heap, openMap, ks[..t], pushed)
    {
      var neighborId := ks[t];
      adj.KeysInTable();
      var cost := adj.table[neighborId];
      if neighborId in closedSet || neighborId !in graph.table {
        ExpandSkip(p, adj, closedSet, closed, current, stale, heap0, openSetMap, openSet.heap, openMap, t, pushed);
        continue;
      }
      var neighbor := graph.table[neighborId];
      var tentativeG := current.g + CostOf(mode, cost);
      if neighborId !in openMap || tentativeG < openMap[neighborId].g {
        var nh := Heuristic(mode, dist, neighbor.pos, endPos);
        var newNeighbor := SearchEntry(neighborId, neighbor.pos, tentativeG, nh, tentativeG + nh, Some(current));
        ghost var heapNow := openSet.heap;
        var _ := openSet.Push(newNeighbor);
        ExpandPush(p, adj, closedSet, closed, current, stale, heap0, openSetMap, heapNow, openSet.heap, openMap, t, pushed, newNeighbor);
        openMap := openMap[neighborId := newNeighbor];
        pushed := pushed + [newNeighbor];
      } else {
        ExpandSkip(p, adj, closedSet, closed, current, stale, heap0, openSetMap, openSet.heap, openMap, t, pushed);
      }
    }
    assert ks[..|ks|] == ks;
    ExpandDone(p, adj, closedSet, closed, current, stale, heap0, openSetMap, openSet.heap, openMap, pushed);
  }

  /**
   * The loop invariant of the neighbour loop after the keys `done`, from the heap `heap0`
   * and open map `open0` it started with: the search invariant with every closed node but
   * the popped one relaxed; the popped node relaxed over `done` unless the pop was stale,
   * and nothing changed if it was; the heap grown by exactly the entries `pushed`.
   */
  ghost predicate Expanding(p: Problem, adj: OMap<NodeId, EdgeCost>, closedSet: set<NodeId>, closed: map<NodeId, real>,
                            cur: SearchEntry, stale: bool, heap0: seq<SearchEntry>, open0: map<NodeId, SearchEntry>,
                            heap: seq<SearchEntry>, open: map<NodeId, SearchEntry>, done: seq<NodeId>, pushed: seq<SearchEntry>) {
    && Inv(p, heap, open, closed) && AllRelaxed(p, open, closed, {cur.id})
    && (stale ==> heap == heap0 && open == open0)
    && (!stale ==> Relaxed(p, open, closed, cur.id, done))
    && multiset(heap) == multiset(heap0) + multiset(pushed)
    && PushLog(p.graph, adj, p.mode, closedSet, open0, open, cur, done, pushed)
  }

  /** What the neighbour loop may assume of the popped entry throughout. */
  ghost predicate ExpandPre(p: Problem, adj: OMap<NodeId, EdgeCost>, closedSet: set<NodeId>, closed: map<NodeId, real>,
                            cur: SearchEntry, stale: bool, open0: map<NodeId, SearchEntry>) {
    && p.Ok() && Sound(p, cur) && cur.id in closed && closedSet == closed.Keys
    && adj == p.graph.table[cur.id].adj && adj.Valid()
    && (stale ==> Settled(p, open0, closed, cur.id) && closed[cur.id] <= cur.g)
    && (!stale ==> closed[cur.id] == cur.g)
  }

  /** After a stale pop no neighbour qualifies: the popped node was already relaxed. */
  lemma StaleImprovesNothing(p: Problem, adj: OMap<NodeId, EdgeCost>, closedSet: set<NodeId>, closed: map<NodeId, real>,
                             cur: SearchEntry, stale: bool, open0: map<NodeId, SearchEntry>)
    requires ExpandPre(p, adj, closedSet, closed, cur, stale, open0)
    ensures stale ==> forall w :: !Improves(p.graph, adj, p.mode, closedSet, open0, cur, w)
  {
  }

  lemma ExpandStart(p: Problem, adj: OMap<NodeId, EdgeCost>, closedSet: set<NodeId>, closed: map<NodeId, real>,
                    cur: SearchEntry, stale: bool, heap0: seq<SearchEntry>, open0: map<NodeId, SearchEntry>)
    requires ExpandPre(p, adj, closedSet, closed, cur, stale, open0)
    requires Inv(p, heap0, open0, closed) && AllRelaxed(p, open0, closed, {cur.id})
    ensures Expanding(p, adj, closedSet, closed, cur, stale, heap0, open0, heap0, open0, adj.keys[..0], [])
  {
  }

  /** A neighbour that does not qualify is passed over. */
  lemma ExpandSkip(p: Problem, adj: OMap<NodeId, EdgeCost>, closedSet: set<NodeId>, closed: map<NodeId, real>,
                   cur: SearchEntry, stale: bool, heap0: seq<SearchEntry>, open0: map<NodeId, SearchEntry>,
                   heap: seq<SearchEntry>, open: map<NodeId, SearchEntry>, t: nat, pushed: seq<SearchEntry>)
    requires ExpandPre(p, adj, closedSet, closed, cur, stale, open0) && t < |adj.keys|
    requires Expanding(p, adj, closedSet, closed, cur, stale, heap0, open0, heap, open, adj.keys[..t], pushed)
    requires !Improves(p.graph, adj, p.mode, closedSet, open, cur, adj.keys[t])
    ensures Expanding(p, adj, closedSet, closed, cur, stale, heap0, open0, heap, open, adj.keys[..t + 1], pushed)
  {
    var ks := adj.keys;
    DistinctAt(ks, t);
    assert ks[..t + 1] == ks[..t] + [ks[t]];
    adj.KeysInTable();
    if !stale {
      SkipStep(p, open, closed, cur, t);
    }
    PushLogSkip(p.graph, adj, p.mode, closedSet, open0, open, cur, ks[..t], pushed, ks[t]);
  }

  /** A qualifying neighbour gets a new sound entry, which becomes its open entry. */
  lemma ExpandPush(p: Problem, adj: OMap<NodeId, EdgeCost>, closedSet: set<NodeId>, closed: map<NodeId, real>,
                   cur: SearchEntry, stale: bool, heap0: seq<SearchEntry>, open0: map<NodeId, SearchEntry>,
                   heap: seq<SearchEntry>, heap': seq<SearchEntry>, open: map<NodeId, SearchEntry>, t: nat,
                   pushed: seq<SearchEntry>, ne: SearchEntry)
    requires ExpandPre(p, adj, closedSet, closed, cur, stale, open0) && t < |adj.keys|
    requires Expanding(p, adj, closedSet, closed, cur, stale, heap0, open0, heap, open, adj.keys[..t], pushed)
    requires Improves(p.graph, adj, p.mode, closedSet, open, cur, adj.keys[t])
    requires stale ==> forall w :: !Improves(p.graph, adj, p.mode, closedSet, open0, cur, w)
    requires ne.id == adj.keys[t] && ne.parent == Some(cur)
    requires ne.pos == p.graph.table[ne.id].pos && ne.g == cur.g + CostOf(p.mode, adj.table[ne.id])
    requires ne.h == Heuristic(p.mode, p.dist, ne.pos, p.GoalPos()) && ne.f == ne.g + ne.h
    requires multiset(heap') == multiset(heap) + multiset{ne}
    ensures !stale
    ensures Expanding(p, adj, closedSet, closed, cur, stale, heap0, open0, heap', open[ne.id := ne], adj.keys[..t + 1], pushed + [ne])
  {
    var ks := adj.keys;
    DistinctAt(ks, t);
    assert ks[..t + 1] == ks[..t] + [ks[t]];
    adj.KeysInTable();
    NewEntrySound(p, cur, ne);
    PushKeepsInv(p, heap, heap', open, closed, ne);
    LowerKeepsAllRelaxed(p, open, closed, ne, {cur.id});
    LowerKeepsRelaxed(p, open, closed, ne, cur.id, ks[..t]);
    PushLogPush(p.graph, adj, p.mode, closedSet, open0, open, cur, ks[..t], pushed, ne);
    SkipStep(p, open[ne.id := ne], closed, cur, t);
  }

  /** After the last key: the method's postconditions, from the loop invariant. */
  lemma ExpandDone(p: Problem, adj: OMap<NodeId, EdgeCost>, closedSet: set<NodeId>, closed: map<NodeId, real>,
                   cur: SearchEntry, stale: bool, heap0: seq<SearchEntry>, open0: map<NodeId, SearchEntry>,
                   heap: seq<SearchEntry>, open: map<NodeId, SearchEntry>, pushed: seq<SearchEntry>)
    requires ExpandPre(p, adj, closedSet, closed, cur, stale, open0)
    requires Expanding(p, adj, closedSet, closed, cur, stale, heap0, open0, heap, open, adj.keys, pushed)
    ensures Inv(p, heap, open, closed) && AllRelaxed(p, open, closed, {})
    ensures stale ==> heap == heap0
    ensures multiset(heap0) <= multiset(heap)
    ensures forall e | e in multiset(heap) - multiset(heap0) ::
      && PushedBy(p.graph, adj, p.mode, closedSet, open0, cur, e)
      && e.id in open && open[e.id] == e
    ensures forall w | Improves(p.graph, adj, p.mode, closedSet, open0, cur, w) ::
      w in open && open[w] in multiset(heap) - multiset(heap0)
    ensures forall v | v in open0 :: v in open
    ensures forall v | v in open && (v !in open0 || open[v] != open0[v]) ::
      open[v] in multiset(heap) - multiset(heap0)
  {
    adj.KeysInTable();
    if !stale {
      RelaxedAll(p, open, closed, cur.id);
    }
    PushLogDone(p.graph, adj, p.mode, closedSet, open0, open, cur, adj.keys, pushed);
    assert multiset(heap) - multiset(heap0) == multiset(pushed);
  }

  /**
   * The bookkeeping of the neighbour loop after the keys `done`: every entry pushed so far
   * follows the push rule for a key among `done` and is its id's open entry; the open map
   * differs from the one before the loop only at ids of pushed entries; and every
   * qualifying key among `done` got a pushed entry.
   */
  ghost predicate PushLog(graph: Graph, adj: OMap<NodeId, EdgeCost>, mode: Mode, closedSet: set<NodeId>,
                          open0: map<NodeId, SearchEntry>, open: map<NodeId, SearchEntry>, cur: SearchEntry,
                          done: seq<NodeId>, pushed: seq<SearchEntry>) {
    && (forall e | e in pushed :: PushedBy(graph, adj, mode, closedSet, open0, cur, e) && e.id in done && e.id in open && open[e.id] == e)
    && (forall v | v in open0 :: v in open)
    && (forall v | v in open && v !in done :: v in open0 && open[v] == open0[v])
    && (forall v | v in open && (v !in open0 || open[v] != open0[v]) :: open[v] in pushed)
    && (forall w | w in done && Improves(graph, adj, mode, closedSet, open0, cur, w) :: w in open && open[w] in pushed)
  }

  /** A key that is not pushed for does not qualify, and the log extends over it. */
  lemma PushLogSkip(graph: Graph, adj: OMap<NodeId, EdgeCost>, mode: Mode, closedSet: set<NodeId>,
                    open0: map<NodeId, SearchEntry>, open: map<NodeId, SearchEntry>, cur: SearchEntry,
                    done: seq<NodeId>, pushed: seq<SearchEntry>, w: NodeId)
    requires PushLog(graph, adj, mode, closedSet, open0, open, cur, done, pushed) && w !in done && w in adj.table
    requires !Improves(graph, adj, mode, closedSet, open, cur, w)
    ensures PushLog(graph, adj, mode, closedSet, open0, open, cur, done + [w], pushed)
  {
  }

  /** Pushing the entry for a qualifying key extends the log over it. */
  lemma PushLogPush(graph: Graph, adj: OMap<NodeId, EdgeCost>, mode: Mode, closedSet: set<NodeId>,
                    open0: map<NodeId, SearchEntry>, open: map<NodeId, SearchEntry>, cur: SearchEntry,
                    done: seq<NodeId>, pushed: seq<SearchEntry>, ne: SearchEntry)
    requires PushLog(graph, adj, mode, closedSet, open0, open, cur, done, pushed) && ne.id !in done
    requires Improves(graph, adj, mode, closedSet, open, cur, ne.id)
    requires ne.parent == Some(cur) && ne.pos == graph.table[ne.id].pos && ne.g == cur.g + CostOf(mode, adj.table[ne.id])
    ensures PushLog(graph, adj, mode, closedSet, open0, open[ne.id := ne], cur, done + [ne.id], pushed + [ne])
  {
  }

  /** After all the keys, the log speaks of every neighbour. */
  lemma PushLogDone(graph: Graph, adj: OMap<NodeId, EdgeCost>, mode: Mode, closedSet: set<NodeId>,
                    open0: map<NodeId, SearchEntry>, open: map<NodeId, SearchEntry>, cur: SearchEntry,
                    ks: seq<NodeId>, pushed: seq<SearchEntry>)
    requires PushLog(graph, adj, mode, closedSet, open0, open, cur, ks, pushed)
    requires forall w :: w in ks <==> w in adj.table
    ensures forall e | e in multiset(pushed) :: PushedBy(graph, adj, mode, closedSet, open0, cur, e) && e.id in open && open[e.id] == e
    ensures forall w | Improves(graph, adj, mode, closedSet, open0, cur, w) :: w in open && open[w] in multiset(pushed)
    ensures forall v | v in open0 :: v in open
    ensures forall v | v in open && (v !in open0 || open[v] != open0[v]) :: open[v] in multiset(pushed)
  {
  }

  /**
   * The goal was popped: flush the last batch and rebuild the path from the parent chain.
   */
  method Finish(ghost p: Problem, current: SearchEntry, animationLog: seq<seq<Record>>, pathBatch: seq<Record>,
                ghost pops: seq<SearchEntry>)
    returns (outcome: Outcome)
    requires Sound(p, current) && current.id == p.goalId
    requires AllFull(animationLog) && |pathBatch| < BatchSize && Flatten(animationLog) + pathBatch == Trace(pops)
    requires PopOrder(pops) && (forall e | e in pops :: Sound(p, e))
    requires current.parent.Some? ==> current.parent.value in pops
    ensures outcome.Done? && outcome.finalPath == Chain(current)
    ensures IsPath(p.graph, outcome.finalPath, p.startId, p.goalId)
    ensures Batched(outcome.log) && Flatten(outcome.log) == Trace(pops)
    ensures ThroughPopped(outcome.finalPath, pops)
    ensures p.startId != p.goalId ==> |pops| > 0 && pops[0].id == p.startId && pops[0].parent == None
  {
    ChainIsPath(p, current);
    var log := FlushBatch(animationLog, pathBatch);
    var finalPath := ReconstructPath(current);
    outcome := Done(log, finalPath);
    if current.parent.Some? {
      ChainPopped(current.parent.value, pops);
      assert finalPath == Chain(current.parent.value) + [PathPoint(current.id, current.pos)];
    }
    if p.startId != p.goalId {
      assert current.parent.Some?;
      StartPoppedFirst(p, pops);
    }
  }

  /** The first popped entry has no parent, so it is the start entry. */
  lemma StartPoppedFirst(p: Problem, pops: seq<SearchEntry>)
    requires PopOrder(pops) && (forall e | e in pops :: Sound(p, e)) && |pops| > 0
    ensures pops[0].id == p.startId && pops[0].parent == None
  {
    assert pops[..0] == [];
    assert Sound(p, pops[0]);
  }

  /** Every point of `path` but the last is the node and place of a popped entry. */
  ghost predicate ThroughPopped(path: seq<PathPoint>, pops: seq<SearchEntry>) {
    forall i | 0 <= i < |path| - 1 :: exists e | e in pops :: PathPoint(e.id, e.pos) == path[i]
  }

  /**
   * The popped entries, in pop order, each with its parent popped before it. Since an
   * entry is pushed only by its popped parent, the first entry is the start entry.
   */
  ghost predicate PopOrder(pops: seq<SearchEntry>) {
    forall i | 0 <= i < |pops| && pops[i].parent.Some? :: pops[i].parent.value in pops[..i]
  }

  /** Every heap entry was pushed by a popped entry, or is the start entry. */
  ghost predicate ParentsPopped(heap: seq<SearchEntry>, pops: seq<SearchEntry>) {
    forall e | e in heap && e.parent.Some? :: e.parent.value in pops
  }

  /** A popped entry's whole parent chain was popped. */
  lemma {:induction false} ChainPopped(e: SearchEntry, pops: seq<SearchEntry>)
    requires PopOrder(pops) && e in pops
    ensures forall i | 0 <= i < |Chain(e)| :: exists x | x in pops :: PathPoint(x.id, x.pos) == Chain(e)[i]
    decreases e
  {
    var k :| 0 <= k < |pops| && pops[k] == e;
    match e.parent
    case None =>
    case Some(q) =>
      assert q in pops[..k];
      ChainPopped(q, pops);
      assert Chain(e) == Chain(q) + [PathPoint(e.id, e.pos)];
  }

  /** After a non-goal pop, what the neighbour loop needs of the state. */
  lemma PoppedToExpand(p: Problem, heap: seq<SearchEntry>, open: map<NodeId, SearchEntry>,
                       closed: map<NodeId, real>, closed': map<NodeId, real>, e: SearchEntry, stale: bool)
    requires WellFormed(p.graph) && e.id != p.goalId && (stale <==> e.id in closed)
    requires Popped(p, heap, open, closed, closed', e)
    ensures closed'.Keys == closed.Keys + {e.id} && e.id in closed' && e.id in p.graph.table
    ensures Inv(p, heap, open, closed') && AllRelaxed(p, open, closed', {e.id})
    ensures p.graph.table[e.id].adj.Valid()
    ensures stale ==> closed' == closed && Settled(p, open, closed', e.id) && closed'[e.id] <= e.g
    ensures !stale ==> closed'[e.id] == e.g && |closed'| == |closed| + 1
    ensures |closed'| <= |p.graph.table.Keys|
  {
    assert e.id in closed'.Keys;
  }

  /** Popping an entry the heap holds and recording it keeps the parent facts. */
  lemma PopTraced(heap: seq<SearchEntry>, rest: seq<SearchEntry>, pops: seq<SearchEntry>, e: SearchEntry)
    requires PopOrder(pops) && ParentsPopped(heap, pops)
    requires e in heap && multiset(rest) + multiset{e} == multiset(heap)
    ensures e.parent.Some? ==> e.parent.value in pops
    ensures PopOrder(pops + [e]) && ParentsPopped(rest, pops + [e])
  {
    var pops' := pops + [e];
    forall i | 0 <= i < |pops'| && pops'[i].parent.Some? ensures pops'[i].parent.value in pops'[..i] {
      if i < |pops| {
        assert pops'[..i] == pops[..i] && pops'[i] == pops[i];
      } else {
        assert pops'[..i] == pops;
      }
    }
    forall x | x in rest && x.parent.Some? ensures x.parent.value in pops' {
      assert x in multiset(rest) && x in multiset(heap);
    }
  }

  /** Entries pushed by a popped entry keep every heap entry's parent popped. */
  lemma PushTraced(heap: seq<SearchEntry>, heap': seq<SearchEntry>, pops: seq<SearchEntry>, cur: SearchEntry)
    requires ParentsPopped(heap, pops) && cur in pops
    requires multiset(heap) <= multiset(heap')
    requires forall e | e in multiset(heap') - multiset(heap) :: e.parent == Some(cur)
    ensures ParentsPopped(heap', pops)
  {
    forall x | x in heap' && x.parent.Some? ensures x.parent.value in pops {
      if x !in multiset(heap) {
        assert x in multiset(heap') - multiset(heap);
      }
    }
  }

  /** An empty heap leaves no open entry, so the exhausted search proves the goal unreachable. */
  lemma ExhaustedNoPath(p: Problem, open: map<NodeId, SearchEntry>, closed: map<NodeId, real>)
    requires Inv(p, [], open, closed) && AllRelaxed(p, open, closed, {})
    ensures forall path :: !IsPath(p.graph, path, p.startId, p.goalId)
  {
    forall path ensures !IsPath(p.graph, path, p.startId, p.goalId) {
      ExhaustedMeansUnreachable(p, open, closed, path);
    }
  }

  /**
   * `self.onmessage`: the search, posting exactly one outcome. `pops` is the sequence of
   * popped entries that were not the goal, in pop order: each entry's parent was popped
   * before it, the first is the start entry, and every node of the final path but the
   * goal was popped. The log holds one record per popped entry with a parent, in that order.
   */
  method Search(graph: Graph, startId: NodeId, endId: NodeId, mode: Mode, dist: Distance)
    returns (outcome: Outcome, ghost pops: seq<SearchEntry>)
    requires WellFormed(graph)
    ensures outcome == Failed(MissingEndpoint) <==> startId !in graph.table || endId !in graph.table
    ensures outcome.Failed? ==> outcome.error == MissingEndpoint || outcome.error == NoPathFound
    ensures outcome == Failed(NoPathFound) ==>
      forall path :: !IsPath(graph, path, startId, endId)
    ensures outcome.Done? ==> IsPath(graph, outcome.finalPath, startId, endId)
    ensures outcome.Done? ==> Batched(outcome.log)
    ensures outcome.Done? ==>
      Flatten(outcome.log) == Trace(pops) && forall e | e in pops :: Sound(Problem(graph, startId, endId, mode, dist), e)
    ensures forall i | 0 <= i < |pops| && pops[i].parent.Some? :: pops[i].parent.value in pops[..i]
    ensures forall e | e in pops :: e.id != endId
    ensures outcome.Done? && startId != endId ==> |pops| > 0 && pops[0].id == startId && pops[0].parent == None
    ensures outcome.Done? ==>
      forall i | 0 <= i < |outcome.finalPath| - 1 :: exists e | e in pops :: PathPoint(e.id, e.pos) == outcome.finalPath[i]
  {
    pops := [];
    if startId !in graph.table || endId !in graph.table {
      return Failed(MissingEndpoint), pops;
    }
    ghost var p := Problem(graph, startId, endId, mode, dist);
    var startNode := graph.table[startId];
    var endNode := graph.table[endId];

    var openSet := new PriorityQueue<SearchEntry>(FKey);
    var openSetMap: map<NodeId, SearchEntry> := map[];
    var h := Heuristic(mode, dist, startNode.pos, endNode.pos);
    var start := SearchEntry(startId, startNode.pos, 0.0, h, h, None);
    var _ := openSet.Push(start);
    openSetMap := openSetMap[startId := start];

    InitialState(p, start);
    assert openSet.heap == [start] by {
      assert openSet.heap[0] in multiset(openSet.heap);
    }
    outcome, pops := Explore(p, graph, endId, mode, dist, endNode.pos, openSet, openSetMap);
  }

  /** The loop invariant of the search: the search invariant and the log of the popped entries. */
  ghost predicate Searching(p: Problem, heap: seq<SearchEntry>, open: map<NodeId, SearchEntry>, closed: map<NodeId, real>,
                            log: seq<seq<Record>>, batch: seq<Record>, pops: seq<SearchEntry>) {
    && Inv(p, heap, open, closed) && AllRelaxed(p, open, closed, {})
    && AllFull(log) && |batch| < BatchSize
    && Flatten(log) + batch == Trace(pops)
    && (forall e | e in pops :: Sound(p, e))
    && |closed| <= |p.graph.table.Keys|
  }

  /** The loop invariant with the facts about the popped entries. */
  ghost predicate Running(p: Problem, heap: seq<SearchEntry>, open: map<NodeId, SearchEntry>, closed: map<NodeId, real>,
                          log: seq<seq<Record>>, batch: seq<Record>, pops: seq<SearchEntry>) {
    && Searching(p, heap, open, closed, log, batch, pops)
    && PopOrder(pops) && ParentsPopped(heap, pops)
    && (forall e | e in pops :: e.id != p.goalId)
  }

  /**
   * One turn of the `while (!openSet.isEmpty())` loop: pop, then either finish at the goal
   * (`Some` outcome) or close the id, trace the entry and look at its neighbours (`None`).
   * A turn that does not finish closes one more id, or shrinks the heap with the closed
   * ids unchanged.
   */
  method SearchStep(ghost p: Problem, graph: Graph, endId: NodeId, mode: Mode, dist: Distance, endPos: Coord,
                    openSet: PriorityQueue<SearchEntry>, openSetMap: map<NodeId, SearchEntry>, closedSet: set<NodeId>,
                    ghost closed: map<NodeId, real>, animationLog: seq<seq<Record>>, pathBatch: seq<Record>,
                    ghost pops: seq<SearchEntry>)
    returns (outcome: Option<Outcome>, openMap: map<NodeId, SearchEntry>, closedSet': set<NodeId>,
             ghost closed': map<NodeId, real>, log: seq<seq<Record>>, batch: seq<Record>, ghost pops': seq<SearchEntry>,
             ghost popped: SearchEntry)
    requires graph == p.graph && endId == p.goalId && mode == p.mode && dist == p.dist && p.Ok() && endPos == p.GoalPos()
    requires WellFormed(graph)
    requires openSet.Valid() && openSet.key == FKey && openSet.heap != [] && closedSet == closed.Keys
    requires Running(p, openSet.heap, openSetMap, closed, animationLog, pathBatch, pops)
    modifies openSet
    ensures openSet.Valid() && openSet.key == FKey
    ensures popped in old(openSet.heap) && forall x | x in old(openSet.heap) :: popped.f <= x.f
    ensures outcome.Some? <==> popped.id == endId
    ensures outcome.Some? ==> outcome.value.Done? && outcome.value.finalPath == Chain(popped)
    ensures outcome.None? ==> pops' == pops + [popped]
    ensures outcome.Some? ==>
      && pops' == pops && outcome.value.Done?
      && IsPath(graph, outcome.value.finalPath, p.startId, endId)
      && Batched(outcome.value.log) && Flatten(outcome.value.log) == Trace(pops)
      && ThroughPopped(outcome.value.finalPath, pops)
      && (p.startId != endId ==> |pops| > 0 && pops[0].id == p.startId && pops[0].parent == None)
    ensures outcome.None? ==>
      && closedSet' == closed'.Keys
      && Running(p, openSet.heap, openMap, closed', log, batch, pops')
      && (|closed'| > |closed| || (closed' == closed && |openSet.heap| < old(|openSet.heap|)))
  {
    var current;
    ghost var stale;
    ghost var heapBefore := openSet.heap;
    current, openMap, closed', stale := PopNext(p, openSet, openSetMap, closed);
    popped := current;
    PopTraced(heapBefore, openSet.heap, pops, current);
    if current.id == endId {
      var done := Finish(p, current, animationLog, pathBatch, pops);
      return Some(done), openMap, closedSet, closed', animationLog, pathBatch, pops, current;
    }
    openMap, closedSet', log, batch, pops' := CloseAndExpand(p, graph, mode, dist, endPos, openSet, openMap, closedSet,
                                                             closed, closed', current, stale, animationLog, pathBatch, pops);
    outcome := None;
  }

  /**
   * The rest of a turn after a non-goal pop of `current`: `closedSet.add`, the trace record,
   * and the neighbour loop. The stale case changes neither the closed ids nor the heap.
   */
  method CloseAndExpand(ghost p: Problem, graph: Graph, mode: Mode, dist: Distance, endPos: Coord,
                        openSet: PriorityQueue<SearchEntry>, openSetMap: map<NodeId, SearchEntry>, closedSet: set<NodeId>,
                        ghost closed: map<NodeId, real>, ghost closed': map<NodeId, real>, current: SearchEntry, ghost stale: bool,
                        animationLog: seq<seq<Record>>, pathBatch: seq<Record>, ghost pops: seq<SearchEntry>)
    returns (openMap: map<NodeId, SearchEntry>, closedSet': set<NodeId>, log: seq<seq<Record>>, batch: seq<Record>,
             ghost pops': seq<SearchEntry>)
    requires graph == p.graph && mode == p.mode && dist == p.dist && p.Ok() && endPos == p.GoalPos()
    requires WellFormed(graph) && openSet.Valid() && openSet.key == FKey
    requires current.id != p.goalId && (stale <==> current.id in closed) && closedSet == closed.Keys
    requires Popped(p, openSet.heap, openSetMap, closed, closed', current) && Sound(p, current)
    requires AllFull(animationLog) && |pathBatch| < BatchSize && Flatten(animationLog) + pathBatch == Trace(pops)
    requires forall e | e in pops :: Sound(p, e) && e.id != p.goalId
    requires PopOrder(pops + [current]) && ParentsPopped(openSet.heap, pops + [current])
    modifies openSet
    ensures openSet.Valid() && openSet.key == FKey
    ensures closedSet' == closed'.Keys && pops' == pops + [current]
    ensures Running(p, openSet.heap, openMap, closed', log, batch, pops')
    ensures stale ==> openSet.heap == old(openSet.heap)
  {
    closedSet' := closedSet + {current.id};
    PoppedToExpand(p, openSet.heap, openSetMap, closed, closed', current, stale);

    log, batch := AddRecord(animationLog, pathBatch, current);
    TraceStep(animationLog, pathBatch, log, batch, pops, current);
    pops' := pops + [current];

    ghost var heapMid := openSet.heap;
    openMap := ExpandNeighbors(p, graph, mode, dist, endPos, openSet, openSetMap, closedSet', closed', current, stale);
    PushTraced(heapMid, openSet.heap, pops', current);
  }

  /**
   * The `while (!openSet.isEmpty())` loop, from the state after the start entry was pushed:
   * it ends at the goal or, once the heap is empty, with "No path could be found.".
   */
  method Explore(ghost p: Problem, graph: Graph, endId: NodeId, mode: Mode, dist: Distance, endPos: Coord,
                 openSet: PriorityQueue<SearchEntry>, openMap: map<NodeId, SearchEntry>)
    returns (outcome: Outcome, ghost pops: seq<SearchEntry>)
    requires graph == p.graph && endId == p.goalId && mode == p.mode && dist == p.dist && p.Ok() && endPos == p.GoalPos()
    requires WellFormed(graph)
    requires openSet.Valid() && openSet.key == FKey
    requires Inv(p, openSet.heap, openMap, map[]) && AllRelaxed(p, openMap, map[], {})
    requires forall e | e in openSet.heap :: e.parent == None
    modifies openSet
    ensures outcome.Failed? ==> outcome.error == NoPathFound && forall path :: !IsPath(graph, path, p.startId, endId)
    ensures outcome.Done? ==> IsPath(graph, outcome.finalPath, p.startId, endId) && Batched(outcome.log)
    ensures outcome.Done? ==> Flatten(outcome.log) == Trace(pops) && forall e | e in pops :: Sound(p, e)
    ensures forall i | 0 <= i < |pops| && pops[i].parent.Some? :: pops[i].parent.value in pops[..i]
    ensures forall e | e in pops :: e.id != endId
    ensures outcome.Done? && p.startId != endId ==> |pops| > 0 && pops[0].id == p.startId && pops[0].parent == None
    ensures outcome.Done? ==>
      forall i | 0 <= i < |outcome.finalPath| - 1 :: exists e | e in pops :: PathPoint(e.id, e.pos) == outcome.finalPath[i]
  {
    pops := [];
    var openSetMap := openMap;
    var closedSet: set<NodeId> := {};
    ghost var closed: map<NodeId, real> := map[];
    var animationLog: seq<seq<Record>> := [];
    var pathBatch: seq<Record> := [];

    while !openSet.IsEmpty()
      invariant openSet.Valid() && openSet.key == FKey
      invariant closedSet == closed.Keys
      invariant Running(p, openSet.heap, openSetMap, closed, animationLog, pathBatch, pops)
      decreases |graph.table.Keys| - |closed|, |openSet.heap|
    {
      var done;
      ghost var popped;
      done, openSetMap, closedSet, closed, animationLog, pathBatch, pops, popped :=
        SearchStep(p, graph, endId, mode, dist, endPos, openSet, openSetMap, closedSet, closed, animationLog, pathBatch, pops);
      if done.Some? {
        return done.value, pops;
      }
    }
    ExhaustedNoPath(p, openSetMap, closed);
    outcome := Failed(NoPathFound);
  }
}
