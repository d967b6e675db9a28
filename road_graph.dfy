/**
 * The graph builder: a flat list of map elements becomes a directed graph whose nodes
 * keep, in insertion order, an adjacency map from neighbour id to edge cost. Also the
 * fold that totals a found path.
 */
module RoadGraph {
  import opened Wrappers
  import opened Geo
  import opened JsText
  import opened OrderedMaps

  type NodeId = int
  type Tags = map<string, string>

  /** A raw map element. Relations and any other kind are kept but ignored. */
  datatype Element =
    | NodeElement(id: int, pos: Coord)
    | WayElement(id: int, nodes: seq<NodeId>, tags: Tags)
    | OtherElement(id: int)

  /** Seconds and metres for one directed edge. */
  datatype EdgeCost = EdgeCost(time: real, distance: real)

  /**
   * A graph node. The source also stores the id in the node; the builder always
   * files a node under its own id, so the key is the id.
   */
  datatype Node = Node(pos: Coord, adj: OMap<NodeId, EdgeCost>)

  type Graph = OMap<NodeId, Node>

  /** A point of a found path: `{id, lat, lon}`. */
  datatype PathPoint = PathPoint(id: NodeId, pos: Coord)

  ghost predicate WellFormed(g: Graph) {
    g.Valid() && forall id | id in g.table :: g.table[id].adj.Valid()
  }

  /** `h` has the same nodes, in the same order and at the same places, as `g`. */
  ghost predicate SameNodes(g: Graph, h: Graph) {
    && g.keys == h.keys
    && g.table.Keys == h.table.Keys
    && forall id | id in g.table :: g.table[id].pos == h.table[id].pos
  }

  // ---------------------------------------------------------------------------
  // Speeds, direction and congestion

  /** The default speed of each road class, in km/h. */
  const DefaultSpeedsKmh: map<string, real> := map[
    "motorway" := 110.0, "trunk" := 90.0, "primary" := 80.0, "secondary" := 70.0,
    "tertiary" := 50.0, "unclassified" := 40.0, "residential" := 30.0,
    "motorway_link" := 60.0, "trunk_link" := 50.0, "primary_link" := 40.0,
    "secondary_link" := 40.0, "tertiary_link" := 30.0, "living_street" := 10.0,
    "service" := 10.0, "default" := 40.0]

  /** The largest entry of the table. */
  const MaxSpeedKmh: real := 110.0

  /** `MAX_SPEED_KMH * 1000 / 3600`, the bound the A* worker receives. */
  const MaxSpeedMs: real := MaxSpeedKmh * 1000.0 / 3600.0

  lemma MaxSpeedIsTableMaximum()
    ensures forall k | k in DefaultSpeedsKmh :: DefaultSpeedsKmh[k] <= MaxSpeedKmh
    ensures DefaultSpeedsKmh["motorway"] == MaxSpeedKmh
    ensures MaxSpeedMs == 275.0 / 9.0
  {
  }

  /** A tag's value when it is present and not empty (a truthy JavaScript string). */
  function Truthy(tags: Tags, name: string): Option<string> {
    if name in tags && tags[name] != "" then Some(tags[name]) else None
  }

  /** `way.tags.highway || 'default'`. */
  function RoadType(tags: Tags): string {
    match Truthy(tags, "highway")
    case Some(h) => h
    case None => "default"
  }

  /** `DEFAULT_SPEEDS_KMH[roadType] || DEFAULT_SPEEDS_KMH.default`. */
  function TableSpeedKmh(roadType: string): (r: real)
    ensures r > 0.0
    ensures roadType in DefaultSpeedsKmh ==> r == DefaultSpeedsKmh[roadType]
    ensures roadType !in DefaultSpeedsKmh ==> r == 40.0
  {
    if roadType in DefaultSpeedsKmh then DefaultSpeedsKmh[roadType] else DefaultSpeedsKmh["default"]
  }

  /**
   * The `maxspeed` override as the source computes it: the first digit run of the tag,
   * multiplied by 1.60934 when the tag mentions "mph". A run of zeros gives 0.
   */
  function MaxspeedOverride(tags: Tags): (r: Option<real>)
    ensures r.Some? ==> r.value >= 0.0
  {
    match Truthy(tags, "maxspeed")
    case None => None
    case Some(text) =>
      match FirstDigitRun(text)
      case None => None
      case Some(n) => Some(if Includes(text, "mph") then n as real * 1.60934 else n as real)
  }

  /** The speed exactly as written in the source, which can be 0 (see `SpeedKmh`). */
  function SpeedKmhAsWritten(tags: Tags): real {
    match MaxspeedOverride(tags)
    case Some(v) => v
    case None => TableSpeedKmh(RoadType(tags))
  }

  /**
   * The speed the model uses: the `maxspeed` override when it is positive, the table
   * speed otherwise. It differs from `SpeedKmhAsWritten` only when the override is 0, which
   * in the source gives edge times of Infinity or NaN, values a real cannot hold.
   */
  function SpeedKmh(tags: Tags): (r: real)
    ensures r > 0.0
    ensures r == SpeedKmhAsWritten(tags) || SpeedKmhAsWritten(tags) == 0.0
  {
    match MaxspeedOverride(tags)
    case Some(v) => if v > 0.0 then v else TableSpeedKmh(RoadType(tags))
    case None => TableSpeedKmh(RoadType(tags))
  }

  datatype Direction = Forward | Backward | Both

  /**
   * `oneway=-1` reverses the way; `oneway` yes/1, a roundabout, or a motorway class not
   * tagged `oneway=no` makes it one-way forward; anything else is two-way.
   */
  function DirectionOf(tags: Tags): (d: Direction)
    ensures d == Backward <==> "oneway" in tags && tags["oneway"] == "-1"
    ensures d != Both ==>
      || ("oneway" in tags && tags["oneway"] in {"yes", "1", "-1"})
      || ("junction" in tags && tags["junction"] == "roundabout")
      || ("highway" in tags && Includes(tags["highway"], "motorway"))
  {
    var oneway := if "oneway" in tags then Some(tags["oneway"]) else None;
    var isOneWay := oneway == Some("yes") || oneway == Some("1");
    var isReversed := oneway == Some("-1");
    var isImplicitlyOneWay :=
      ("junction" in tags && tags["junction"] == "roundabout") ||
      (match Truthy(tags, "highway")
       case Some(h) => Includes(h, "motorway") && oneway != Some("no")
       case None => false);
    if isReversed then Backward
    else if isOneWay || isImplicitlyOneWay then Forward
    else Both
  }

  /**
   * The lanes multiplier: 1 lane 1.15, 2 lanes 1.05, 4 or more 0.9, any other number 1.0;
   * without a readable `lanes` tag, 0.9 on motorway and motorway_link and 1.0 elsewhere.
   */
  function CongestionFactor(tags: Tags): (r: real)
    ensures r in {0.9, 1.0, 1.05, 1.15}
    ensures 0.9 <= r <= 1.15
  {
    var lanes := if "lanes" in tags then ParseInt(tags["lanes"]) else None;
    match lanes
    case Some(n) => if n == 1 then 1.15 else if n == 2 then 1.05 else if n >= 4 then 0.9 else 1.0
    case None =>
      var roadType := RoadType(tags);
      if roadType == "motorway" || roadType == "motorway_link" then 0.9 else 1.0
  }

  /** What a way contributes to each of its segments. */
  datatype WayPlan = WayPlan(speedKmh: real, direction: Direction, factor: real)

  function PlanOf(tags: Tags): (p: WayPlan)
    ensures p.speedKmh > 0.0
  {
    WayPlan(SpeedKmh(tags), DirectionOf(tags), CongestionFactor(tags))
  }

  /** The cost of a segment of `distance` metres: travel time at the way's speed, scaled. */
  function SegmentCost(distance: real, plan: WayPlan): (c: EdgeCost)
    requires plan.speedKmh > 0.0
    ensures c.distance == distance
  {
    var speedMs := plan.speedKmh * 1000.0 / 3600.0;
    EdgeCost((distance / speedMs) * plan.factor, distance)
  }

  /** The time of a segment, travelled at the way's speed in m/s, is its distance scaled by the factor. */
  lemma SegmentTime(distance: real, plan: WayPlan)
    requires plan.speedKmh > 0.0
    ensures SegmentCost(distance, plan).time * (plan.speedKmh * 1000.0 / 3600.0) == distance * plan.factor
  {
  }

  // ---------------------------------------------------------------------------
  // Building, as functions of the element list

  /** The node table after the first pass: every node element, adjacency empty. */
  function AddNodes(els: seq<Element>): (g: Graph)
    ensures WellFormed(g)
    ensures forall id | id in g.table :: g.table[id].adj == Empty()
  {
    if els == [] then Empty()
    else
      var g := AddNodes(els[..|els| - 1]);
      match els[|els| - 1]
      case NodeElement(id, pos) => g.Set(id, Node(pos, Empty()))
      case _ => g
  }

  /** `nodes.get(from).adj.set(to, c)`. */
  function PutEdge(g: Graph, from: NodeId, to: NodeId, c: EdgeCost): (r: Graph)
    requires WellFormed(g) && from in g.table
    ensures WellFormed(r) && SameNodes(g, r)
    ensures r.table[from].adj.Get(to) == Some(c)
    ensures forall v | v != to :: r.table[from].adj.Get(v) == g.table[from].adj.Get(v)
    ensures forall id | id in g.table && id != from :: r.table[id] == g.table[id]
  {
    var n := g.table[from];
    var adj := n.adj.Set(to, c);
    var r := g.Set(from, Node(n.pos, adj));
    assert r.table == g.table[from := Node(n.pos, adj)];
    assert r.keys == g.keys;
    r
  }

  /**
   * One segment A-B of a way: nothing when an endpoint is not a node; otherwise the
   * edges the way's direction allows, both carrying the same cost for a two-way road.
   */
  function PutSegment(g: Graph, plan: WayPlan, a: NodeId, b: NodeId, dist: Distance): (r: Graph)
    requires WellFormed(g) && plan.speedKmh > 0.0
    ensures WellFormed(r) && SameNodes(g, r)
    ensures a !in g.table || b !in g.table ==> r == g
    ensures forall id | id in g.table && id != a && id != b :: r.table[id] == g.table[id]
    ensures a in g.table && b in g.table ==>
      var c := SegmentCost(dist(g.table[a].pos, g.table[b].pos), plan);
      match plan.direction
      case Forward => r.table[a].adj.Get(b) == Some(c) && (b != a ==> r.table[b] == g.table[b])
      case Backward => r.table[b].adj.Get(a) == Some(c) && (b != a ==> r.table[a] == g.table[a])
      case Both => r.table[a].adj.Get(b) == Some(c) && r.table[b].adj.Get(a) == Some(c)
  {
    if a in g.table && b in g.table then
      var c := SegmentCost(dist(g.table[a].pos, g.table[b].pos), plan);
      match plan.direction
      case Backward => PutEdge(g, b, a, c)
      case Forward => PutEdge(g, a, b, c)
      case Both =>
        var g1 := PutEdge(g, a, b, c);
        var r := PutEdge(g1, b, a, c);
        assert r.table[a].adj.Get(b) == Some(c) by {
          if a == b {
          } else {
            assert r.table[a] == g1.table[a];
          }
        }
        r
    else g
  }

  /** Every segment of a way, applied in the order of its node list. */
  function PutSegments(g: Graph, plan: WayPlan, nodes: seq<NodeId>, dist: Distance): (r: Graph)
    requires WellFormed(g) && plan.speedKmh > 0.0
    ensures WellFormed(r) && SameNodes(g, r)
  {
    if |nodes| < 2 then g
    else
      var r := PutSegments(g, plan, nodes[..|nodes| - 1], dist);
      PutSegment(r, plan, nodes[|nodes| - 2], nodes[|nodes| - 1], dist)
  }

  /** The ways among the first elements, each applied in order. */
  function PutWays(g: Graph, els: seq<Element>, dist: Distance): (r: Graph)
    requires WellFormed(g)
    ensures WellFormed(r) && SameNodes(g, r)
  {
    if els == [] then g
    else
      var r := PutWays(g, els[..|els| - 1], dist);
      var e := els[|els| - 1];
      if e.WayElement? then PutSegments(r, PlanOf(e.tags), e.nodes, dist)
      else r
  }

  /** The graph the builder returns for an element list. */
  function GraphOf(els: seq<Element>, dist: Distance): (g: Graph)
    ensures WellFormed(g)
  {
    PutWays(AddNodes(els), els, dist)
  }

  lemma PutWaysStep(g: Graph, els: seq<Element>, e: Element, dist: Distance)
    requires WellFormed(g)
    ensures PutWays(g, els + [e], dist) ==
      if e.WayElement? then
        PutSegments(PutWays(g, els, dist), PlanOf(e.tags), e.nodes, dist)
      else PutWays(g, els, dist)
  {
    assert (els + [e])[..|els|] == els;
  }

  // ---------------------------------------------------------------------------
  // The builder

  /** One way's loop over its consecutive node pairs. */
  method AddWay(g: Graph, plan: WayPlan, wayNodes: seq<NodeId>, dist: Distance) returns (nodes: Graph)
    requires WellFormed(g) && plan.speedKmh > 0.0
    ensures nodes == PutSegments(g, plan, wayNodes, dist)
  {
    nodes := g;
    if |wayNodes| == 0 {
      return;
    }
    for i := 0 to |wayNodes| - 1
      invariant nodes == PutSegments(g, plan, wayNodes[..i + 1], dist)
    {
      assert wayNodes[..i + 2][..i + 1] == wayNodes[..i + 1];
      nodes := PutSegment(nodes, plan, wayNodes[i], wayNodes[i + 1], dist);
    }
    assert wayNodes[..|wayNodes|] == wayNodes;
  }

  /** `buildGraph`: node elements first, then each way's consecutive node pairs. */
  method BuildGraph(elements: seq<Element>, dist: Distance) returns (nodes: Graph)
    ensures WellFormed(nodes)
    ensures nodes == GraphOf(elements, dist)
  {
    nodes := Empty();
    for k := 0 to |elements|
      invariant nodes == AddNodes(elements[..k])
    {
      assert elements[..k + 1][..k] == elements[..k];
      match elements[k]
      case NodeElement(id, pos) => nodes := nodes.Set(id, Node(pos, Empty()));
      case _ =>
    }
    assert elements[..|elements|] == elements;
    ghost var start := nodes;
    for k := 0 to |elements|
      invariant nodes == PutWays(start, elements[..k], dist)
    {
      assert elements[..k + 1] == elements[..k] + [elements[k]];
      match elements[k]
      case WayElement(_, wayNodes, tags) =>
        nodes := AddWay(nodes, PlanOf(tags), wayNodes, dist);
        PutWaysStep(start, elements[..k], elements[k], dist);
      case _ =>
        PutWaysStep(start, elements[..k], elements[k], dist);
    }
    assert elements[..|elements|] == elements;
  }

  // ---------------------------------------------------------------------------
  // Tags decide speed, direction and congestion

  /** A `maxspeed` such as "60 mph" is read as its number of miles per hour in km/h. */
  lemma MaxspeedInMph(tags: Tags, p: string, n: nat, q: string)
    requires HasNoDigit(p) && (q == [] || !IsDigit(q[0])) && n > 0
    requires "maxspeed" in tags && tags["maxspeed"] == p + Decimal(n) + q
    requires Includes(tags["maxspeed"], "mph")
    ensures SpeedKmh(tags) == n as real * 1.60934
  {
    FirstDigitRunFinds(p, n, q);
  }

  /** A `maxspeed` without "mph", such as "50" or "50;70", is read as km/h. */
  lemma MaxspeedInKmh(tags: Tags, p: string, n: nat, q: string)
    requires HasNoDigit(p) && (q == [] || !IsDigit(q[0])) && n > 0
    requires "maxspeed" in tags && tags["maxspeed"] == p + Decimal(n) + q
    requires !Includes(tags["maxspeed"], "mph")
    ensures SpeedKmh(tags) == n as real
  {
    FirstDigitRunFinds(p, n, q);
  }

  /** Without a readable `maxspeed` the road class decides, and an unknown class is 40 km/h. */
  lemma {:induction false} SpeedFromTable(tags: Tags)
    requires "maxspeed" !in tags || HasNoDigit(tags["maxspeed"])
    ensures SpeedKmh(tags) == TableSpeedKmh(RoadType(tags))
    ensures RoadType(tags) !in DefaultSpeedsKmh ==> SpeedKmh(tags) == 40.0
  {
    if "maxspeed" in tags {
      FirstDigitRunNone(tags["maxspeed"]);
    }
  }

  /** A `maxspeed` of "0" makes the source's speed 0, a division by zero downstream. */
  lemma ZeroMaxspeedAsWritten()
    ensures SpeedKmhAsWritten(map["maxspeed" := "0"]) == 0.0
    ensures SpeedKmh(map["maxspeed" := "0"]) == 40.0
  {
    var tags := map["maxspeed" := "0"];
    assert tags["maxspeed"] == [] + Decimal(0) + [];
    FirstDigitRunFinds([], 0, []);
  }

  /** A readable lane count sets the factor: 1.15, 1.05, 1.0 for three lanes, 0.9 from four. */
  lemma LanesFactor(tags: Tags, n: nat)
    requires "lanes" in tags && tags["lanes"] == Decimal(n)
    ensures CongestionFactor(tags) ==
      if n == 1 then 1.15 else if n == 2 then 1.05 else if n >= 4 then 0.9 else 1.0
  {
    assert Decimal(n) + [] == Decimal(n);
    ParseIntReads(n, []);
  }

  /** A motorway with no lane count is 0.9, whatever its `maxspeed`. */
  lemma MotorwayWithoutLanes(tags: Tags)
    requires "lanes" !in tags
    requires "highway" in tags && tags["highway"] in {"motorway", "motorway_link"}
    ensures CongestionFactor(tags) == 0.9
  {
  }

  /** `oneway=-1` reverses a way even on a motorway. */
  lemma ReversedMotorway(tags: Tags)
    requires "oneway" in tags && tags["oneway"] == "-1"
    ensures DirectionOf(tags) == Backward
  {
  }

  /**
   * A class naming a motorway anywhere in it (`motorway`, `motorway_link`, `no_motorway`)
   * is one-way forward unless tagged `oneway=no` or `oneway=-1`.
   */
  lemma MotorwayIsOneWay(tags: Tags)
    requires "highway" in tags && Includes(tags["highway"], "motorway")
    requires "oneway" !in tags || tags["oneway"] !in {"-1", "no"}
    ensures DirectionOf(tags) == Forward
  {
    assert tags["highway"] != "";
  }

  /** `oneway` of yes or 1 makes a way one-way forward, whatever its class. */
  lemma OneWayTagIsForward(tags: Tags)
    requires "oneway" in tags && tags["oneway"] in {"yes", "1"}
    ensures DirectionOf(tags) == Forward
  {
  }

  /** A roundabout is one-way forward unless tagged `oneway=-1`. */
  lemma RoundaboutIsForward(tags: Tags)
    requires "junction" in tags && tags["junction"] == "roundabout"
    requires "oneway" !in tags || tags["oneway"] != "-1"
    ensures DirectionOf(tags) == Forward
  {
  }

  /**
   * A way with none of the one-way markers is two-way: no `oneway` of yes, 1 or -1, not a
   * roundabout, and either no motorway class or an explicit `oneway=no`.
   */
  lemma PlainWayIsTwoWay(tags: Tags)
    requires "oneway" !in tags || tags["oneway"] !in {"yes", "1", "-1"}
    requires "junction" !in tags || tags["junction"] != "roundabout"
    requires "highway" !in tags || !Includes(tags["highway"], "motorway") || ("oneway" in tags && tags["oneway"] == "no")
    ensures DirectionOf(tags) == Both
  {
  }

  // ---------------------------------------------------------------------------
  // Which edges the builder writes, and which write survives

  /** One `adj.set(to, cost)` on node `from`. */
  datatype Write = Write(from: NodeId, to: NodeId, cost: EdgeCost)

  /** The writes of one segment, in the order the builder performs them. */
  function SegmentWrites(g: Graph, plan: WayPlan, a: NodeId, b: NodeId, dist: Distance): seq<Write>
    requires plan.speedKmh > 0.0
  {
    if a in g.table && b in g.table then
      var c := SegmentCost(dist(g.table[a].pos, g.table[b].pos), plan);
      match plan.direction
      case Backward => [Write(b, a, c)]
      case Forward => [Write(a, b, c)]
      case Both => [Write(a, b, c), Write(b, a, c)]
    else []
  }

  /** The writes of the segments of a way's node list. */
  function WayWrites(g: Graph, plan: WayPlan, nodes: seq<NodeId>, dist: Distance): seq<Write>
    requires plan.speedKmh > 0.0
  {
    if |nodes| < 2 then []
    else WayWrites(g, plan, nodes[..|nodes| - 1], dist) + SegmentWrites(g, plan, nodes[|nodes| - 2], nodes[|nodes| - 1], dist)
  }

  /** Every write the builder performs for an element list, in order. */
  function AllWrites(g: Graph, els: seq<Element>, dist: Distance): seq<Write> {
    if els == [] then []
    else
      var e := els[|els| - 1];
      AllWrites(g, els[..|els| - 1], dist) +
        (if e.WayElement? then WayWrites(g, PlanOf(e.tags), e.nodes, dist) else [])
  }

  /** The cost of the last write of the ordered pair `from`, `to`, if there is one. */
  function LastWrite(ws: seq<Write>, from: NodeId, to: NodeId): Option<EdgeCost> {
    if ws == [] then None
    else if ws[|ws| - 1].from == from && ws[|ws| - 1].to == to then Some(ws[|ws| - 1].cost)
    else LastWrite(ws[..|ws| - 1], from, to)
  }

  /** An adjacency entry that held `prior` after the writes `ws`. */
  function After(prior: Option<EdgeCost>, ws: seq<Write>, from: NodeId, to: NodeId): Option<EdgeCost> {
    if LastWrite(ws, from, to).Some? then LastWrite(ws, from, to) else prior
  }

  lemma {:induction false} LastWriteAppend(ws: seq<Write>, vs: seq<Write>, from: NodeId, to: NodeId)
    ensures LastWrite(ws + vs, from, to) == After(LastWrite(ws, from, to), vs, from, to)
  {
    if vs != [] {
      assert (ws + vs)[..|ws + vs| - 1] == ws + vs[..|vs| - 1];
      LastWriteAppend(ws, vs[..|vs| - 1], from, to);
    } else {
      assert ws + vs == ws;
    }
  }

  lemma AfterAppend(prior: Option<EdgeCost>, ws: seq<Write>, vs: seq<Write>, from: NodeId, to: NodeId)
    ensures After(After(prior, ws, from, to), vs, from, to) == After(prior, ws + vs, from, to)
  {
    LastWriteAppend(ws, vs, from, to);
  }

  /** A write found by `LastWrite` is one of the writes. */
  lemma {:induction false} LastWriteIsAWrite(ws: seq<Write>, from: NodeId, to: NodeId)
    requires LastWrite(ws, from, to).Some?
    ensures Write(from, to, LastWrite(ws, from, to).value) in ws
  {
    var last := ws[|ws| - 1];
    if !(last.from == from && last.to == to) {
      LastWriteIsAWrite(ws[..|ws| - 1], from, to);
    }
  }

  lemma SegmentWritesSameNodes(g: Graph, h: Graph, plan: WayPlan, a: NodeId, b: NodeId, dist: Distance)
    requires SameNodes(g, h) && plan.speedKmh > 0.0
    ensures SegmentWrites(g, plan, a, b, dist) == SegmentWrites(h, plan, a, b, dist)
  {
  }

  lemma PutEdgeGet(g: Graph, from: NodeId, to: NodeId, c: EdgeCost, x: NodeId, y: NodeId)
    requires WellFormed(g) && from in g.table && x in g.table
    ensures PutEdge(g, from, to, c).table[x].adj.Get(y) ==
      if x == from && y == to then Some(c) else g.table[x].adj.Get(y)
  {
    var r := PutEdge(g, from, to, c);
    if x != from {
      assert r.table[x] == g.table[x];
    }
  }

  lemma LastWriteOne(w: Write, x: NodeId, y: NodeId)
    ensures LastWrite([w], x, y) == if w.from == x && w.to == y then Some(w.cost) else None
  {
    assert [w][..0] == [];
  }

  lemma LastWriteTwo(w1: Write, w2: Write, x: NodeId, y: NodeId)
    ensures LastWrite([w1, w2], x, y) ==
      if w2.from == x && w2.to == y then Some(w2.cost)
      else if w1.from == x && w1.to == y then Some(w1.cost)
      else None
  {
    assert [w1, w2][..1] == [w1];
    LastWriteOne(w1, x, y);
  }

  /** One segment changes an adjacency entry exactly as its writes say. */
  lemma PutSegmentGet(g: Graph, plan: WayPlan, a: NodeId, b: NodeId, dist: Distance, x: NodeId, y: NodeId)
    requires WellFormed(g) && plan.speedKmh > 0.0 && x in g.table
    ensures PutSegment(g, plan, a, b, dist).table[x].adj.Get(y) ==
      After(g.table[x].adj.Get(y), SegmentWrites(g, plan, a, b, dist), x, y)
  {
    if a in g.table && b in g.table {
      var c := SegmentCost(dist(g.table[a].pos, g.table[b].pos), plan);
      match plan.direction
      case Forward =>
        PutEdgeGet(g, a, b, c, x, y);
        LastWriteOne(Write(a, b, c), x, y);
      case Backward =>
        PutEdgeGet(g, b, a, c, x, y);
        LastWriteOne(Write(b, a, c), x, y);
      case Both =>
        var g1 := PutEdge(g, a, b, c);
        PutEdgeGet(g, a, b, c, x, y);
        PutEdgeGet(g1, b, a, c, x, y);
        LastWriteTwo(Write(a, b, c), Write(b, a, c), x, y);
    }
  }

  lemma {:induction false} PutSegmentsGet(g: Graph, plan: WayPlan, nodes: seq<NodeId>, dist: Distance, x: NodeId, y: NodeId)
    requires WellFormed(g) && plan.speedKmh > 0.0 && x in g.table
    ensures PutSegments(g, plan, nodes, dist).table[x].adj.Get(y) ==
      After(g.table[x].adj.Get(y), WayWrites(g, plan, nodes, dist), x, y)
  {
    if |nodes| < 2 {
      assert LastWrite([], x, y) == None;
    } else {
      var init := nodes[..|nodes| - 1];
      PutSegmentsGet(g, plan, init, dist, x, y);
      var r := PutSegments(g, plan, init, dist);
      var seg := SegmentWrites(g, plan, nodes[|nodes| - 2], nodes[|nodes| - 1], dist);
      PutSegmentGet(r, plan, nodes[|nodes| - 2], nodes[|nodes| - 1], dist, x, y);
      SegmentWritesSameNodes(g, r, plan, nodes[|nodes| - 2], nodes[|nodes| - 1], dist);
      AfterAppend(g.table[x].adj.Get(y), WayWrites(g, plan, init, dist), seg, x, y);
    }
  }

  lemma {:induction false} PutWaysGet(g: Graph, els: seq<Element>, dist: Distance, x: NodeId, y: NodeId)
    requires WellFormed(g) && x in g.table
    ensures PutWays(g, els, dist).table[x].adj.Get(y) == After(g.table[x].adj.Get(y), AllWrites(g, els, dist), x, y)
  {
    if els != [] {
      var init := els[..|els| - 1];
      var e := els[|els| - 1];
      var r := PutWays(g, init, dist);
      PutWaysGet(g, init, dist, x, y);
      if e.WayElement? {
        var plan := PlanOf(e.tags);
        PutSegmentsGet(r, plan, e.nodes, dist, x, y);
        WayWritesSameNodes(g, r, plan, e.nodes, dist);
        AfterAppend(g.table[x].adj.Get(y), AllWrites(g, init, dist), WayWrites(g, plan, e.nodes, dist), x, y);
      } else {
        assert PutWays(g, els, dist) == r;
        assert AllWrites(g, els, dist) == AllWrites(g, init, dist) + [];
        assert AllWrites(g, init, dist) + [] == AllWrites(g, init, dist);
      }
    }
  }

  lemma {:induction false} WayWritesSameNodes(g: Graph, h: Graph, plan: WayPlan, nodes: seq<NodeId>, dist: Distance)
    requires SameNodes(g, h) && plan.speedKmh > 0.0
    ensures WayWrites(g, plan, nodes, dist) == WayWrites(h, plan, nodes, dist)
  {
    if |nodes| >= 2 {
      WayWritesSameNodes(g, h, plan, nodes[..|nodes| - 1], dist);
      SegmentWritesSameNodes(g, h, plan, nodes[|nodes| - 2], nodes[|nodes| - 1], dist);
    }
  }

  /**
   * Last way wins: in the built graph, the edge `x`→`y` carries the cost of the last
   * write of that pair over all ways in element order, and is absent if none wrote it.
   */
  lemma GraphEdgesAreLastWrites(els: seq<Element>, dist: Distance, x: NodeId, y: NodeId)
    requires x in GraphOf(els, dist).table
    ensures GraphOf(els, dist).table[x].adj.Get(y) == LastWrite(AllWrites(AddNodes(els), els, dist), x, y)
  {
    PutWaysGet(AddNodes(els), els, dist, x, y);
  }

  lemma {:induction false} WayWritesBetweenNodes(g: Graph, plan: WayPlan, nodes: seq<NodeId>, dist: Distance)
    requires plan.speedKmh > 0.0
    ensures forall w | w in WayWrites(g, plan, nodes, dist) :: w.from in g.table && w.to in g.table
  {
    if |nodes| >= 2 {
      WayWritesBetweenNodes(g, plan, nodes[..|nodes| - 1], dist);
    }
  }

  lemma {:induction false} AllWritesBetweenNodes(g: Graph, els: seq<Element>, dist: Distance)
    ensures forall w | w in AllWrites(g, els, dist) :: w.from in g.table && w.to in g.table
  {
    if els != [] {
      AllWritesBetweenNodes(g, els[..|els| - 1], dist);
      var e := els[|els| - 1];
      if e.WayElement? {
        WayWritesBetweenNodes(g, PlanOf(e.tags), e.nodes, dist);
      }
    }
  }

  /** Every edge of the built graph leads to a node of the graph. */
  lemma EdgeTargetsAreNodes(els: seq<Element>, dist: Distance, x: NodeId, y: NodeId)
    requires x in GraphOf(els, dist).table && y in GraphOf(els, dist).table[x].adj.table
    ensures y in GraphOf(els, dist).table
  {
    var g := GraphOf(els, dist);
    var base := AddNodes(els);
    GraphEdgesAreLastWrites(els, dist, x, y);
    var ws := AllWrites(base, els, dist);
    LastWriteIsAWrite(ws, x, y);
    AllWritesBetweenNodes(base, els, dist);
  }

  /** The graph's keys are exactly the ids of the node elements. */
  lemma {:induction false} AddNodesIds(els: seq<Element>, id: NodeId)
    ensures id in AddNodes(els).table <==> exists i :: 0 <= i < |els| && els[i].NodeElement? && els[i].id == id
  {
    if els != [] {
      var init := els[..|els| - 1];
      AddNodesIds(init, id);
      if id in AddNodes(init).table {
        var i :| 0 <= i < |init| && init[i].NodeElement? && init[i].id == id;
        assert els[i] == init[i];
      }
      if exists i :: 0 <= i < |els| && els[i].NodeElement? && els[i].id == id {
        var i :| 0 <= i < |els| && els[i].NodeElement? && els[i].id == id;
        if i < |init| {
          assert init[i] == els[i];
        }
      }
    }
  }

  lemma GraphNodeIds(els: seq<Element>, dist: Distance, id: NodeId)
    ensures id in GraphOf(els, dist).table <==>
      exists i :: 0 <= i < |els| && els[i].NodeElement? && els[i].id == id
    ensures id in GraphOf(els, dist).table ==> id in GraphOf(els, dist).keys
  {
    AddNodesIds(els, id);
    GraphOf(els, dist).KeysInTable();
  }

  // ---------------------------------------------------------------------------
  // Totals of a found path

  /** The cost of one step of a path: the edge when the graph has it, nothing otherwise. */
  function StepCost(graph: Graph, from: PathPoint, to: PathPoint): EdgeCost {
    if from.id in graph.table && to.id in graph.table[from.id].adj.table then graph.table[from.id].adj.table[to.id]
    else EdgeCost(0.0, 0.0)
  }

  /** Distance and time summed over the consecutive pairs of a path. */
  function PathCost(graph: Graph, path: seq<PathPoint>): EdgeCost {
    if |path| < 2 then EdgeCost(0.0, 0.0)
    else
      var rest := PathCost(graph, path[..|path| - 1]);
      var step := StepCost(graph, path[|path| - 2], path[|path| - 1]);
      EdgeCost(rest.time + step.time, rest.distance + step.distance)
  }

  /** The totals `drawFinalPath` reports: a loop over the consecutive pairs of the path. */
  method PathTotals(graph: Graph, pathNodes: seq<PathPoint>) returns (totalDistance: real, totalTime: real)
    ensures totalDistance == PathCost(graph, pathNodes).distance
    ensures totalTime == PathCost(graph, pathNodes).time
  {
    totalDistance, totalTime := 0.0, 0.0;
    if |pathNodes| < 2 {
      return;
    }
    for i := 0 to |pathNodes| - 1
      invariant totalDistance == PathCost(graph, pathNodes[..i + 1]).distance
      invariant totalTime == PathCost(graph, pathNodes[..i + 1]).time
    {
      var from, to := pathNodes[i], pathNodes[i + 1];
      assert pathNodes[..i + 2][..i + 1] == pathNodes[..i + 1];
      if from.id in graph.table {
        var fromNode := graph.table[from.id];
        match fromNode.adj.Get(to.id)
        case Some(edge) =>
          totalDistance := totalDistance + edge.distance;
          totalTime := totalTime + edge.time;
        case None =>
      }
    }
    assert pathNodes[..|pathNodes|] == pathNodes;
  }

  /** Appending a step that the graph has adds exactly that edge's cost. */
  lemma PathCostStep(graph: Graph, path: seq<PathPoint>, v: PathPoint)
    requires |path| > 0
    requires path[|path| - 1].id in graph.table && v.id in graph.table[path[|path| - 1].id].adj.table
    ensures PathCost(graph, path + [v]).distance ==
      PathCost(graph, path).distance + graph.table[path[|path| - 1].id].adj.table[v.id].distance
    ensures PathCost(graph, path + [v]).time ==
      PathCost(graph, path).time + graph.table[path[|path| - 1].id].adj.table[v.id].time
  {
    assert (path + [v])[..|path|] == path;
  }
}
