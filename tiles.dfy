/**
 * The merge of downloaded tiles: the elements of every tile, tile after tile, with only the
 * first element seen for each key kept, in the order first seen (`mergedElements`, a `Map`,
 * and `Array.from(mergedElements.values())`).
 */
module Tiles {
  import opened OrderedMaps
  import opened RoadGraph

  /** All elements of the tiles, tile after tile. */
  function Flatten(tiles: seq<seq<Element>>): seq<Element> {
    if tiles == [] then [] else Flatten(tiles[..|tiles| - 1]) + tiles[|tiles| - 1]
  }

  /** The keys of the elements of `els`. */
  function KeysOf<K>(els: seq<Element>, key: Element -> K): set<K> {
    set e | e in els :: key(e)
  }

  lemma KeysOfAppend<K>(els: seq<Element>, e: Element, key: Element -> K)
    ensures KeysOf(els + [e], key) == KeysOf(els, key) + {key(e)}
  {
    assert e in els + [e];
    forall x | x in els ensures x in els + [e] {
    }
  }

  /**
   * The merge map after `els`: for each element in turn, `if (!merged.has(key(el)))
   * merged.set(key(el), el)`.
   */
  function Merged<K(==)>(els: seq<Element>, key: Element -> K): (m: OMap<K, Element>)
    ensures m.Valid()
  {
    if els == [] then Empty()
    else
      var m := Merged(els[..|els| - 1], key);
      var e := els[|els| - 1];
      if key(e) in m.table then m else m.Set(key(e), e)
  }

  /** Reference definition: the elements whose key no earlier element has, in their order. */
  function Firsts<K(==)>(els: seq<Element>, key: Element -> K): seq<Element> {
    if els == [] then []
    else
      var init := els[..|els| - 1];
      var e := els[|els| - 1];
      if key(e) in KeysOf(init, key) then Firsts(init, key) else Firsts(init, key) + [e]
  }

  /** The map's keys are the input's keys, and its values in order are the first occurrences. */
  lemma {:induction false} MergedIsFirsts<K>(els: seq<Element>, key: Element -> K)
    ensures Merged(els, key).table.Keys == KeysOf(els, key)
    ensures Merged(els, key).Values() == Firsts(els, key)
  {
    if els != [] {
      var init := els[..|els| - 1];
      var e := els[|els| - 1];
      assert els == init + [e];
      MergedIsFirsts(init, key);
      KeysOfAppend(init, e, key);
      var m := Merged(init, key);
      if key(e) !in m.table {
        m.SetNewValues(key(e), e);
      }
    }
  }

  /**
   * The merge keeps one element per key and loses no key: its keys are exactly the input's,
   * no two of its elements share a key, and each of its elements comes from the input.
   */
  lemma {:induction false} FirstsKeys<K>(els: seq<Element>, key: Element -> K)
    ensures KeysOf(Firsts(els, key), key) == KeysOf(els, key)
    ensures forall i, j | 0 <= i < j < |Firsts(els, key)| :: key(Firsts(els, key)[i]) != key(Firsts(els, key)[j])
    ensures forall y | y in Firsts(els, key) :: y in els
  {
    if els != [] {
      var init := els[..|els| - 1];
      var e := els[|els| - 1];
      assert els == init + [e];
      FirstsKeys(init, key);
      KeysOfAppend(init, e, key);
      var f := Firsts(init, key);
      if key(e) !in KeysOf(init, key) {
        KeysOfAppend(f, e, key);
        var g := f + [e];
        forall i, j | 0 <= i < j < |g| ensures key(g[i]) != key(g[j]) {
          if j == |f| {
            assert g[i] in f;
          } else {
            assert g[i] == f[i] && g[j] == f[j];
          }
        }
      }
    }
  }

  /**
   * The first element with a given key is the one kept: it is in the merge, and every merged
   * element with its key is that element.
   */
  lemma {:induction false} FirstOccurrenceKept<K>(els: seq<Element>, key: Element -> K, i: nat)
    requires i < |els| && key(els[i]) !in KeysOf(els[..i], key)
    ensures els[i] in Firsts(els, key)
    ensures forall y | y in Firsts(els, key) && key(y) == key(els[i]) :: y == els[i]
  {
    FirstInFirsts(els, key, i);
    FirstsKeys(els, key);
    var f := Firsts(els, key);
    forall y | y in f && key(y) == key(els[i]) ensures y == els[i] {
      var a :| 0 <= a < |f| && f[a] == els[i];
      var b :| 0 <= b < |f| && f[b] == y;
      assert a == b;
    }
  }

  lemma {:induction false} FirstInFirsts<K>(els: seq<Element>, key: Element -> K, i: nat)
    requires i < |els| && key(els[i]) !in KeysOf(els[..i], key)
    ensures els[i] in Firsts(els, key)
  {
    var init := els[..|els| - 1];
    if i < |els| - 1 {
      assert init[..i] == els[..i];
      FirstInFirsts(init, key, i);
    }
  }

  /** One step of the inner loop: the map after one more element. */
  lemma MergedStep<K>(done: seq<Element>, tile: seq<Element>, j: nat, key: Element -> K)
    requires j < |tile|
    ensures var m := Merged(done + tile[..j], key);
      Merged(done + tile[..j + 1], key) == if key(tile[j]) in m.table then m else m.Set(key(tile[j]), tile[j])
  {
    assert (done + tile[..j + 1])[..|done + tile[..j + 1]| - 1] == done + tile[..j];
  }

  /**
   * The tile loop of `getRoadNetworkTiled` with the download left out: each tile's elements
   * in turn, an element kept only when no earlier element had its key.
   */
  method MergeTiles<K(==)>(tiles: seq<seq<Element>>, key: Element -> K) returns (elements: seq<Element>)
    ensures elements == Firsts(Flatten(tiles), key)
  {
    var merged: OMap<K, Element> := Empty();
    for i := 0 to |tiles|
      invariant merged == Merged(Flatten(tiles[..i]), key)
    {
      var tile := tiles[i];
      assert tiles[..i + 1][..i] == tiles[..i];
      assert Flatten(tiles[..i]) + tile[..0] == Flatten(tiles[..i]);
      for j := 0 to |tile|
        invariant merged == Merged(Flatten(tiles[..i]) + tile[..j], key)
      {
        MergedStep(Flatten(tiles[..i]), tile, j, key);
        var el := tile[j];
        if key(el) !in merged.table {
          merged := merged.Set(key(el), el);
        }
      }
      assert tile[..|tile|] == tile;
    }
    assert tiles[..|tiles|] == tiles;
    MergedIsFirsts(Flatten(tiles), key);
    elements := merged.Values();
  }

  // ---------------------------------------------------------------------------
  // Keys: the id alone, as written, and the element kind with the id

  function ElementId(e: Element): int {
    e.id
  }

  datatype ElementKind = NodeKind | WayKind | OtherKind

  /** Node, way and relation ids are separate numbering schemes, so a key needs both. */
  function ElementKey(e: Element): (ElementKind, int) {
    match e
    case NodeElement(id, _) => (NodeKind, id)
    case WayElement(id, _, _) => (WayKind, id)
    case OtherElement(id) => (OtherKind, id)
  }

  /** The merge as written: keyed by `el.id` alone. */
  method MergeById(tiles: seq<seq<Element>>) returns (elements: seq<Element>)
    ensures elements == Firsts(Flatten(tiles), ElementId)
    ensures forall i, j | 0 <= i < j < |elements| :: elements[i].id != elements[j].id
  {
    elements := MergeTiles(tiles, ElementId);
    FirstsKeys(Flatten(tiles), ElementId);
  }

  /** A node and a later way that share an id: the id merge keeps the node and loses the way. */
  lemma IdCollisionLosesWay()
    ensures var node := NodeElement(7, Geo.Coord(0.0, 0.0));
      var way := WayElement(7, [7, 8], map[]);
      && Flatten([[node], [way]]) == [node, way]
      && Firsts(Flatten([[node], [way]]), ElementId) == [node]
      && Firsts(Flatten([[node], [way]]), ElementKey) == [node, way]
  {
    var node := NodeElement(7, Geo.Coord(0.0, 0.0));
    var way := WayElement(7, [7, 8], map[]);
    assert Flatten([[node]]) == [node];
    assert Flatten([[node], [way]]) == [node, way];
    assert [node, way][..1] == [node];
    assert [node][..0] == [];
    KeysOfAppend([], node, ElementId);
    KeysOfAppend([], node, ElementKey);
    assert [] + [node] == [node];
    assert Firsts([node], ElementId) == [node];
    assert Firsts([node], ElementKey) == [node];
    assert ElementId(way) in KeysOf([node], ElementId);
    assert ElementKey(way) !in KeysOf([node], ElementKey);
  }

  /** The corrected merge: keyed by element kind and id. */
  method MergeByKindAndId(tiles: seq<seq<Element>>) returns (elements: seq<Element>)
    ensures elements == Firsts(Flatten(tiles), ElementKey)
    ensures KeysOf(elements, ElementKey) == KeysOf(Flatten(tiles), ElementKey)
    ensures forall i, j | 0 <= i < j < |elements| :: ElementKey(elements[i]) != ElementKey(elements[j])
  {
    elements := MergeTiles(tiles, ElementKey);
    FirstsKeys(Flatten(tiles), ElementKey);
  }

  /** Under the corrected key every way of the input keeps a way with its id in the merge. */
  lemma MergeKeepsEveryWay(els: seq<Element>, w: Element)
    requires w in els && w.WayElement?
    ensures exists y | y in Firsts(els, ElementKey) :: y.WayElement? && y.id == w.id
  {
    FirstsKeys(els, ElementKey);
    assert ElementKey(w) in KeysOf(els, ElementKey);
    var y :| y in Firsts(els, ElementKey) && ElementKey(y) == ElementKey(w);
    assert y.WayElement? && y.id == w.id;
  }
}
