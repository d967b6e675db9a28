/**
 * The cache manager: two insertion-ordered stores, one for geocoded addresses and one
 * for downloaded map data. Entries carry the time they were written (milliseconds, the
 * caller's clock passed as `now`), expire after a fixed age, and each store is cut back
 * to a fixed number of entries, oldest first, after every write.
 */
module Cache {
  import opened Wrappers
  import opened Geo
  import opened OrderedMaps
  import opened JsText
  import opened RoadGraph

  /** Seven days and three days, in milliseconds. */
  const GeocodingExpiry: int := 7 * 24 * 60 * 60 * 1000
  const MapDataExpiry: int := 3 * 24 * 60 * 60 * 1000

  const MaxGeocodingEntries: nat := 100
  const MaxMapDataEntries: nat := 20

  /**
   * A stored value with its write time. Map-data entries also keep the box they were
   * downloaded for, and a route entry is marked as such; geocoding entries have neither.
   */
  datatype Entry<D> = Entry(data: D, timestamp: int, bounds: Option<Box>, routeKey: bool)

  /** The downloaded road data, `{elements: [...]}`. */
  datatype MapData = MapData(elements: seq<Element>)

  // ---------------------------------------------------------------------------
  // Keys

  /** No ASCII capital letter occurs in `s`. */
  predicate NoUpper(s: string) {
    forall i | 0 <= i < |s| :: !('A' <= s[i] <= 'Z')
  }

  lemma LowerHasNoUpper(s: string)
    ensures NoUpper(ToLower(s))
  {
    var r := ToLower(s);
    forall i | 0 <= i < |r| ensures !('A' <= r[i] <= 'Z') {
      assert r[i] == LowerChar(s[i]);
    }
  }

  lemma NoUpperSlice(s: string, lo: nat, hi: nat)
    requires NoUpper(s) && lo <= hi <= |s|
    ensures NoUpper(s[lo..hi])
  {
    var r := s[lo..hi];
    forall i | 0 <= i < |r| ensures !('A' <= r[i] <= 'Z') {
      assert r[i] == s[lo + i];
    }
  }

  /**
   * `address.toLowerCase().trim()`, with the ASCII case folding of `ToLower`: the key is
   * the lowered address with a run of white space cut from each end, and nothing else.
   */
  function GeocodingKey(address: string): (key: string)
    ensures |key| <= |address|
    ensures exists lo, hi | 0 <= lo <= hi <= |address| ::
      && key == ToLower(address)[lo..hi]
      && (forall i | 0 <= i < lo :: IsJsSpace(address[i]))
      && (forall i | hi <= i < |address| :: IsJsSpace(address[i]))
  {
    TrimOfLower(address);
    Trim(ToLower(address))
  }

  /** The cut `Trim` makes in the lowered address drops only white space of the address. */
  lemma TrimOfLower(address: string)
    ensures exists lo, hi | 0 <= lo <= hi <= |address| ::
      && Trim(ToLower(address)) == ToLower(address)[lo..hi]
      && (forall i | 0 <= i < lo :: IsJsSpace(address[i]))
      && (forall i | hi <= i < |address| :: IsJsSpace(address[i]))
  {
    var lower := ToLower(address);
    TrimCut(lower);
    var lo := TrimStart(lower);
    var hi := lo + |Trim(lower)|;
    assert Trim(lower) == lower[lo..hi];
    forall i | 0 <= i < lo ensures IsJsSpace(address[i]) {
      LowerKeepsSpace(address[i]);
    }
    forall i | hi <= i < |address| ensures IsJsSpace(address[i]) {
      LowerKeepsSpace(address[i]);
    }
  }

  /** A key has no ASCII capital letter and no white space at either end. */
  lemma GeocodingKeyNormal(address: string)
    ensures NoUpper(GeocodingKey(address))
    ensures var key := GeocodingKey(address);
      key == [] || (!IsJsSpace(key[0]) && !IsJsSpace(key[|key| - 1]))
  {
    var lower := ToLower(address);
    LowerHasNoUpper(address);
    TrimNormal(lower);
  }

  lemma TrimNormal(s: string)
    requires NoUpper(s)
    ensures NoUpper(Trim(s))
    ensures var key := Trim(s); key == [] || (!IsJsSpace(key[0]) && !IsJsSpace(key[|key| - 1]))
  {
    TrimKeepsNoUpper(s);
    TrimEnds(s);
  }

  lemma TrimKeepsNoUpper(s: string)
    requires NoUpper(s)
    ensures NoUpper(Trim(s))
  {
    var skipped := SkipSpace(s);
    SuffixNoUpper(s, skipped);
    PrefixNoUpper(skipped, TrimEnd(skipped));
  }

  lemma SuffixNoUpper(s: string, t: string)
    requires NoUpper(s) && |t| <= |s| && t == s[|s| - |t|..]
    ensures NoUpper(t)
  {
    NoUpperSlice(s, |s| - |t|, |s|);
    assert s[|s| - |t|..|s|] == t;
  }

  lemma PrefixNoUpper(s: string, t: string)
    requires NoUpper(s) && t <= s
    ensures NoUpper(t)
  {
    NoUpperSlice(s, 0, |t|);
    assert s[0..|t|] == t;
  }

  lemma TrimEnds(s: string)
    ensures var key := Trim(s); key == [] || (!IsJsSpace(key[0]) && !IsJsSpace(key[|key| - 1]))
  {
    var skipped := SkipSpace(s);
    var key := TrimEnd(skipped);
    if key != [] {
      assert key[0] == skipped[0];
    }
  }

  /** Normalising a key again gives the same key. */
  lemma GeocodingKeyIdempotent(address: string)
    ensures GeocodingKey(GeocodingKey(address)) == GeocodingKey(address)
  {
    var key := GeocodingKey(address);
    GeocodingKeyNormal(address);
    assert ToLower(key) == key by {
      forall i | 0 <= i < |key| ensures ToLower(key)[i] == key[i] {
        assert !('A' <= key[i] <= 'Z');
      }
    }
    assert SkipSpace(key) == key;
    assert TrimEnd(key) == key;
  }

  /** `Math.round(x * 100)`: the nearest hundredth, halves rounded up. */
  function Hundredths(x: real): (h: int)
    ensures x * 100.0 - 0.5 < h as real <= x * 100.0 + 0.5
  {
    (x * 100.0 + 0.5).Floor
  }

  /**
   * A map-data key. The source renders it as text: four rounded numbers joined by commas
   * for a box, and `route_<lat>,<lon>_to_<lat>,<lon>` for a route. The two forms never
   * coincide, and the numbers are kept here in hundredths of a degree.
   */
  datatype MapKey =
    | BoundsKey(south: int, west: int, north: int, east: int)
    | RouteKey(startLat: int, startLon: int, endLat: int, endLon: int)

  /** `mapDataKey(bounds)`. */
  function MapDataKey(b: Box): (key: MapKey)
    ensures key.BoundsKey? && BoxOfKey(key).Some?
    ensures forall s: Coord, e: Coord :: key != RouteBasedKey(s, e)
  {
    BoundsKey(Hundredths(b.south), Hundredths(b.west), Hundredths(b.north), Hundredths(b.east))
  }

  /** `routeBasedKey(startCoords, endCoords)`. */
  function RouteBasedKey(s: Coord, e: Coord): (key: MapKey)
    ensures key.RouteKey? && BoxOfKey(key).None?
  {
    RouteKey(Hundredths(s.lat), Hundredths(s.lon), Hundredths(e.lat), Hundredths(e.lon))
  }

  /**
   * `boundsFromKey(key)`: the box a bounds key names. A route key has two commas, so its
   * text splits into `[NaN, NaN, endLon]`, and Leaflet refuses the first corner `(NaN, NaN)`
   * by throwing: `None`, which the lookup below turns into a raised error.
   */
  function BoxOfKey(key: MapKey): (r: Option<Box>)
    ensures r.Some? <==> key.BoundsKey?
  {
    match key
    case BoundsKey(s, w, n, e) => Some(Box(s as real / 100.0, w as real / 100.0, n as real / 100.0, e as real / 100.0))
    case RouteKey(_, _, _, _) => None
  }

  // ---------------------------------------------------------------------------
  // Expiry and the bounds tests

  /** `now - entry.timestamp > expiryTime`. */
  predicate IsExpired<D>(entry: Entry<D>, expiry: int, now: int)
    ensures IsExpired(entry, expiry, now) && expiry >= 0 ==> entry.timestamp < now
  {
    now - entry.timestamp > expiry
  }

  /** An entry that has expired stays expired as the clock moves on. */
  lemma ExpiredStaysExpired<D>(entry: Entry<D>, expiry: int, now: int, later: int)
    requires IsExpired(entry, expiry, now) && now <= later
    ensures IsExpired(entry, expiry, later)
  {
  }

  /** The data under `key`, when there is an entry and it has not expired. */
  function Lookup<K(==), D>(cache: OMap<K, Entry<D>>, key: K, expiry: int, now: int): (r: Option<D>)
    ensures r.Some? <==> key in cache.table && !IsExpired(cache.table[key], expiry, now)
    ensures r.Some? ==> r.value == cache.table[key].data
  {
    match cache.Get(key)
    case Some(entry) => if !IsExpired(entry, expiry, now) then Some(entry.data) else None
    case None => None
  }

  /** `boundsContains(container, target)`. */
  predicate BoundsContains(container: Box, target: Box)
    ensures BoundsContains(container, target) <==> Intersection(container, target) == target
  {
    && container.south <= target.south && container.west <= target.west
    && container.north >= target.north && container.east >= target.east
  }

  /** The intersection of two boxes, which may be empty or inverted. */
  function Intersection(b1: Box, b2: Box): Box {
    Box(Max(b1.south, b2.south), Max(b1.west, b2.west), Min(b1.north, b2.north), Min(b1.east, b2.east))
  }

  function Area(b: Box): real {
    (b.north - b.south) * (b.east - b.west)
  }

  lemma ProductPositive(a: real, b: real)
    requires a > 0.0 && b > 0.0
    ensures a * b > 0.0
  {
  }

  /**
   * `boundsOverlap(b1, b2)`: the intersection has positive height and width and covers at
   * least 80% of the area of `b2`.
   */
  function BoundsOverlap(b1: Box, b2: Box): (r: bool)
    ensures r <==> var o := Intersection(b1, b2);
      o.south < o.north && o.west < o.east && Area(o) >= 0.8 * Area(b2)
  {
    var overlapSouth := Max(b1.south, b2.south);
    var overlapNorth := Min(b1.north, b2.north);
    var overlapWest := Max(b1.west, b2.west);
    var overlapEast := Min(b1.east, b2.east);
    if overlapNorth <= overlapSouth || overlapEast <= overlapWest then false
    else
      var overlapArea := (overlapNorth - overlapSouth) * (overlapEast - overlapWest);
      var height, width := b2.north - b2.south, b2.east - b2.west;
      assert height > 0.0 && width > 0.0;
      var targetArea := height * width;
      ProductPositive(height, width);
      RatioAtLeast(overlapArea, targetArea, 0.8);
      overlapArea / targetArea >= 0.8
  }

  lemma RatioAtLeast(a: real, t: real, bound: real)
    requires t > 0.0
    ensures a / t >= bound <==> a >= bound * t
  {
    assert a / t * t == a;
    if a / t >= bound {
      assert a / t * t >= bound * t;
    } else {
      assert a / t * t < bound * t;
    }
  }

  // ---------------------------------------------------------------------------
  // Eviction order: the stable sort by timestamp

  /** The timestamp of the entry under `k` (keys outside the table do not occur). */
  function Stamp<K(==), D>(t: map<K, Entry<D>>, k: K): int {
    if k in t then t[k].timestamp else 0
  }

  ghost predicate SortedByStamp<K, D>(t: map<K, Entry<D>>, s: seq<K>) {
    forall i, j | 0 <= i < j < |s| :: Stamp(t, s[i]) <= Stamp(t, s[j])
  }

  /** `x` placed after every entry of `s` whose timestamp is not larger than its own. */
  function InsertByStamp<K(==), D>(t: map<K, Entry<D>>, x: K, s: seq<K>): (r: seq<K>)
    ensures |r| == |s| + 1
    ensures multiset(r) == multiset(s) + multiset{x}
  {
    if s == [] || Stamp(t, s[|s| - 1]) <= Stamp(t, x) then s + [x]
    else
      var init := s[..|s| - 1];
      assert s == init + [s[|s| - 1]];
      InsertByStamp(t, x, init) + [s[|s| - 1]]
  }

  /** `entries.sort((a, b) => a[1].timestamp - b[1].timestamp)`: a stable sort by timestamp. */
  function SortByStamp<K(==), D>(t: map<K, Entry<D>>, s: seq<K>): (r: seq<K>)
    ensures |r| == |s|
    ensures multiset(r) == multiset(s)
  {
    if s == [] then []
    else
      var init := s[..|s| - 1];
      assert s == init + [s[|s| - 1]];
      InsertByStamp(t, s[|s| - 1], SortByStamp(t, init))
  }

  lemma {:induction false} InsertSorted<K, D>(t: map<K, Entry<D>>, x: K, s: seq<K>)
    requires SortedByStamp(t, s)
    ensures SortedByStamp(t, InsertByStamp(t, x, s))
  {
    if s != [] && Stamp(t, s[|s| - 1]) > Stamp(t, x) {
      var init := s[..|s| - 1];
      InsertSorted(t, x, init);
      var r := InsertByStamp(t, x, init);
      forall y | y in r ensures Stamp(t, y) <= Stamp(t, s[|s| - 1]) {
        assert y in multiset(r);
        if y != x {
          assert y in init;
        }
      }
    }
  }

  /** The sort orders by timestamp. */
  lemma {:induction false} SortSorted<K, D>(t: map<K, Entry<D>>, s: seq<K>)
    ensures SortedByStamp(t, SortByStamp(t, s))
  {
    if s != [] {
      SortSorted(t, s[..|s| - 1]);
      InsertSorted(t, s[|s| - 1], SortByStamp(t, s[..|s| - 1]));
    }
  }

  lemma {:induction false} InsertDistinct<K, D>(t: map<K, Entry<D>>, x: K, s: seq<K>)
    requires Distinct(s) && x !in s
    ensures Distinct(InsertByStamp(t, x, s))
  {
    if s == [] || Stamp(t, s[|s| - 1]) <= Stamp(t, x) {
      assert (s + [x])[..|s|] == s;
    } else {
      var init := s[..|s| - 1];
      var last := s[|s| - 1];
      assert x !in init by { assert s == init + [last]; }
      InsertDistinct(t, x, init);
      var r := InsertByStamp(t, x, init);
      assert last !in r by {
        assert last !in init && last != x;
        assert multiset(r)[last] == 0;
      }
      assert (r + [last])[..|r|] == r;
    }
  }

  /** Sorting a repeat-free key list gives a repeat-free key list. */
  lemma {:induction false} SortDistinct<K, D>(t: map<K, Entry<D>>, s: seq<K>)
    requires Distinct(s)
    ensures Distinct(SortByStamp(t, s))
  {
    if s != [] {
      var init := s[..|s| - 1];
      SortDistinct(t, init);
      assert s[|s| - 1] !in multiset(SortByStamp(t, init));
      InsertDistinct(t, s[|s| - 1], SortByStamp(t, init));
    }
  }

  /** The entries of `s` written at time `c`, in order. */
  function StampedAt<K(==), D>(t: map<K, Entry<D>>, s: seq<K>, c: int): seq<K> {
    if s == [] then []
    else StampedAt(t, s[..|s| - 1], c) + (if Stamp(t, s[|s| - 1]) == c then [s[|s| - 1]] else [])
  }

  lemma StampedAtAppend<K, D>(t: map<K, Entry<D>>, s: seq<K>, x: K, c: int)
    ensures StampedAt(t, s + [x], c) == StampedAt(t, s, c) + (if Stamp(t, x) == c then [x] else [])
  {
    assert (s + [x])[..|s|] == s;
  }

  lemma {:induction false} InsertStable<K, D>(t: map<K, Entry<D>>, x: K, s: seq<K>, c: int)
    ensures StampedAt(t, InsertByStamp(t, x, s), c) == StampedAt(t, s, c) + (if Stamp(t, x) == c then [x] else [])
  {
    if s == [] || Stamp(t, s[|s| - 1]) <= Stamp(t, x) {
      StampedAtAppend(t, s, x, c);
    } else {
      var init := s[..|s| - 1];
      var last := s[|s| - 1];
      var ins := InsertByStamp(t, x, init);
      var mx: seq<K> := if Stamp(t, x) == c then [x] else [];
      var ml: seq<K> := if Stamp(t, last) == c then [last] else [];
      assert InsertByStamp(t, x, s) == ins + [last];
      assert StampedAt(t, ins + [last], c) == StampedAt(t, ins, c) + ml by {
        StampedAtAppend(t, ins, last, c);
      }
      assert StampedAt(t, s, c) == StampedAt(t, init, c) + ml by {
        assert s == init + [last];
        StampedAtAppend(t, init, last, c);
      }
      InsertStable(t, x, init, c);
      SwapEmpty(StampedAt(t, init, c), mx, ml);
    }
  }

  /** Two sequences of which one is empty can be appended in either order. */
  lemma SwapEmpty<K>(a: seq<K>, p: seq<K>, q: seq<K>)
    requires p == [] || q == []
    ensures a + p + q == a + q + p
  {
    if p == [] {
      assert a + p == a && a + q + p == a + q;
    } else {
      assert a + q == a && a + p + q == a + p;
    }
  }

  /**
   * The sort is stable: the entries written at any one time keep their insertion order,
   * so among equally old entries the earlier inserted go first.
   */
  lemma {:induction false} SortStable<K, D>(t: map<K, Entry<D>>, s: seq<K>, c: int)
    ensures StampedAt(t, SortByStamp(t, s), c) == StampedAt(t, s, c)
  {
    if s != [] {
      var init := s[..|s| - 1];
      SortStable(t, init, c);
      InsertStable(t, s[|s| - 1], SortByStamp(t, init), c);
    }
  }

  lemma {:induction false} StampedAtConcat<K, D>(t: map<K, Entry<D>>, a: seq<K>, b: seq<K>, c: int)
    ensures StampedAt(t, a + b, c) == StampedAt(t, a, c) + StampedAt(t, b, c)
  {
    if b == [] {
      assert a + b == a;
    } else {
      var init, last := b[..|b| - 1], b[|b| - 1];
      StampedAtConcat(t, a, init, c);
      assert a + b == (a + init) + [last];
      StampedAtAppend(t, a + init, last, c);
      assert b == init + [last];
      StampedAtAppend(t, init, last, c);
    }
  }

  lemma {:induction false} StampedAtMembers<K, D>(t: map<K, Entry<D>>, s: seq<K>, c: int)
    ensures forall x | x in StampedAt(t, s, c) :: x in s
  {
    if s != [] {
      StampedAtMembers(t, s[..|s| - 1], c);
      assert s == s[..|s| - 1] + [s[|s| - 1]];
    }
  }

  // ---------------------------------------------------------------------------
  // What eviction and purging leave

  /** The elements of a sequence, as a set. */
  function Elems<K>(s: seq<K>): set<K> {
    set k | k in s
  }

  lemma ElemsAppend<K>(s: seq<K>, x: K)
    ensures Elems(s + [x]) == Elems(s) + {x}
  {
  }

  /** The store without the keys in `gone`, the others in their old order. */
  function Removed<K(==), D>(cache: OMap<K, Entry<D>>, gone: set<K>): OMap<K, Entry<D>> {
    OMap(Keep(cache.keys, gone), cache.table - gone)
  }

  /** Removing a set of keys from a store leaves a store, whose entries are unchanged. */
  lemma RemovedValid<K, D>(cache: OMap<K, Entry<D>>, gone: set<K>)
    requires cache.Valid()
    ensures Removed(cache, gone).Valid()
    ensures forall k :: k in Removed(cache, gone).table <==> k in cache.table && k !in gone
  {
    KeepDistinct(cache.keys, gone);
    cache.KeysInTable();
  }

  /** `delete(k)` after removing `gone` removes `gone` and `k`. */
  lemma RemovedDelete<K, D>(cache: OMap<K, Entry<D>>, gone: set<K>, k: K)
    requires cache.Valid()
    ensures Removed(cache, gone).Valid()
    ensures Removed(cache, gone).Delete(k) == Removed(cache, gone + {k})
  {
    RemovedValid(cache, gone);
    WithoutKeep(cache.keys, gone, k);
    assert cache.table - gone - {k} == cache.table - (gone + {k});
  }

  lemma RemovedNothing<K, D>(cache: OMap<K, Entry<D>>)
    ensures Removed(cache, {}) == cache
  {
    KeepNothing(cache.keys);
    assert cache.table - {} == cache.table;
  }

  /** The first `count` keys in eviction order: `entries.slice(0, count)` after the sort. */
  function Oldest<K(==), D>(cache: OMap<K, Entry<D>>, count: nat): seq<K>
    requires count <= |cache.keys|
  {
    SortByStamp(cache.table, cache.keys)[..count]
  }

  /**
   * The store `enforceLimit(cache, maxEntries)` leaves: when it is over the limit, the
   * surplus oldest keys are gone and every other entry stays, in its old order.
   */
  function Evict<K(==), D>(cache: OMap<K, Entry<D>>, maxEntries: nat): OMap<K, Entry<D>> {
    if |cache.keys| <= maxEntries then cache
    else Removed(cache, Elems(Oldest(cache, |cache.keys| - maxEntries)))
  }

  /** The keys among `s` whose entries have expired. */
  function ExpiredIn<K(==), D>(t: map<K, Entry<D>>, s: seq<K>, expiry: int, now: int): set<K> {
    set k | k in s && k in t && IsExpired(t[k], expiry, now)
  }

  lemma ExpiredInAppend<K, D>(t: map<K, Entry<D>>, s: seq<K>, x: K, expiry: int, now: int)
    ensures ExpiredIn(t, s + [x], expiry, now) ==
      ExpiredIn(t, s, expiry, now) + (if x in t && IsExpired(t[x], expiry, now) then {x} else {})
  {
  }

  /** The store after `cleanup`'s loop over it: every expired entry deleted. */
  function Unexpired<K(==), D>(cache: OMap<K, Entry<D>>, expiry: int, now: int): OMap<K, Entry<D>> {
    Removed(cache, ExpiredIn(cache.table, cache.keys, expiry, now))
  }

  /** Every evicted key is one of the store's keys; there are as many as the surplus. */
  lemma OldestKeys<K, D>(cache: OMap<K, Entry<D>>, count: nat)
    requires cache.Valid() && count <= |cache.keys|
    ensures Elems(Oldest(cache, count)) <= cache.table.Keys
    ensures |Elems(Oldest(cache, count))| == count
  {
    var sorted := SortByStamp(cache.table, cache.keys);
    cache.KeysInTable();
    forall k | k in Oldest(cache, count) ensures k in cache.table {
      assert k in multiset(sorted);
    }
    SortDistinct(cache.table, cache.keys);
    DistinctPrefix(sorted, count);
    DistinctCount(sorted[..count]);
  }

  /** A key after the first `count` in eviction order is in the store and is not evicted. */
  lemma NewerKeysStay<K, D>(cache: OMap<K, Entry<D>>, count: nat, b: nat)
    requires cache.Valid() && count <= b < |cache.keys|
    ensures SortByStamp(cache.table, cache.keys)[b] in cache.table
    ensures SortByStamp(cache.table, cache.keys)[b] !in Elems(Oldest(cache, count))
  {
    var sorted := SortByStamp(cache.table, cache.keys);
    cache.KeysInTable();
    assert sorted[b] in multiset(cache.keys);
    SortDistinct(cache.table, cache.keys);
    DistinctAt(sorted, b);
    assert sorted[..b][..count] == sorted[..count];
  }

  lemma CardDiff<K>(a: set<K>, b: set<K>)
    requires b <= a
    ensures |a - b| == |a| - |b|
  {
    assert a == (a - b) + b;
    assert (a - b) * b == {};
  }

  /** Eviction leaves a store whose entries were all in the old store, unchanged. */
  lemma EvictValid<K, D>(cache: OMap<K, Entry<D>>, maxEntries: nat)
    requires cache.Valid()
    ensures Evict(cache, maxEntries).Valid()
    ensures forall k | k in Evict(cache, maxEntries).table :: k in cache.table && Evict(cache, maxEntries).table[k] == cache.table[k]
  {
    if |cache.keys| > maxEntries {
      RemovedValid(cache, Elems(Oldest(cache, |cache.keys| - maxEntries)));
    }
  }

  /** Eviction leaves a store of exactly `min(size, maxEntries)` entries. */
  lemma EvictSize<K, D>(cache: OMap<K, Entry<D>>, maxEntries: nat)
    requires cache.Valid()
    ensures |Evict(cache, maxEntries).keys| == if |cache.keys| <= maxEntries then |cache.keys| else maxEntries
  {
    if |cache.keys| > maxEntries {
      var count := |cache.keys| - maxEntries;
      var gone := Elems(Oldest(cache, count));
      var r := Evict(cache, maxEntries);
      assert r == Removed(cache, gone);
      RemovedValid(cache, gone);
      assert r.table.Keys == cache.table.Keys - gone;
      OldestKeys(cache, count);
      CardDiff(cache.table.Keys, gone);
      cache.SizeIsCount();
      r.SizeIsCount();
    }
  }

  /** Every evicted entry is no newer than any entry that stays. */
  lemma EvictOldestFirst<K, D>(cache: OMap<K, Entry<D>>, maxEntries: nat, k: K, j: K)
    requires cache.Valid()
    requires k in cache.table && k !in Evict(cache, maxEntries).table
    requires j in Evict(cache, maxEntries).table
    ensures cache.table[k].timestamp <= cache.table[j].timestamp
  {
    var count := |cache.keys| - maxEntries;
    var sorted := SortByStamp(cache.table, cache.keys);
    RemovedValid(cache, Elems(Oldest(cache, count)));
    SortSorted(cache.table, cache.keys);
    cache.KeysInTable();
    assert k in sorted[..count];
    var a :| 0 <= a < count && sorted[a] == k;
    assert j in multiset(sorted);
    var b :| 0 <= b < |sorted| && sorted[b] == j;
  }

  /**
   * Among entries written at the same time, eviction takes the earliest inserted: listed in
   * insertion order, once one of them stays, every later one stays too.
   */
  lemma EvictTiesByInsertion<K, D>(cache: OMap<K, Entry<D>>, maxEntries: nat, c: int)
    requires cache.Valid()
    ensures var w := StampedAt(cache.table, cache.keys, c);
      forall i, j | 0 <= i < j < |w| && w[i] in Evict(cache, maxEntries).table :: w[j] in Evict(cache, maxEntries).table
  {
    var w := StampedAt(cache.table, cache.keys, c);
    var r := Evict(cache, maxEntries);
    if |cache.keys| <= maxEntries {
      StampedAtMembers(cache.table, cache.keys, c);
      cache.KeysInTable();
      forall j | 0 <= j < |w| ensures w[j] in r.table {
        assert w[j] in w;
      }
    } else {
      var count := |cache.keys| - maxEntries;
      var gone := Elems(Oldest(cache, count));
      assert r == Removed(cache, gone);
      RemovedValid(cache, gone);
      var wf, wb := TiesSplit(cache, count, c);
      forall i, j | 0 <= i < j < |w| && w[i] in r.table ensures w[j] in r.table {
        assert i >= |wf|;
        assert w[j] == wb[j - |wf|];
      }
    }
  }

  /** The same-time entries in insertion order: first the evicted ones, then the staying ones. */
  lemma TiesSplit<K, D>(cache: OMap<K, Entry<D>>, count: nat, c: int) returns (wf: seq<K>, wb: seq<K>)
    requires cache.Valid() && count <= |cache.keys|
    ensures StampedAt(cache.table, cache.keys, c) == wf + wb
    ensures forall x | x in wf :: x in Elems(Oldest(cache, count))
    ensures forall x | x in wb :: x in cache.table && x !in Elems(Oldest(cache, count))
  {
    var sorted := SortByStamp(cache.table, cache.keys);
    var front, back := sorted[..count], sorted[count..];
    assert sorted == front + back;
    SortStable(cache.table, cache.keys, c);
    StampedAtConcat(cache.table, front, back, c);
    wf, wb := StampedAt(cache.table, front, c), StampedAt(cache.table, back, c);
    StampedAtMembers(cache.table, front, c);
    StampedAtMembers(cache.table, back, c);
    forall x | x in wb ensures x in cache.table && x !in Elems(Oldest(cache, count)) {
      var b :| 0 <= b < |back| && back[b] == x;
      NewerKeysStay(cache, count, count + b);
    }
  }

  /** Purging keeps exactly the entries that have not expired, unchanged. */
  lemma UnexpiredContents<K, D>(cache: OMap<K, Entry<D>>, expiry: int, now: int)
    requires cache.Valid()
    ensures Unexpired(cache, expiry, now).Valid()
    ensures forall k :: k in Unexpired(cache, expiry, now).table <==>
      k in cache.table && !IsExpired(cache.table[k], expiry, now)
    ensures forall k | k in Unexpired(cache, expiry, now).table :: Unexpired(cache, expiry, now).table[k] == cache.table[k]
  {
    RemovedValid(cache, ExpiredIn(cache.table, cache.keys, expiry, now));
    cache.KeysInTable();
  }

  /** A purge changes no read made at the same time. */
  lemma PurgeKeepsReads<K, D>(cache: OMap<K, Entry<D>>, expiry: int, now: int, key: K)
    requires cache.Valid()
    ensures Lookup(Unexpired(cache, expiry, now), key, expiry, now) == Lookup(cache, key, expiry, now)
  {
    UnexpiredContents(cache, expiry, now);
  }

  /** A second purge at the same time removes nothing. */
  lemma PurgeIdempotent<K, D>(cache: OMap<K, Entry<D>>, expiry: int, now: int)
    requires cache.Valid()
    ensures Unexpired(Unexpired(cache, expiry, now), expiry, now) == Unexpired(cache, expiry, now)
  {
    var r := Unexpired(cache, expiry, now);
    UnexpiredContents(cache, expiry, now);
    assert ExpiredIn(r.table, r.keys, expiry, now) == {};
    RemovedNothing(r);
  }

  /**
   * Writing a key and then reading it at the same time returns what was written, as long
   * as the store was within its limit and no entry is newer than the write.
   */
  lemma SetThenLookup<K, D>(cache: OMap<K, Entry<D>>, maxEntries: nat, key: K, e: Entry<D>, expiry: int)
    requires cache.Valid() && |cache.keys| <= maxEntries && maxEntries > 0
    requires forall k | k in cache.table :: cache.table[k].timestamp <= e.timestamp
    requires expiry >= 0
    ensures Lookup(Evict(cache.Set(key, e), maxEntries), key, expiry, e.timestamp) == Some(e.data)
  {
    var stored := cache.Set(key, e);
    var r := Evict(stored, maxEntries);
    if |stored.keys| > maxEntries {
      var oldest := OldestAfterSet(cache, maxEntries, key, e);
      var gone := Elems(Oldest(stored, 1));
      assert gone == {oldest};
      assert r == Removed(stored, gone);
      RemovedValid(stored, gone);
    } else {
      assert r == stored;
    }
    assert key in r.table && r.table[key] == e;
    assert !IsExpired(e, expiry, e.timestamp);
  }

  /** In `SetThenLookup`'s situation the one evicted key is an old one. */
  lemma OldestAfterSet<K, D>(cache: OMap<K, Entry<D>>, maxEntries: nat, key: K, e: Entry<D>) returns (oldest: K)
    requires cache.Valid() && |cache.keys| == maxEntries && maxEntries > 0 && key !in cache.table
    requires forall k | k in cache.table :: cache.table[k].timestamp <= e.timestamp
    ensures |cache.Set(key, e).keys| == maxEntries + 1
    ensures Oldest(cache.Set(key, e), 1) == [oldest] && oldest != key
  {
    var stored := cache.Set(key, e);
    var t := stored.table;
    var s0 := SortByStamp(t, cache.keys);
    assert SortByStamp(t, stored.keys) == InsertByStamp(t, key, s0) by {
      assert stored.keys[..|stored.keys| - 1] == cache.keys;
    }
    var last := s0[|s0| - 1];
    assert last in cache.keys by {
      assert last in multiset(s0);
    }
    cache.KeysInTable();
    assert Stamp(t, last) <= Stamp(t, key) by {
      assert last != key && t[last] == cache.table[last];
    }
    assert InsertByStamp(t, key, s0) == s0 + [key];
    oldest := s0[0];
    assert oldest in cache.keys by {
      assert oldest in multiset(s0);
    }
  }

  /** One turn of `enforceLimit`'s delete loop: deleting the next listed key removes one more of the list. */
  lemma RemoveStep<K, D>(cache: OMap<K, Entry<D>>, s: seq<K>, i: nat)
    requires cache.Valid() && i < |s|
    ensures Removed(cache, Elems(s[..i])).Valid()
    ensures Removed(cache, Elems(s[..i])).Delete(s[i]) == Removed(cache, Elems(s[..i + 1]))
  {
    assert s[..i + 1] == s[..i] + [s[i]];
    ElemsAppend(s[..i], s[i]);
    RemovedDelete(cache, Elems(s[..i]), s[i]);
  }

  /** One turn of a `cleanup` loop: the next key is still stored with its entry, and deleting it
      exactly when it is expired extends the purge by one key. */
  lemma PurgeStep<K, D>(cache: OMap<K, Entry<D>>, expiry: int, now: int, i: nat)
    requires cache.Valid() && i < |cache.keys|
    ensures Removed(cache, ExpiredIn(cache.table, cache.keys[..i], expiry, now)).Valid()
    ensures cache.keys[i] in Removed(cache, ExpiredIn(cache.table, cache.keys[..i], expiry, now)).table
    ensures Removed(cache, ExpiredIn(cache.table, cache.keys[..i], expiry, now)).table[cache.keys[i]]
      == cache.table[cache.keys[i]]
    ensures IsExpired(cache.table[cache.keys[i]], expiry, now) ==>
      Removed(cache, ExpiredIn(cache.table, cache.keys[..i], expiry, now)).Delete(cache.keys[i])
        == Removed(cache, ExpiredIn(cache.table, cache.keys[..i + 1], expiry, now))
    ensures !IsExpired(cache.table[cache.keys[i]], expiry, now) ==>
      Removed(cache, ExpiredIn(cache.table, cache.keys[..i], expiry, now))
        == Removed(cache, ExpiredIn(cache.table, cache.keys[..i + 1], expiry, now))
  {
    var key := cache.keys[i];
    var gone := ExpiredIn(cache.table, cache.keys[..i], expiry, now);
    DistinctAt(cache.keys, i);
    assert key !in gone;
    ExpiredStep(cache, expiry, now, i);
    RemovedEntry(cache, gone, key);
  }

  /** The keys expired among the first `i + 1` are those among the first `i`, plus the next if it has expired. */
  lemma ExpiredStep<K, D>(cache: OMap<K, Entry<D>>, expiry: int, now: int, i: nat)
    requires cache.Valid() && i < |cache.keys|
    ensures ExpiredIn(cache.table, cache.keys[..i + 1], expiry, now) ==
      ExpiredIn(cache.table, cache.keys[..i], expiry, now) +
        (if IsExpired(cache.table[cache.keys[i]], expiry, now) then {cache.keys[i]} else {})
  {
    assert cache.keys[..i + 1] == cache.keys[..i] + [cache.keys[i]];
    ExpiredInAppend(cache.table, cache.keys[..i], cache.keys[i], expiry, now);
  }

  /** A key outside `gone` keeps its entry after the removal, and deleting it removes one more key. */
  lemma RemovedEntry<K, D>(cache: OMap<K, Entry<D>>, gone: set<K>, key: K)
    requires cache.Valid() && key in cache.table && key !in gone
    ensures Removed(cache, gone).Valid()
    ensures key in Removed(cache, gone).table && Removed(cache, gone).table[key] == cache.table[key]
    ensures Removed(cache, gone).Delete(key) == Removed(cache, gone + {key})
    ensures Removed(cache, gone + {}) == Removed(cache, gone)
  {
    RemovedDelete(cache, gone, key);
    assert gone + {} == gone;
  }

  /** `enforceLimit(cache, maxEntries)`: sort a copy of the entries by age and delete the surplus oldest. */
  method EnforceLimit<K(==), D>(cache: OMap<K, Entry<D>>, maxEntries: nat) returns (pruned: OMap<K, Entry<D>>)
    requires cache.Valid()
    ensures pruned == Evict(cache, maxEntries)
  {
    pruned := cache;
    if |cache.keys| > maxEntries {
      var sorted := SortByStamp(cache.table, cache.keys);
      var toRemove := sorted[..|cache.keys| - maxEntries];
      assert toRemove == Oldest(cache, |cache.keys| - maxEntries);
      assert pruned == Removed(cache, Elems(toRemove[..0])) by {
        RemovedNothing(cache);
        assert Elems(toRemove[..0]) == {};
      }
      for i := 0 to |toRemove|
        invariant pruned == Removed(cache, Elems(toRemove[..i]))
      {
        RemoveStep(cache, toRemove, i);
        pruned := pruned.Delete(toRemove[i]);
      }
      assert toRemove[..|toRemove|] == toRemove;
    }
  }

  /** One of `cleanup`'s loops: delete every expired entry of one store. */
  method Purge<K(==), D>(cache: OMap<K, Entry<D>>, expiry: int, now: int) returns (kept: OMap<K, Entry<D>>)
    requires cache.Valid()
    ensures kept == Unexpired(cache, expiry, now)
  {
    kept := cache;
    RemovedNothing(cache);
    assert ExpiredIn(cache.table, cache.keys[..0], expiry, now) == {};
    for i := 0 to |cache.keys|
      invariant kept == Removed(cache, ExpiredIn(cache.table, cache.keys[..i], expiry, now))
    {
      var key := cache.keys[i];
      PurgeStep(cache, expiry, now, i);
      if IsExpired(kept.table[key], expiry, now) {
        kept := kept.Delete(key);
      }
    }
    assert cache.keys[..|cache.keys|] == cache.keys;
  }

  // ---------------------------------------------------------------------------
  // Bounds lookup

  /** The entry under `k` answers a lookup for `bounds` at `now`: it has not expired and the
      box named by its key contains `bounds` or covers at least 80% of it. */
  predicate Serves(k: MapKey, e: Entry<MapData>, bounds: Box, now: int) {
    && !IsExpired(e, MapDataExpiry, now)
    && match BoxOfKey(k)
       case Some(cached) => BoundsContains(cached, bounds) || BoundsOverlap(cached, bounds)
       case None => false
  }

  /** The `i`-th entry of the store, in insertion order, answers the lookup. */
  predicate ServesAt(store: OMap<MapKey, Entry<MapData>>, i: nat, bounds: Box, now: int) {
    && i < |store.keys|
    && store.keys[i] in store.table
    && Serves(store.keys[i], store.table[store.keys[i]], bounds, now)
  }

  /** A route entry never answers a bounds lookup, whatever box was stored with it. */
  lemma RouteEntryNeverServes(k: MapKey, e: Entry<MapData>, bounds: Box, now: int)
    requires k.RouteKey?
    ensures !Serves(k, e, bounds, now)
  {
  }

  /** Every key of the store is a route key, as the program's own map-data writes leave it. */
  predicate RouteOnly(store: OMap<MapKey, Entry<MapData>>) {
    forall i | 0 <= i < |store.keys| :: store.keys[i].RouteKey?
  }

  /** A route write followed by eviction keeps a route-only store route-only. */
  lemma RouteWriteKeepsRouteOnly(store: OMap<MapKey, Entry<MapData>>, start: Coord, end: Coord,
                                 e: Entry<MapData>, maxEntries: nat)
    requires store.Valid() && RouteOnly(store)
    ensures RouteOnly(Evict(store.Set(RouteBasedKey(start, end), e), maxEntries))
  {
    var written := store.Set(RouteBasedKey(start, end), e);
    forall k | k in written.table ensures k.RouteKey? {
      if k in store.table {
        var i :| 0 <= i < |store.keys| && store.keys[i] == k;
      }
    }
    var r := Evict(written, maxEntries);
    EvictValid(written, maxEntries);
    forall i | 0 <= i < |r.keys| ensures r.keys[i].RouteKey? {
      assert r.keys[i] in r.table;
    }
  }

  /** A store of route entries answers no bounds lookup: `getCachedMapData` then returns null. */
  lemma RouteOnlyServesNothing(store: OMap<MapKey, Entry<MapData>>, bounds: Box, now: int)
    requires RouteOnly(store)
    ensures forall i | 0 <= i < |store.keys| :: !ServesAt(store, i, bounds, now)
  {
    forall i | 0 <= i < |store.keys| ensures !ServesAt(store, i, bounds, now) {
      if store.keys[i] in store.table {
        RouteEntryNeverServes(store.keys[i], store.table[store.keys[i]], bounds, now);
      }
    }
  }

  /** How `getCachedMapData` ends: with an entry's data, with null, or with an exception. */
  datatype MapLookup = Hit(data: MapData) | Miss | Raises

  /** The entry under `k` makes the lookup throw: it has not expired, so its key is read back,
      and the key names no box. */
  predicate RaisesOn(k: MapKey, e: Entry<MapData>, now: int) {
    !IsExpired(e, MapDataExpiry, now) && BoxOfKey(k).None?
  }

  /** The `i`-th entry of the store, in insertion order, makes the lookup throw. */
  predicate RaisesAt(store: OMap<MapKey, Entry<MapData>>, i: nat, now: int) {
    && i < |store.keys|
    && store.keys[i] in store.table
    && RaisesOn(store.keys[i], store.table[store.keys[i]], now)
  }

  /** The scan over `keys` stops at the entry under `k`: it answers or it throws. */
  predicate StopsOn(k: MapKey, e: Entry<MapData>, bounds: Box, now: int) {
    Serves(k, e, bounds, now) || RaisesOn(k, e, now)
  }

  /**
   * The bounds lookup as written: the entries in order, skipping expired ones; the first
   * one whose key box contains or covers the query gives its data, and the first one whose
   * key names no box throws.
   */
  function LookupAsWritten(t: map<MapKey, Entry<MapData>>, keys: seq<MapKey>, bounds: Box, now: int): (r: MapLookup)
    requires forall i | 0 <= i < |keys| :: keys[i] in t
    ensures r.Hit? ==> exists i | 0 <= i < |keys| :: r.data == t[keys[i]].data
  {
    if keys == [] then Miss
    else if Serves(keys[0], t[keys[0]], bounds, now) then Hit(t[keys[0]].data)
    else if RaisesOn(keys[0], t[keys[0]], now) then Raises
    else
      var r := LookupAsWritten(t, keys[1..], bounds, now);
      assert forall i | 1 <= i < |keys| :: keys[i] == keys[1..][i - 1];
      r
  }

  /** The lookup as written gives null exactly when no entry answers or throws. */
  lemma {:induction false} LookupAsWrittenMiss(t: map<MapKey, Entry<MapData>>, keys: seq<MapKey>, bounds: Box, now: int)
    requires forall i | 0 <= i < |keys| :: keys[i] in t
    ensures LookupAsWritten(t, keys, bounds, now).Miss? <==>
      forall i | 0 <= i < |keys| :: !StopsOn(keys[i], t[keys[i]], bounds, now)
  {
    if keys != [] && !StopsOn(keys[0], t[keys[0]], bounds, now) {
      var rest := keys[1..];
      assert forall i | 1 <= i < |keys| :: keys[i] == rest[i - 1];
      LookupAsWrittenMiss(t, rest, bounds, now);
    }
  }

  /** Data comes from the first entry that answers or throws, and that entry answers. */
  lemma {:induction false} LookupAsWrittenHit(t: map<MapKey, Entry<MapData>>, keys: seq<MapKey>, bounds: Box, now: int)
    requires forall i | 0 <= i < |keys| :: keys[i] in t
    requires LookupAsWritten(t, keys, bounds, now).Hit?
    ensures exists i | 0 <= i < |keys| ::
      && Serves(keys[i], t[keys[i]], bounds, now)
      && LookupAsWritten(t, keys, bounds, now).data == t[keys[i]].data
      && forall j | 0 <= j < i :: !StopsOn(keys[j], t[keys[j]], bounds, now)
  {
    if !StopsOn(keys[0], t[keys[0]], bounds, now) {
      var rest := keys[1..];
      assert forall i | 1 <= i < |keys| :: keys[i] == rest[i - 1];
      LookupAsWrittenHit(t, rest, bounds, now);
      var i :| 0 <= i < |rest|
        && Serves(rest[i], t[rest[i]], bounds, now)
        && LookupAsWritten(t, rest, bounds, now).data == t[rest[i]].data
        && forall j | 0 <= j < i :: !StopsOn(rest[j], t[rest[j]], bounds, now);
      assert Serves(keys[i + 1], t[keys[i + 1]], bounds, now);
    } else {
      assert Serves(keys[0], t[keys[0]], bounds, now);
    }
  }

  /** An exception comes from the first entry that answers or throws, and that entry throws. */
  lemma {:induction false} LookupAsWrittenRaises(t: map<MapKey, Entry<MapData>>, keys: seq<MapKey>, bounds: Box, now: int)
    requires forall i | 0 <= i < |keys| :: keys[i] in t
    requires LookupAsWritten(t, keys, bounds, now).Raises?
    ensures exists i | 0 <= i < |keys| ::
      && RaisesOn(keys[i], t[keys[i]], now)
      && forall j | 0 <= j < i :: !StopsOn(keys[j], t[keys[j]], bounds, now)
  {
    if !StopsOn(keys[0], t[keys[0]], bounds, now) {
      var rest := keys[1..];
      assert forall i | 1 <= i < |keys| :: keys[i] == rest[i - 1];
      LookupAsWrittenRaises(t, rest, bounds, now);
      var i :| 0 <= i < |rest|
        && RaisesOn(rest[i], t[rest[i]], now)
        && forall j | 0 <= j < i :: !StopsOn(rest[j], t[rest[j]], bounds, now);
      assert RaisesOn(keys[i + 1], t[keys[i + 1]], now);
    } else {
      assert !Serves(keys[0], t[keys[0]], bounds, now);
    }
  }

  /** One turn of the scan: the entry at `i` answers, throws, or passes the scan on to the next. */
  lemma LookupStep(t: map<MapKey, Entry<MapData>>, keys: seq<MapKey>, i: nat, bounds: Box, now: int)
    requires forall j | 0 <= j < |keys| :: keys[j] in t
    requires i < |keys|
    ensures LookupAsWritten(t, keys[i..], bounds, now) ==
      if Serves(keys[i], t[keys[i]], bounds, now) then Hit(t[keys[i]].data)
      else if RaisesOn(keys[i], t[keys[i]], now) then Raises
      else LookupAsWritten(t, keys[i + 1..], bounds, now)
  {
    assert keys[i..][0] == keys[i] && keys[i..][1..] == keys[i + 1..];
  }

  /** The lookup as written over a whole store, stated entry by entry of the store. */
  lemma LookupAsWrittenAt(store: OMap<MapKey, Entry<MapData>>, bounds: Box, now: int)
    requires store.Valid()
    ensures var r := LookupAsWritten(store.table, store.keys, bounds, now);
      && (r.Miss? <==> forall i | 0 <= i < |store.keys| ::
            !ServesAt(store, i, bounds, now) && !RaisesAt(store, i, now))
      && (r.Hit? ==> exists i | 0 <= i < |store.keys| ::
            && ServesAt(store, i, bounds, now)
            && r.data == store.table[store.keys[i]].data
            && forall j | 0 <= j < i :: !ServesAt(store, j, bounds, now))
  {
    var r := LookupAsWritten(store.table, store.keys, bounds, now);
    assert forall i | 0 <= i < |store.keys| :: store.keys[i] in store.table;
    LookupAsWrittenMiss(store.table, store.keys, bounds, now);
    assert forall i | 0 <= i < |store.keys| ::
      (ServesAt(store, i, bounds, now) || RaisesAt(store, i, now)) ==
      StopsOn(store.keys[i], store.table[store.keys[i]], bounds, now);
    if r.Hit? {
      LookupAsWrittenHit(store.table, store.keys, bounds, now);
      var i :| 0 <= i < |store.keys|
        && Serves(store.keys[i], store.table[store.keys[i]], bounds, now) && r.data == store.table[store.keys[i]].data
        && forall j | 0 <= j < i :: !StopsOn(store.keys[j], store.table[store.keys[j]], bounds, now);
      assert ServesAt(store, i, bounds, now);
    }
  }

  /** The loop of `getCachedMapData` over the entries `keys` of the table `t`, in order. */
  method ScanEntries(t: map<MapKey, Entry<MapData>>, keys: seq<MapKey>, bounds: Box, now: int) returns (r: MapLookup)
    requires forall i | 0 <= i < |keys| :: keys[i] in t
    ensures r == LookupAsWritten(t, keys, bounds, now)
  {
    r := Miss;
    for i := 0 to |keys|
      invariant r == Miss
      invariant LookupAsWritten(t, keys, bounds, now) == LookupAsWritten(t, keys[i..], bounds, now)
    {
      var key := keys[i];
      var entry := t[key];
      LookupStep(t, keys, i, bounds, now);
      if IsExpired(entry, MapDataExpiry, now) {
        continue;
      }
      var cached := BoxOfKey(key);
      if cached.None? {
        r := Raises;
        break;
      }
      if BoundsContains(cached.value, bounds) {
        r := Hit(entry.data);
        break;
      } else if BoundsOverlap(cached.value, bounds) {
        r := Hit(entry.data);
        break;
      }
    }
    assert keys[|keys|..] == [];
  }

  /** In a store of route entries the lookup as written never returns data, and it throws
      exactly when some entry has not expired. */
  lemma RouteOnlyLookupRaises(store: OMap<MapKey, Entry<MapData>>, bounds: Box, now: int)
    requires store.Valid() && RouteOnly(store)
    ensures !LookupAsWritten(store.table, store.keys, bounds, now).Hit?
    ensures LookupAsWritten(store.table, store.keys, bounds, now).Raises? <==>
      exists i | 0 <= i < |store.keys| :: !IsExpired(store.table[store.keys[i]], MapDataExpiry, now)
  {
    var r := LookupAsWritten(store.table, store.keys, bounds, now);
    LookupAsWrittenMiss(store.table, store.keys, bounds, now);
    if r.Hit? {
      LookupAsWrittenHit(store.table, store.keys, bounds, now);
    }
    if r.Raises? {
      LookupAsWrittenRaises(store.table, store.keys, bounds, now);
    }
    RouteOnlyServesNothing(store, bounds, now);
    if i :| 0 <= i < |store.keys| && !IsExpired(store.table[store.keys[i]], MapDataExpiry, now) {
      assert store.keys[i].RouteKey?;
      assert RaisesOn(store.keys[i], store.table[store.keys[i]], now);
    }
  }

  /**
   * The box an entry evidently stands for: the bounds stored with it, which every write
   * records, and otherwise the box its key names.
   */
  function CoveredBox(k: MapKey, e: Entry<MapData>): (r: Option<Box>)
    ensures e.bounds.Some? ==> r == e.bounds
    ensures r.None? ==> e.bounds.None? && k.RouteKey?
  {
    if e.bounds.Some? then e.bounds else BoxOfKey(k)
  }

  /** The corrected test: an unexpired entry whose covered box contains or overlaps the query. */
  predicate ServesByCover(k: MapKey, e: Entry<MapData>, bounds: Box, now: int) {
    && !IsExpired(e, MapDataExpiry, now)
    && match CoveredBox(k, e)
       case Some(cached) => BoundsContains(cached, bounds) || BoundsOverlap(cached, bounds)
       case None => false
  }

  /** The corrected lookup: the data of the first entry of `keys` that passes `ServesByCover`. */
  function FirstCovering(t: map<MapKey, Entry<MapData>>, keys: seq<MapKey>, bounds: Box, now: int): (r: Option<MapData>)
    requires forall i | 0 <= i < |keys| :: keys[i] in t
    ensures r.None? <==> forall i | 0 <= i < |keys| :: !ServesByCover(keys[i], t[keys[i]], bounds, now)
    ensures r.Some? ==> exists i | 0 <= i < |keys| ::
      && ServesByCover(keys[i], t[keys[i]], bounds, now) && r.value == t[keys[i]].data
      && forall j | 0 <= j < i :: !ServesByCover(keys[j], t[keys[j]], bounds, now)
  {
    if keys == [] then None
    else if ServesByCover(keys[0], t[keys[0]], bounds, now) then Some(t[keys[0]].data)
    else
      var r := FirstCovering(t, keys[1..], bounds, now);
      assert forall i | 1 <= i < |keys| :: keys[i] == keys[1..][i - 1];
      r
  }

  /**
   * With the corrected test, the program's own route write serves a later bounds lookup at
   * once for any query box inside the bounds it stored.
   */
  lemma RouteWriteServesCoveredRequest(store: OMap<MapKey, Entry<MapData>>, start: Coord, end: Coord,
                                       stored: Box, data: MapData, now: int, query: Box)
    requires store.Valid() && |store.keys| <= MaxMapDataEntries
    requires forall k | k in store.table :: store.table[k].timestamp <= now
    requires BoundsContains(stored, query)
    ensures var w := Evict(store.Set(RouteBasedKey(start, end), Entry(data, now, Some(stored), true)), MaxMapDataEntries);
      w.Valid() && FirstCovering(w.table, w.keys, query, now).Some?
  {
    var key := RouteBasedKey(start, end);
    var e := Entry(data, now, Some(stored), true);
    var w := Evict(store.Set(key, e), MaxMapDataEntries);
    SetThenLookup(store, MaxMapDataEntries, key, e, MapDataExpiry);
    EvictValid(store.Set(key, e), MaxMapDataEntries);
    assert key in w.table && w.table[key] == e;
    var i :| 0 <= i < |w.keys| && w.keys[i] == key;
    assert ServesByCover(w.keys[i], w.table[w.keys[i]], query, now);
  }

  /** In the same situation no entry of a store that held only route entries answers, and the
      lookup as written never returns data. */
  lemma RouteWriteNeverServesBounds(store: OMap<MapKey, Entry<MapData>>, start: Coord, end: Coord,
                                    stored: Box, data: MapData, now: int, query: Box)
    requires store.Valid() && RouteOnly(store)
    ensures var w := Evict(store.Set(RouteBasedKey(start, end), Entry(data, now, Some(stored), true)), MaxMapDataEntries);
      forall i | 0 <= i < |w.keys| :: !ServesAt(w, i, query, now)
    ensures var w := Evict(store.Set(RouteBasedKey(start, end), Entry(data, now, Some(stored), true)), MaxMapDataEntries);
      w.Valid() && !LookupAsWritten(w.table, w.keys, query, now).Hit?
  {
    var written := store.Set(RouteBasedKey(start, end), Entry(data, now, Some(stored), true));
    var w := Evict(written, MaxMapDataEntries);
    RouteWriteKeepsRouteOnly(store, start, end, Entry(data, now, Some(stored), true), MaxMapDataEntries);
    EvictValid(written, MaxMapDataEntries);
    RouteOnlyServesNothing(w, query, now);
    RouteOnlyLookupRaises(w, query, now);
  }

  /**
   * The program's own sequence of writes and reads: a route written into a route-only store
   * within its limit, with no entry stamped later than now, makes the next bounds lookup
   * at the same time throw, whatever bounds were stored and whatever box is asked for.
   */
  lemma RouteWriteThenLookupRaises(store: OMap<MapKey, Entry<MapData>>, start: Coord, end: Coord,
                                   stored: Box, data: MapData, now: int, query: Box)
    requires store.Valid() && RouteOnly(store) && |store.keys| <= MaxMapDataEntries
    requires forall k | k in store.table :: store.table[k].timestamp <= now
    ensures var w := Evict(store.Set(RouteBasedKey(start, end), Entry(data, now, Some(stored), true)), MaxMapDataEntries);
      w.Valid() && LookupAsWritten(w.table, w.keys, query, now) == Raises
  {
    var key := RouteBasedKey(start, end);
    var e := Entry(data, now, Some(stored), true);
    var w := Evict(store.Set(key, e), MaxMapDataEntries);
    SetThenLookup(store, MaxMapDataEntries, key, e, MapDataExpiry);
    EvictValid(store.Set(key, e), MaxMapDataEntries);
    RouteWriteKeepsRouteOnly(store, start, end, e, MaxMapDataEntries);
    assert key in w.table && w.table[key] == e;
    var i :| 0 <= i < |w.keys| && w.keys[i] == key;
    assert !IsExpired(w.table[w.keys[i]], MapDataExpiry, now);
    RouteOnlyLookupRaises(w, query, now);
  }

  /** A cached box that contains a query box of positive area also covers 80% of it. */
  lemma ContainsImpliesOverlap(cached: Box, target: Box)
    requires target.south < target.north && target.west < target.east
    requires BoundsContains(cached, target)
    ensures BoundsOverlap(cached, target)
  {
    var o := Intersection(cached, target);
    assert o == target;
    ProductPositive(target.north - target.south, target.east - target.west);
  }

  /** A rounded coordinate is within half a hundredth of a degree of the original. */
  lemma HundredthsClose(x: real)
    ensures x - 0.005 < Hundredths(x) as real / 100.0 <= x + 0.005
  {
    var h := Hundredths(x) as real;
    assert x * 100.0 - 0.5 < h <= x * 100.0 + 0.5;
    assert h / 100.0 * 100.0 == h;
  }

  /** The box read back from a bounds key lies within 0.005 degrees of the box it was made from, side by side. */
  lemma MapDataKeyPrecision(b: Box)
    ensures BoxOfKey(MapDataKey(b)).Some?
    ensures var c := BoxOfKey(MapDataKey(b)).value;
      && b.south - 0.005 < c.south <= b.south + 0.005
      && b.west - 0.005 < c.west <= b.west + 0.005
      && b.north - 0.005 < c.north <= b.north + 0.005
      && b.east - 0.005 < c.east <= b.east + 0.005
  {
    HundredthsClose(b.south);
    HundredthsClose(b.west);
    HundredthsClose(b.north);
    HundredthsClose(b.east);
  }

  /** The route endpoints read back from a route key lie within 0.005 degrees of the originals. */
  lemma RouteBasedKeyPrecision(s: Coord, e: Coord)
    ensures var k := RouteBasedKey(s, e);
      && s.lat - 0.005 < k.startLat as real / 100.0 <= s.lat + 0.005
      && s.lon - 0.005 < k.startLon as real / 100.0 <= s.lon + 0.005
      && e.lat - 0.005 < k.endLat as real / 100.0 <= e.lat + 0.005
      && e.lon - 0.005 < k.endLon as real / 100.0 <= e.lon + 0.005
  {
    HundredthsClose(s.lat);
    HundredthsClose(s.lon);
    HundredthsClose(e.lat);
    HundredthsClose(e.lon);
  }

  /** A whole number of hundredths rounds back to itself. */
  lemma HundredthsOfHundredths(n: int)
    ensures Hundredths(n as real / 100.0) == n
  {
    assert n as real / 100.0 * 100.0 == n as real;
  }

  /** Reading a bounds key as a box and keying that box again gives the same key. */
  lemma BoundsKeyRoundTrip(key: MapKey)
    requires key.BoundsKey?
    ensures MapDataKey(BoxOfKey(key).value) == key
  {
    HundredthsOfHundredths(key.south);
    HundredthsOfHundredths(key.west);
    HundredthsOfHundredths(key.north);
    HundredthsOfHundredths(key.east);
  }

  // ---------------------------------------------------------------------------
  // The manager

  /** A map-data entry agrees with its key: it carries its box, a bounds key is the rounded
      form of that box, and exactly the route entries are marked as route entries. */
  predicate KeyedBy(k: MapKey, e: Entry<MapData>) {
    && e.bounds.Some?
    && (e.routeKey <==> k.RouteKey?)
    && (k.BoundsKey? ==> k == MapDataKey(e.bounds.value))
  }

  ghost predicate AllKeyed(store: OMap<MapKey, Entry<MapData>>) {
    forall k | k in store.table :: KeyedBy(k, store.table[k])
  }

  /** Geocoding entries carry neither a box nor the route mark. */
  ghost predicate AllPlain(store: OMap<string, Entry<Coord>>) {
    forall k | k in store.table :: store.table[k].bounds.None? && !store.table[k].routeKey
  }

  /** Writing an entry and cutting the store back keeps every entry agreeing with its key. */
  lemma EvictAfterSetKeyed(store: OMap<MapKey, Entry<MapData>>, key: MapKey, e: Entry<MapData>, maxEntries: nat)
    requires store.Valid() && AllKeyed(store) && KeyedBy(key, e)
    ensures AllKeyed(Evict(store.Set(key, e), maxEntries))
  {
    var stored := store.Set(key, e);
    var r := Evict(stored, maxEntries);
    EvictValid(stored, maxEntries);
    forall k | k in r.table ensures KeyedBy(k, r.table[k]) {
      assert r.table[k] == stored.table[k];
      if k != key {
        assert stored.table[k] == store.table[k];
      }
    }
  }

  lemma EvictAfterSetPlain(store: OMap<string, Entry<Coord>>, key: string, e: Entry<Coord>, maxEntries: nat)
    requires store.Valid() && AllPlain(store) && e.bounds.None? && !e.routeKey
    ensures AllPlain(Evict(store.Set(key, e), maxEntries))
  {
    var stored := store.Set(key, e);
    var r := Evict(stored, maxEntries);
    EvictValid(stored, maxEntries);
    forall k | k in r.table ensures r.table[k].bounds.None? && !r.table[k].routeKey {
      assert r.table[k] == stored.table[k];
      if k != key {
        assert stored.table[k] == store.table[k];
      }
    }
  }

  /** Purging a store keeps it within its limit and keeps the surviving entries as they were. */
  lemma UnexpiredSmaller<K, D>(cache: OMap<K, Entry<D>>, expiry: int, now: int)
    requires cache.Valid()
    ensures Unexpired(cache, expiry, now).Valid()
    ensures |Unexpired(cache, expiry, now).keys| <= |cache.keys|
    ensures forall k | k in Unexpired(cache, expiry, now).table :: k in cache.table && Unexpired(cache, expiry, now).table[k] == cache.table[k]
  {
    UnexpiredContents(cache, expiry, now);
  }

  /** A write of the newest entry into a store within its limit, followed by the cut. */
  lemma WriteThenRead<K, D>(cache: OMap<K, Entry<D>>, maxEntries: nat, key: K, e: Entry<D>, expiry: int)
    requires cache.Valid() && |cache.keys| <= maxEntries && maxEntries > 0 && expiry >= 0
    ensures (forall k | k in cache.table :: cache.table[k].timestamp <= e.timestamp) ==>
      Lookup(Evict(cache.Set(key, e), maxEntries), key, expiry, e.timestamp) == Some(e.data)
  {
    if forall k | k in cache.table :: cache.table[k].timestamp <= e.timestamp {
      SetThenLookup(cache, maxEntries, key, e, expiry);
    }
  }

  /** A map-data write followed by the cut keeps the store valid, within 20 entries, and keyed, and is read back at once. */
  lemma MapDataWrite(store: OMap<MapKey, Entry<MapData>>, key: MapKey, e: Entry<MapData>)
    requires store.Valid() && |store.keys| <= MaxMapDataEntries && AllKeyed(store) && KeyedBy(key, e)
    ensures var r := Evict(store.Set(key, e), MaxMapDataEntries);
      && r.Valid() && |r.keys| <= MaxMapDataEntries && AllKeyed(r)
      && ((forall k | k in store.table :: store.table[k].timestamp <= e.timestamp) ==>
            Lookup(r, key, MapDataExpiry, e.timestamp) == Some(e.data))
  {
    var stored := store.Set(key, e);
    WriteThenRead(store, MaxMapDataEntries, key, e, MapDataExpiry);
    EvictValid(stored, MaxMapDataEntries);
    EvictSize(stored, MaxMapDataEntries);
    EvictAfterSetKeyed(store, key, e, MaxMapDataEntries);
  }

  /** The same for a geocoding write, within 100 entries and with plain entries. */
  lemma GeocodingWrite(store: OMap<string, Entry<Coord>>, key: string, e: Entry<Coord>)
    requires store.Valid() && |store.keys| <= MaxGeocodingEntries && AllPlain(store)
    requires e.bounds.None? && !e.routeKey
    ensures var r := Evict(store.Set(key, e), MaxGeocodingEntries);
      && r.Valid() && |r.keys| <= MaxGeocodingEntries && AllPlain(r)
      && ((forall k | k in store.table :: store.table[k].timestamp <= e.timestamp) ==>
            Lookup(r, key, GeocodingExpiry, e.timestamp) == Some(e.data))
  {
    var stored := store.Set(key, e);
    WriteThenRead(store, MaxGeocodingEntries, key, e, GeocodingExpiry);
    EvictValid(stored, MaxGeocodingEntries);
    EvictSize(stored, MaxGeocodingEntries);
    EvictAfterSetPlain(store, key, e, MaxGeocodingEntries);
  }

  /** `getStats()`. */
  datatype Stats = Stats(geocoding: nat, mapData: nat)

  /**
   * `CacheManager`: the two stores. Every write cuts its store back to its limit, so both
   * stay within their limits, and every map-data entry agrees with its key.
   */
  class CacheManager {
    var geocodingCache: OMap<string, Entry<Coord>>
    var mapDataCache: OMap<MapKey, Entry<MapData>>

    ghost predicate Valid()
      reads this
    {
      && geocodingCache.Valid() && mapDataCache.Valid()
      && |geocodingCache.keys| <= MaxGeocodingEntries
      && |mapDataCache.keys| <= MaxMapDataEntries
      && AllPlain(geocodingCache)
      && AllKeyed(mapDataCache)
    }

    /** Both stores start empty (restoring the geocoding store from storage is not modelled). */
    constructor ()
      ensures Valid()
      ensures geocodingCache.keys == [] && geocodingCache.table == map[]
      ensures mapDataCache.keys == [] && mapDataCache.table == map[]
    {
      geocodingCache := OMap([], map[]);
      mapDataCache := OMap([], map[]);
    }

    /** `getCachedGeocode(address)`: the coordinates stored under the normalised address, unless expired. */
    function GetCachedGeocode(address: string, now: int): (r: Option<Coord>)
      reads this
      ensures var key := GeocodingKey(address);
        r.Some? <==> key in geocodingCache.table && !IsExpired(geocodingCache.table[key], GeocodingExpiry, now)
      ensures r.Some? ==> r.value == geocodingCache.table[GeocodingKey(address)].data
    {
      Lookup(geocodingCache, GeocodingKey(address), GeocodingExpiry, now)
    }

    /** `setCachedGeocode(address, coords)`: write under the normalised address, then cut back to 100. */
    method SetCachedGeocode(address: string, coords: Coord, now: int)
      requires Valid()
      modifies this
      ensures Valid()
      ensures geocodingCache ==
        Evict(old(geocodingCache).Set(GeocodingKey(address), Entry(coords, now, None, false)), MaxGeocodingEntries)
      ensures mapDataCache == old(mapDataCache)
      ensures (forall k | k in old(geocodingCache).table :: old(geocodingCache).table[k].timestamp <= now) ==>
        GetCachedGeocode(address, now) == Some(coords)
    {
      var key := GeocodingKey(address);
      var e := Entry(coords, now, None, false);
      var stored := geocodingCache.Set(key, e);
      GeocodingWrite(geocodingCache, key, e);
      geocodingCache := EnforceLimit(stored, MaxGeocodingEntries);
    }

    /**
     * `getCachedMapData(bounds)`: the entries in insertion order, expired ones skipped. The
     * first whose key names a box that contains `bounds` or covers 80% of it gives its data;
     * the first whose key names no box, a route key, makes the call throw.
     */
    method GetCachedMapData(bounds: Box, now: int) returns (r: MapLookup)
      requires mapDataCache.Valid()
      ensures r == LookupAsWritten(mapDataCache.table, mapDataCache.keys, bounds, now)
      ensures r.Miss? <==> forall i | 0 <= i < |mapDataCache.keys| ::
        !ServesAt(mapDataCache, i, bounds, now) && !RaisesAt(mapDataCache, i, now)
      ensures r.Hit? ==> exists i | 0 <= i < |mapDataCache.keys| ::
        && ServesAt(mapDataCache, i, bounds, now)
        && r.data == mapDataCache.table[mapDataCache.keys[i]].data
        && forall j | 0 <= j < i :: !ServesAt(mapDataCache, j, bounds, now)
      ensures RouteOnly(mapDataCache) ==> !r.Hit?
      ensures RouteOnly(mapDataCache) ==> (r.Raises? <==>
        exists i | 0 <= i < |mapDataCache.keys| :: !IsExpired(mapDataCache.table[mapDataCache.keys[i]], MapDataExpiry, now))
    {
      r := ScanEntries(mapDataCache.table, mapDataCache.keys, bounds, now);
      LookupAsWrittenAt(mapDataCache, bounds, now);
      if RouteOnly(mapDataCache) {
        RouteOnlyLookupRaises(mapDataCache, bounds, now);
      }
    }

    /** `getCachedMapDataByRoute(startCoords, endCoords)`: the entry under the rounded route key, unless expired. */
    function GetCachedMapDataByRoute(start: Coord, end: Coord, now: int): (r: Option<MapData>)
      reads this
      ensures var key := RouteBasedKey(start, end);
        r.Some? <==> key in mapDataCache.table && !IsExpired(mapDataCache.table[key], MapDataExpiry, now)
      ensures r.Some? ==> r.value == mapDataCache.table[RouteBasedKey(start, end)].data
    {
      Lookup(mapDataCache, RouteBasedKey(start, end), MapDataExpiry, now)
    }

    /** `setCachedMapDataByRoute(startCoords, endCoords, bounds, data)`: write a marked route entry, then cut back to 20. */
    method SetCachedMapDataByRoute(start: Coord, end: Coord, bounds: Box, data: MapData, now: int)
      requires Valid()
      modifies this
      ensures Valid()
      ensures mapDataCache ==
        Evict(old(mapDataCache).Set(RouteBasedKey(start, end), Entry(data, now, Some(bounds), true)), MaxMapDataEntries)
      ensures geocodingCache == old(geocodingCache)
      ensures (forall k | k in old(mapDataCache).table :: old(mapDataCache).table[k].timestamp <= now) ==>
        GetCachedMapDataByRoute(start, end, now) == Some(data)
      ensures old(RouteOnly(mapDataCache)) ==> RouteOnly(mapDataCache)
    {
      var key := RouteBasedKey(start, end);
      var e := Entry(data, now, Some(bounds), true);
      var stored := mapDataCache.Set(key, e);
      MapDataWrite(mapDataCache, key, e);
      if RouteOnly(mapDataCache) {
        RouteWriteKeepsRouteOnly(mapDataCache, start, end, e, MaxMapDataEntries);
      }
      mapDataCache := EnforceLimit(stored, MaxMapDataEntries);
    }

    /** `setCachedMapData(bounds, data)`: write under the rounded bounds key, then cut back to 20. */
    method SetCachedMapData(bounds: Box, data: MapData, now: int)
      requires Valid()
      modifies this
      ensures Valid()
      ensures mapDataCache ==
        Evict(old(mapDataCache).Set(MapDataKey(bounds), Entry(data, now, Some(bounds), false)), MaxMapDataEntries)
      ensures geocodingCache == old(geocodingCache)
      ensures (forall k | k in old(mapDataCache).table :: old(mapDataCache).table[k].timestamp <= now) ==>
        Lookup(mapDataCache, MapDataKey(bounds), MapDataExpiry, now) == Some(data)
    {
      var key := MapDataKey(bounds);
      var e := Entry(data, now, Some(bounds), false);
      var stored := mapDataCache.Set(key, e);
      MapDataWrite(mapDataCache, key, e);
      mapDataCache := EnforceLimit(stored, MaxMapDataEntries);
    }

    /** `cleanup()`: delete the expired entries of both stores. */
    method Cleanup(now: int)
      requires Valid()
      modifies this
      ensures Valid()
      ensures geocodingCache == Unexpired(old(geocodingCache), GeocodingExpiry, now)
      ensures mapDataCache == Unexpired(old(mapDataCache), MapDataExpiry, now)
    {
      UnexpiredSmaller(geocodingCache, GeocodingExpiry, now);
      UnexpiredSmaller(mapDataCache, MapDataExpiry, now);
      geocodingCache := Purge(geocodingCache, GeocodingExpiry, now);
      mapDataCache := Purge(mapDataCache, MapDataExpiry, now);
    }

    /** `getStats()`: the number of entries in each store. */
    function GetStats(): (r: Stats)
      requires Valid()
      reads this
      ensures r.geocoding == |geocodingCache.table| <= MaxGeocodingEntries
      ensures r.mapData == |mapDataCache.table| <= MaxMapDataEntries
    {
      geocodingCache.SizeIsCount();
      mapDataCache.SizeIsCount();
      Stats(|geocodingCache.keys|, |mapDataCache.keys|)
    }

    /** `clearAll()`: both stores emptied. */
    method ClearAll()
      requires Valid()
      modifies this
      ensures Valid()
      ensures geocodingCache.keys == [] && geocodingCache.table == map[]
      ensures mapDataCache.keys == [] && mapDataCache.table == map[]
    {
      geocodingCache := OMap([], map[]);
      mapDataCache := OMap([], map[]);
    }
  }
}
