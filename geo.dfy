/**
 * Coordinates and bounding boxes shared by the graph builder, the spatial index,
 * the A* worker and the cache. Great-circle distance is not computed here: every
 * operation that needs it takes it as a parameter `dist`.
 */
module Geo {
  /** A latitude/longitude pair in degrees. */
  datatype Coord = Coord(lat: real, lon: real)

  /** A south/west/north/east bounding box in degrees. */
  datatype Box = Box(south: real, west: real, north: real, east: real)

  /** The great-circle distance in metres, supplied by the caller. */
  type Distance = (Coord, Coord) -> real

  function Min(a: real, b: real): real { if a <= b then a else b }
  function Max(a: real, b: real): real { if a >= b then a else b }
}
