/**
 * The little plane geometry the reconciliation needs. Buffering a geometry and
 * taking its envelope always yields an axis-aligned rectangle, so every OSM
 * geometry is represented here by that rectangle; a Code-Point Open centroid is
 * a point.
 */
module Geo {

  datatype Point = Point(x: real, y: real)

  /** An envelope: the axis-aligned box [minX, maxX] x [minY, maxY]. */
  datatype Rect = Rect(minX: real, minY: real, maxX: real, maxY: real)

  /**
   * Shapely's `within` for a point and a polygon: the point lies in the
   * polygon's interior. For a rectangle that is the open box, so a point on
   * the boundary is not within it.
   */
  predicate Within(p: Point, r: Rect) {
    r.minX < p.x < r.maxX && r.minY < p.y < r.maxY
  }
}
