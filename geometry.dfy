/** The planar-geometry library (shapely) that the occupancy engine delegates
    every geometric question to. Its algorithms are foreign code and are not
    modelled: a geometry is an abstract value and each library call used by the
    engine is an uninterpreted function collected in one `Shapely` record.
    Facts about those functions are never assumed globally; the few lemmas that
    need one say so in their `requires`. */
module Geometry {
  import opened Wrappers

  /** A point in image-pixel coordinates. */
  type Point = (real, real)

  /** A shapely geometry (Polygon, MultiPolygon, GeometryCollection, ...). */
  type Geom(!new)

  /** What `geom_type` and `hasattr(g, "geoms")` tell about a geometry. */
  datatype Shape =
    | PolygonShape                    // geom_type == "Polygon"
    | CollectionShape(parts: seq<Geom>) // a multi-part geometry, its `.geoms`
    | OtherShape                      // a line, a point, ...: no `.geoms`

  /** The library calls the engine makes.  `None` from `buffer` or
      `intersection` stands for the call raising an exception. */
  datatype Shapely = Shapely(
    polygon: seq<Point> -> Geom,          // Polygon(pts)
    isValid: Geom -> bool,                // g.is_valid
    isEmpty: Geom -> bool,                // g.is_empty
    area: Geom -> real,                   // g.area
    shape: Geom -> Shape,                 // g.geom_type / g.geoms
    hasMakeValid: bool,                   // shapely.validation.make_valid imported
    makeValid: Geom -> Geom,              // make_valid(g)
    buffer: (Geom, real) -> Option<Geom>, // g.buffer(d)
    union: seq<Geom> -> Geom,             // unary_union(gs)
    intersection: (Geom, Geom) -> Option<Geom> // a.intersection(b)
  )

  /** Assumption about the library: areas are never negative. */
  ghost predicate AreasNonNegative(lib: Shapely)
  {
    forall g :: lib.area(g) >= 0.0
  }

  /** Assumption about the library: the intersection of `a` with anything
      is no larger than `a`. */
  ghost predicate IntersectionWithin(lib: Shapely, a: Geom)
  {
    forall b :: lib.intersection(a, b).Some? ==>
      lib.area(lib.intersection(a, b).value) <= lib.area(a)
  }
}
