/** Classifying each loaded stall as occupied or free from its overlap with
    the union of the vehicle geometries, and the run summary. */
module Occupancy {
  import opened Wrappers
  import opened Geometry
  import opened StallTable
  import opened Detections

  /** The tunables `overlap_thresh` and `stall_inset`. */
  datatype Config = Config(overlapThresh: real, stallInset: real)

  /** The floor on the overlap denominator. */
  const Epsilon: real := 0.000001

  datatype Status = Occupied | Free

  /** One entry of `summary["stalls"]`; `overlap` is the unrounded ratio. */
  datatype StallResult = StallResult(stallId: string, status: Status, overlap: real)

  datatype Summary = Summary(image: string, total: nat, stalls: seq<StallResult>, occupied: nat, free: int)

  /** An exception from `intersection`; it is not caught, so it ends the run. */
  datatype ClassifyError = IntersectionFailed(stallId: string)

  /** The union of all vehicle geometries (`unary_union`), or nothing when
      there are no vehicles. */
  function CarsUnion(lib: Shapely, cars: seq<Geom>): Option<Geom>
  {
    if cars == [] then None else Some(lib.union(cars))
  }

  /** The polygon the overlap is measured on: the stall buffered by
      `-inset` when the inset is non-zero and the stall valid, unless the
      buffer raised or came out empty, in which case the stall itself. */
  function InsetPoly(lib: Shapely, poly: Geom, inset: real): (r: Geom)
    ensures !lib.isEmpty(poly) ==> !lib.isEmpty(r)
    ensures r != poly ==> inset != 0.0 && lib.isValid(poly) && lib.buffer(poly, -inset) == Some(r)
    ensures inset != 0.0 && lib.isValid(poly) && lib.buffer(poly, -inset).Some? && !lib.isEmpty(lib.buffer(poly, -inset).value)
      ==> r == lib.buffer(poly, -inset).value
  {
    if inset != 0.0 && lib.isValid(poly) then
      match lib.buffer(poly, -inset)
      case None => poly
      case Some(shrunk) => if lib.isEmpty(shrunk) then poly else shrunk
    else poly
  }

  /** The divisor of the overlap ratio: the stall's area, raised to
      `Epsilon` when smaller. */
  function Denominator(area: real): (d: real)
    ensures d >= area && d >= Epsilon > 0.0
    ensures d == area || d == Epsilon
  {
    if area >= Epsilon then area else Epsilon
  }

  /** The fraction of `poly` covered by the cars; `None` when the
      intersection raises. */
  function Overlap(lib: Shapely, poly: Geom, cars: Option<Geom>): (r: Option<real>)
    ensures cars.None? ==> r == Some(0.0)
  {
    match cars
    case None => Some(0.0)
    case Some(u) =>
      match lib.intersection(poly, u)
      case None => None
      case Some(inter) => Some(lib.area(inter) / Denominator(lib.area(poly)))
  }

  /** `overlap >= overlap_thresh`, the boundary counting as occupied. */
  function StatusOf(overlap: real, thresh: real): Status
  {
    if overlap >= thresh then Occupied else Free
  }

  /** One iteration of the stall loop. */
  function ClassifyStall(lib: Shapely, s: Stall, cars: Option<Geom>, cfg: Config): Result<StallResult, ClassifyError>
  {
    var poly := InsetPoly(lib, s.poly, cfg.stallInset);
    match Overlap(lib, poly, cars)
    case None => Err(IntersectionFailed(s.id))
    case Some(v) => Ok(StallResult(s.id, StatusOf(v, cfg.overlapThresh), v))
  }

  /** The number of entries whose status is occupied. */
  function CountOccupied(entries: seq<StallResult>): (n: nat)
    ensures n <= |entries|
  {
    if entries == [] then 0
    else (if entries[0].status == Occupied then 1 else 0) + CountOccupied(entries[1..])
  }

  /** The number of free entries. */
  function CountFree(entries: seq<StallResult>): nat
  {
    if entries == [] then 0
    else (if entries[0].status == Free then 1 else 0) + CountFree(entries[1..])
  }

  /** The stall loop of `main` and the counts after it. */
  method Classify(lib: Shapely, image: string, stalls: seq<Stall>, cars: seq<Geom>, cfg: Config)
    returns (r: Result<Summary, ClassifyError>)
    ensures r.Ok? <==> forall i :: 0 <= i < |stalls| ==> ClassifyStall(lib, stalls[i], CarsUnion(lib, cars), cfg).Ok?
    ensures r.Ok? ==>
      && r.value.image == image
      && r.value.total == |stalls| == |r.value.stalls|
      && (forall i :: 0 <= i < |stalls| ==> ClassifyStall(lib, stalls[i], CarsUnion(lib, cars), cfg) == Ok(r.value.stalls[i]))
      && r.value.occupied == CountOccupied(r.value.stalls) <= r.value.total
      && r.value.free == r.value.total - r.value.occupied
    ensures r.Err? ==>
      exists i :: 0 <= i < |stalls| && ClassifyStall(lib, stalls[i], CarsUnion(lib, cars), cfg) == Err(r.error)
  {
    var carsUnion := if cars == [] then None else Some(lib.union(cars));
    var entries: seq<StallResult> := [];
    for i := 0 to |stalls|
      invariant |entries| == i
      invariant forall j :: 0 <= j < i ==> ClassifyStall(lib, stalls[j], carsUnion, cfg) == Ok(entries[j])
    {
      var s := stalls[i];
      var stallPoly := s.poly;
      if cfg.stallInset != 0.0 && lib.isValid(stallPoly) {
        var shrunk := lib.buffer(stallPoly, -cfg.stallInset);
        if shrunk.Some? {
          stallPoly := shrunk.value;
          if lib.isEmpty(stallPoly) {
            stallPoly := s.poly;
          }
        }
      }
      var overlap: real;
      if carsUnion.None? {
        overlap := 0.0;
      } else {
        var inter := lib.intersection(stallPoly, carsUnion.value);
        if inter.None? {
          return Err(IntersectionFailed(s.id));
        }
        overlap := lib.area(inter.value) / (if lib.area(stallPoly) >= Epsilon then lib.area(stallPoly) else Epsilon);
      }
      var status := if overlap >= cfg.overlapThresh then Occupied else Free;
      entries := entries + [StallResult(s.id, status, overlap)];
    }
    var occupied := CountOccupied(entries);
    r := Ok(Summary(image, |stalls|, entries, occupied, |stalls| - occupied));
  }

  /** `free` is the number of free entries, so occupied and free add up to
      the total. */
  lemma {:induction false} FreeCountsFree(entries: seq<StallResult>)
    ensures CountOccupied(entries) + CountFree(entries) == |entries|
  {
    if entries != [] {
      FreeCountsFree(entries[1..]);
    }
  }

  /** With no vehicles every stall has overlap exactly 0, and it is free
      exactly when the threshold is positive. */
  lemma NoCarsOverlapZero(lib: Shapely, s: Stall, cfg: Config)
    ensures ClassifyStall(lib, s, CarsUnion(lib, []), cfg).Ok?
    ensures var e := ClassifyStall(lib, s, CarsUnion(lib, []), cfg).value;
      e.overlap == 0.0 && (e.status == Free <==> cfg.overlapThresh > 0.0)
  {
  }

  /** The overlap does not depend on the threshold, and raising the threshold
      never turns a free stall occupied. */
  lemma ThresholdMonotone(lib: Shapely, s: Stall, cars: Option<Geom>, cfg: Config, higher: real)
    requires cfg.overlapThresh <= higher
    ensures var lo, hi := ClassifyStall(lib, s, cars, cfg), ClassifyStall(lib, s, cars, cfg.(overlapThresh := higher));
      && lo.Ok? == hi.Ok?
      && (lo.Ok? ==> lo.value.overlap == hi.value.overlap)
      && (lo.Ok? && lo.value.status == Free ==> hi.value.status == Free)
  {
  }

  /** An overlap exactly at the threshold counts as occupied. */
  lemma ThresholdInclusive(lib: Shapely, s: Stall, cars: Option<Geom>, cfg: Config)
    requires ClassifyStall(lib, s, cars, cfg).Ok?
    ensures var e := ClassifyStall(lib, s, cars, cfg).value;
      e.status == Occupied <==> e.overlap >= cfg.overlapThresh
  {
  }

  /** When the inset comes out empty, the overlap is measured on the
      original stall polygon. */
  lemma InsetFallback(lib: Shapely, s: Stall, cars: Option<Geom>, cfg: Config)
    requires cfg.stallInset != 0.0 && lib.isValid(s.poly)
    requires lib.buffer(s.poly, -cfg.stallInset).Some? && lib.isEmpty(lib.buffer(s.poly, -cfg.stallInset).value)
    ensures ClassifyStall(lib, s, cars, cfg) == ClassifyStall(lib, s, cars, cfg.(stallInset := 0.0))
  {
  }

  /** If the library's areas are never negative and an intersection is never
      larger than the polygon it cuts, the overlap lies in [0, 1]. */
  lemma OverlapInUnitRange(lib: Shapely, s: Stall, cars: Option<Geom>, cfg: Config)
    requires AreasNonNegative(lib)
    requires IntersectionWithin(lib, InsetPoly(lib, s.poly, cfg.stallInset))
    requires ClassifyStall(lib, s, cars, cfg).Ok?
    ensures 0.0 <= ClassifyStall(lib, s, cars, cfg).value.overlap <= 1.0
  {
    var poly := InsetPoly(lib, s.poly, cfg.stallInset);
    if cars.Some? {
      var inter := lib.intersection(poly, cars.value).value;
      var a, d := lib.area(inter), Denominator(lib.area(poly));
      assert 0.0 <= a <= d;
      DivideWithin(a, d);
    }
  }

  lemma DivideWithin(a: real, d: real)
    requires 0.0 <= a <= d && d > 0.0
    ensures 0.0 <= a / d <= 1.0
  {
    var q := a / d;
    assert q * d == a;
  }

  datatype RunError =
    | LoadFailed(loadError: LoadError)
    | DetectFailed(detectError: DetectError)
    | ClassifyFailed(classifyError: ClassifyError)

  /** The decision part of `main`: load the stalls, collect the vehicle
      geometries, classify. */
  method Run(lib: Shapely, image: string, rows: seq<Row>, batch: Batch, minCarArea: real, cfg: Config)
    returns (r: Result<Summary, RunError>)
    ensures Load(lib, rows).Err? ==> r == Err(LoadFailed(Load(lib, rows).error))
    ensures Load(lib, rows).Ok? && Collect(lib, batch, minCarArea, Pairs(batch)).Err? ==>
      r == Err(DetectFailed(Collect(lib, batch, minCarArea, Pairs(batch)).error))
    ensures r.Ok? <==>
      && Load(lib, rows).Ok? && Collect(lib, batch, minCarArea, Pairs(batch)).Ok?
      && forall i :: 0 <= i < |Load(lib, rows).value.stalls| ==>
           ClassifyStall(lib, Load(lib, rows).value.stalls[i], CarsUnion(lib, Collect(lib, batch, minCarArea, Pairs(batch)).value), cfg).Ok?
    ensures Load(lib, rows).Ok? && Collect(lib, batch, minCarArea, Pairs(batch)).Ok? && r.Err? ==>
      && r.error.ClassifyFailed?
      && exists i :: 0 <= i < |Load(lib, rows).value.stalls| &&
           ClassifyStall(lib, Load(lib, rows).value.stalls[i], CarsUnion(lib, Collect(lib, batch, minCarArea, Pairs(batch)).value), cfg) == Err(r.error.classifyError)
    ensures r.Ok? ==>
      && r.value.image == image
      && r.value.occupied == CountOccupied(r.value.stalls)
      && var stalls := Load(lib, rows).value.stalls;
         |r.value.stalls| == |stalls| &&
         forall i :: 0 <= i < |stalls| ==>
           ClassifyStall(lib, stalls[i], CarsUnion(lib, Collect(lib, batch, minCarArea, Pairs(batch)).value), cfg) == Ok(r.value.stalls[i])
    ensures r.Ok? ==>
      && Load(lib, rows).Ok? && Collect(lib, batch, minCarArea, Pairs(batch)).Ok?
      && var stalls := Load(lib, rows).value.stalls;
         && r.value.total == |stalls| == |r.value.stalls|
         && (forall i :: 0 <= i < |stalls| ==> r.value.stalls[i].stallId == stalls[i].id)
         && r.value.occupied + r.value.free == r.value.total
         && (Collect(lib, batch, minCarArea, Pairs(batch)).value == [] ==>
               forall i :: 0 <= i < |stalls| ==> r.value.stalls[i].overlap == 0.0)
  {
    var loaded := LoadStallsCsv(lib, rows);
    if loaded.Err? {
      return Err(LoadFailed(loaded.error));
    }
    var cars := CollectCarGeoms(lib, batch, minCarArea);
    if cars.Err? {
      return Err(DetectFailed(cars.error));
    }
    var summary := Classify(lib, image, loaded.value.stalls, cars.value, cfg);
    if summary.Err? {
      return Err(ClassifyFailed(summary.error));
    }
    r := Ok(summary.value);
  }
}
