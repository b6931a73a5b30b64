/** Turning one image's detector output into vehicle geometries
    (`collect_car_geoms`). */
module Detections {
  import opened Wrappers
  import opened Geometry
  import opened StallTable

  /** The labels that count as a vehicle. */
  const CarClasses: set<string> := {"car", "truck", "bus", "motorbike", "bicycle", "van"}

  /** The detector's result for one image: `names` maps class ids to labels,
      detection `i` has class `classes[i]` and box `boxes[i]`, and `masks` is
      the segmentation output when the model has one, with a contour per
      detection (a contour may be missing). */
  datatype Batch = Batch(
    names: map<int, string>,
    classes: seq<int>,
    boxes: seq<Box>,
    masks: Option<seq<Option<seq<Point>>>>)

  /** The `KeyError` of a class id that `names` lacks; it is not caught. */
  datatype DetectError = UnknownClass(classId: int)

  function Min(a: nat, b: nat): nat
  {
    if a <= b then a else b
  }

  /** How many detections the loop visits: `zip` stops at the shorter list,
      and the lists zipped depend on whether masks are present. */
  function Pairs(b: Batch): nat
  {
    match b.masks
    case Some(segs) => Min(|segs|, |b.classes|)
    case None => Min(|b.boxes|, |b.classes|)
  }

  datatype DetectionOutcome = Dropped | Kept(geom: Geom) | Failed(error: DetectError)

  /** What the loop does with detection `i`. */
  function DetectionStep(lib: Shapely, b: Batch, minCarArea: real, i: nat): DetectionOutcome
    requires i < Pairs(b)
  {
    var cid := b.classes[i];
    if cid !in b.names then Failed(UnknownClass(cid))
    else if b.names[cid] !in CarClasses then Dropped
    else
      match b.masks
      case Some(segs) =>
        if segs[i].None? || |segs[i].value| < 3 then Dropped
        else
          var poly := lib.polygon(segs[i].value);
          if lib.isValid(poly) && lib.area(poly) >= minCarArea then Kept(poly) else Dropped
      case None =>
        var poly := BoxToPolygon(lib, b.boxes[i]);
        if lib.area(poly) >= minCarArea then Kept(poly) else Dropped
  }

  /** The geometries kept from the first `n` detections. */
  function Collect(lib: Shapely, b: Batch, minCarArea: real, n: nat): Result<seq<Geom>, DetectError>
    requires n <= Pairs(b)
  {
    if n == 0 then Ok([])
    else
      match Collect(lib, b, minCarArea, n - 1)
      case Err(e) => Err(e)
      case Ok(gs) =>
        match DetectionStep(lib, b, minCarArea, n - 1)
        case Dropped => Ok(gs)
        case Kept(g) => Ok(gs + [g])
        case Failed(e) => Err(e)
  }

  /** `collect_car_geoms`: the two loops over the zipped detections. */
  method CollectCarGeoms(lib: Shapely, b: Batch, minCarArea: real) returns (r: Result<seq<Geom>, DetectError>)
    ensures r == Collect(lib, b, minCarArea, Pairs(b))
  {
    var geoms: seq<Geom> := [];
    var i := 0;
    if b.masks.Some? {
      var segs := b.masks.value;
      while i < Pairs(b)
        invariant i <= Pairs(b)
        invariant Collect(lib, b, minCarArea, i) == Ok(geoms)
      {
        var seg, cid := segs[i], b.classes[i];
        i := i + 1;
        if cid !in b.names {
          CollectErrSticky(lib, b, minCarArea, i, Pairs(b));
          return Err(UnknownClass(cid));
        }
        if b.names[cid] !in CarClasses {
          continue;
        }
        if seg.None? || |seg.value| < 3 {
          continue;
        }
        var poly := lib.polygon(seg.value);
        if lib.isValid(poly) && lib.area(poly) >= minCarArea {
          geoms := geoms + [poly];
        }
      }
    } else {
      while i < Pairs(b)
        invariant i <= Pairs(b)
        invariant Collect(lib, b, minCarArea, i) == Ok(geoms)
      {
        var box, cid := b.boxes[i], b.classes[i];
        i := i + 1;
        if cid !in b.names {
          CollectErrSticky(lib, b, minCarArea, i, Pairs(b));
          return Err(UnknownClass(cid));
        }
        if b.names[cid] !in CarClasses {
          continue;
        }
        var poly := BoxToPolygon(lib, box);
        if lib.area(poly) >= minCarArea {
          geoms := geoms + [poly];
        }
      }
    }
    r := Ok(geoms);
  }

  /** A failure is final: later detections change nothing. */
  lemma {:induction false} CollectErrSticky(lib: Shapely, b: Batch, minCarArea: real, k: nat, n: nat)
    requires k <= n <= Pairs(b) && Collect(lib, b, minCarArea, k).Err?
    ensures Collect(lib, b, minCarArea, n) == Collect(lib, b, minCarArea, k)
  {
    if k < n {
      CollectErrSticky(lib, b, minCarArea, k, n - 1);
    }
  }

  /** Every kept geometry comes from one detection whose label is a vehicle
      class and whose geometry is at least `minCarArea`.  With masks it is the
      polygon of that detection's contour, which has at least 3 points and is
      valid; without masks it is that detection's box rectangle. */
  lemma {:induction false} CollectedGeoms(lib: Shapely, b: Batch, minCarArea: real, n: nat)
    requires n <= Pairs(b) && Collect(lib, b, minCarArea, n).Ok?
    ensures forall g :: g in Collect(lib, b, minCarArea, n).value ==> FromDetection(lib, b, minCarArea, g, n)
  {
    if n > 0 {
      CollectedGeoms(lib, b, minCarArea, n - 1);
      var gs := Collect(lib, b, minCarArea, n - 1).value;
      forall g | g in Collect(lib, b, minCarArea, n).value
        ensures FromDetection(lib, b, minCarArea, g, n)
      {
        if g in gs {
          var i :| 0 <= i < n - 1 && FromVehicle(lib, b, minCarArea, g, i);
          assert FromVehicle(lib, b, minCarArea, g, i);
        } else {
          assert FromVehicle(lib, b, minCarArea, g, n - 1);
        }
      }
    }
  }

  /** `g` is what detection `i` contributes when it is kept. */
  ghost predicate FromVehicle(lib: Shapely, b: Batch, minCarArea: real, g: Geom, i: nat)
    requires i < Pairs(b)
  {
    && b.classes[i] in b.names && b.names[b.classes[i]] in CarClasses
    && lib.area(g) >= minCarArea
    && match b.masks
       case Some(segs) =>
         segs[i].Some? && |segs[i].value| >= 3 && g == lib.polygon(segs[i].value) && lib.isValid(g)
       case None => g == BoxToPolygon(lib, b.boxes[i])
  }

  ghost predicate FromDetection(lib: Shapely, b: Batch, minCarArea: real, g: Geom, n: nat)
    requires n <= Pairs(b)
  {
    exists i :: 0 <= i < n && FromVehicle(lib, b, minCarArea, g, i)
  }

  /** The result is an order-preserving filter: what the first `k` detections
      give is a prefix of what all `n` give, and each detection adds at most
      one geometry. */
  lemma {:induction false} CollectPrefix(lib: Shapely, b: Batch, minCarArea: real, k: nat, n: nat)
    requires k <= n <= Pairs(b) && Collect(lib, b, minCarArea, n).Ok?
    ensures Collect(lib, b, minCarArea, k).Ok?
    ensures Collect(lib, b, minCarArea, k).value <= Collect(lib, b, minCarArea, n).value
    ensures |Collect(lib, b, minCarArea, n).value| <= |Collect(lib, b, minCarArea, k).value| + (n - k)
  {
    if k < n {
      CollectPrefix(lib, b, minCarArea, k, n - 1);
    }
  }

  /** Nothing is lost: a detection that passes every filter is in the
      result of any successful collect that visits it. */
  lemma KeptIsCollected(lib: Shapely, b: Batch, minCarArea: real, i: nat, n: nat)
    requires i < n <= Pairs(b) && Collect(lib, b, minCarArea, n).Ok?
    requires DetectionStep(lib, b, minCarArea, i).Kept?
    ensures DetectionStep(lib, b, minCarArea, i).geom in Collect(lib, b, minCarArea, n).value
  {
    CollectPrefix(lib, b, minCarArea, i + 1, n);
    var gs := Collect(lib, b, minCarArea, i + 1).value;
    assert gs[|gs| - 1] == DetectionStep(lib, b, minCarArea, i).geom;
  }

  /** A detection is kept with geometry `g` exactly when `g` is what it
      contributes as a vehicle: both directions of the filter rest on
      `FromVehicle`. */
  lemma KeptIffFromVehicle(lib: Shapely, b: Batch, minCarArea: real, g: Geom, i: nat)
    requires i < Pairs(b)
    ensures DetectionStep(lib, b, minCarArea, i) == Kept(g) <==> FromVehicle(lib, b, minCarArea, g, i)
  {
  }

  /** Collecting fails exactly when a visited detection has a class id that
      `names` lacks. */
  lemma {:induction false} CollectFailsIffUnknownClass(lib: Shapely, b: Batch, minCarArea: real, n: nat)
    requires n <= Pairs(b)
    ensures Collect(lib, b, minCarArea, n).Err? <==> exists i :: 0 <= i < n && b.classes[i] !in b.names
  {
    if n > 0 {
      CollectFailsIffUnknownClass(lib, b, minCarArea, n - 1);
    }
  }
}
