# Parking stall occupancy: a Dafny model of the decision core

This project models the part of the parking occupancy detector that decides things. It covers:

- how the stall table is loaded: the polygon text of each row is parsed, invalid polygons are repaired, rows are skipped, and stall ids are synthesised;
- how one image's detections become vehicle geometries, from segmentation contours or from bounding boxes;
- how each stall is classified as occupied or free: the stall is inset, its overlap ratio against the union of all vehicles is computed, and the ratio is compared with the threshold, followed by the run summary;
- the interactive labelling tool: an editor whose state (the committed stalls and the polygon being drawn) changes with mouse clicks and with the keys `n`, `u`, `s` and `q`, and the CSV that `s` writes. That file is proved to load back through the stall table parser.

The planar-geometry library is modelled as a record, `Geometry.Shapely`, made of uninterpreted operations over an abstract geometry type: building a polygon, validity, emptiness, area, geometry type, `make_valid`, `buffer`, union and intersection.

- Every result about geometry holds for any such library.
- `buffer` and `intersection`, whose exceptions the source handles or lets end the run, return an `Option`, with `None` for the exception. The other operations, building a polygon included, are total; see "## Left out".
- Where a bound depends on the library, the lemma states the library fact it needs as a `requires`. `OverlapInUnitRange`, for example, requires that areas are never negative and that an intersection is never larger than the polygon it cuts.

Exceptions the source does not catch are modelled as `Err` results that end the whole operation:

- a malformed coordinate in the stall table (`ValueError` from `_parse_xy`);
- a class id missing from the detector's `names` (`KeyError`);
- an intersection that raises.

Exceptions the source catches are modelled by the fallback it takes.

Module layout:

| file | module | models |
|---|---|---|
| `wrappers.dfy` | `Wrappers` | `Option`, `Result` |
| `geometry.dfy` | `Geometry` | the geometry library interface |
| `text.dfy` | `Text` | `strip`/`lstrip`/`rstrip`, `split`/`join`, `str(int)`, `float(text)` |
| `stalls.dfy` | `StallTable` | `src/utils.py` |
| `detections.dfy` | `Detections` | `collect_car_geoms` in `src/infer.py` |
| `occupancy.dfy` | `Occupancy` | the stall loop and summary of `main` in `src/infer.py` |
| `labeler.dfy` | `Labeler` | `tools/label_stalls.py` |

Each statement loop of the core is a method whose `while`/`for` loop carries the invariants of the proof:

- the row loop of `load_stalls_csv`;
- the two detection loops of `collect_car_geoms`;
- the stall loop of `main`;
- the CSV writer loop.

The comprehensions and generators (`src/utils.py:31`, `src/utils.py:56`, `src/infer.py:125`, `tools/label_stalls.py:75`) are recursive functions. The key loop `while True` (`tools/label_stalls.py:56`) is not modelled as a loop; see "## Left out".

Each such method is proved against a specification:

- the row loop equals `Load`, a recursive function over the rows read so far;
- the detection loops equal `Collect`, a recursive function over the detections visited so far;
- each entry of the stall loop equals `ClassifyStall` of its stall, a per-stall function;
- the writer's output satisfies the predicate `IsCsvOf`.

The lemmas are about those functions.

The labelling tool's global lists `stalls` and `current` become the fields of the class `Labeler.Editor`. The mouse callback `on_mouse` is the method `Editor.OnMouse`. The key handling of one pass of the key loop is a single method, `Editor.OnKey`, with one branch per key. Both update those fields.

Behaviour worth noting:

- **Intersection failure.** `src/infer.py:111` does not catch an exception from `intersection`. `Occupancy.Classify` returns `Err(IntersectionFailed(id))` and the run ends.
- **When the inset applies.** The help text of `--stall_inset` (`src/infer.py:69`) speaks of shrinking the stall. The code tests `stall_inset != 0.0` (`src/infer.py:98`), so a negative inset grows the stall (`Occupancy.InsetPoly`).
- **Missing stall id.** The code synthesises `S{n}` only when the row has no `stall_id` key at all: `row.get("stall_id", default)` (`src/utils.py:63`). A blank id stays blank: `StallTable.AcceptedId` gives an accepted row the id it carries whenever the key is present, the empty text included.
- **Bad corner text.** The docstring of `load_stalls_csv` says it "skips invalid rows" (`src/utils.py:47`). A corner text that `float` rejects raises instead, and the whole load fails (`StallTable.LoadFailsIffBadRow`).

## Model

| member | source | states |
|---|---|---|
| Text.LStripSpec | src/utils.py:16 | `lstrip` removes exactly the longest prefix of characters from the given set: the result is a suffix, every removed character is in the set, and the result does not start with one |
| Text.RStripSpec | src/utils.py:16 | `rstrip` removes exactly the longest suffix of characters from the given set, symmetrically |
| Text.Split | src/utils.py:17 | `split` gives one more part than there are separators, so `x, y = s.split(",")` succeeds only with exactly one comma |
| Text.SplitSpec | src/utils.py:17 | no part of a split contains the separator, and joining the parts gives the text back |
| Text.SplitJoin | src/utils.py:56 | splitting a join recovers the parts when no part contains the separator |
| Text.SplitConcat | src/utils.py:56 | splitting at one separator splits each side independently |
| Text.IntToStringChars | tools/label_stalls.py:75 | `str(i)` is decimal digits, with a minus sign only in front |
| Text.DigitsRoundTrip | tools/label_stalls.py:75 | the digits of `str(n)` read back as `n` |
| Text.ParseUnsigned | src/utils.py:18 | a number without a sign never reads as negative |
| Text.ParseDecimal | src/utils.py:18 | digits, a decimal point and digits read as the whole part plus the fraction over the matching power of ten |
| Text.ParseIntToString | src/utils.py:18 | `float(str(i)) == i` for every integer |
| StallTable.Unwrapped | src/utils.py:16 | stripping whitespace, `(` and `)` keeps every comma of a corner text |
| StallTable.ParseXY | src/utils.py:15-18 | a corner text whose comma count is not exactly one raises `BadCoordinate` with that text |
| StallTable.ParseXYOneComma | src/utils.py:16-18 | a corner with exactly one comma succeeds if and only if both sides read as numbers, and then yields exactly those two numbers; otherwise it raises `BadCoordinate` |
| StallTable.ParsePoints | src/utils.py:56 | a successful parse yields at most one point per `;`-separated segment |
| StallTable.ParsePointsConcat | src/utils.py:56 | points are parsed in order: the points of `a + b` are those of `a` followed by those of `b`, and the first failure wins |
| StallTable.TrailingSemicolon | src/utils.py:56 | a trailing `;` adds no point, so no trailing delimiter is needed and one is tolerated |
| StallTable.PolygonParts | src/utils.py:31 | the Polygon filter never adds members |
| StallTable.PolygonPartsSpec | src/utils.py:31 | the filter keeps exactly the members whose type is Polygon |
| StallTable.LargestIndex | src/utils.py:32 | `max(..., key=area)` picks an element of largest area, and the first among equals |
| StallTable.ToValidPolygon | src/utils.py:21-42 | whatever `_to_valid_polygon` returns is valid and non-empty |
| StallTable.RepairAccepted | src/utils.py:25-42 | a polygon that is not valid and non-empty as built is replaced by its repair, and accepted if and only if that repair is valid and non-empty |
| StallTable.RepairCollectionAccepted | src/utils.py:26-32 | when `make_valid` splits the polygon into valid parts, the loader keeps a Polygon part of largest area, and rejects the row if and only if no part is a Polygon |
| StallTable.RepairKeepsValid | src/utils.py:22-24 | an already valid, non-empty polygon is returned unchanged |
| StallTable.RepairCollection | src/utils.py:26-34 | a multi-part `make_valid` result gives no candidate exactly when it has no Polygon part; otherwise the candidate is its first largest Polygon part |
| StallTable.LoadStallsCsv | src/utils.py:45-64 | the row loop computes `Load` over all rows, ending at the first row whose corner text raises |
| StallTable.LoadErrSticky | src/utils.py:56 | once a row has raised, later rows change nothing |
| StallTable.LoadedStallsValid | src/utils.py:59-63 | every loaded stall has a valid, non-empty polygon |
| StallTable.LoadPrefix | src/utils.py:52-63 | rows are processed in order: loading a prefix gives a prefix of the stalls and of the warnings, and each row adds at most one of either |
| StallTable.LoadAtMostOnePerRow | src/utils.py:52-63 | stalls plus warnings never exceed the rows read |
| StallTable.SynthesisedIds | src/utils.py:63 | without a `stall_id` column the ids are `S1`, `S2`, ... in load order |
| StallTable.LoadFailsIffBadRow | src/utils.py:56 | the load fails if and only if some row's corner text raises |
| StallTable.AcceptedId | src/utils.py:63 | an accepted row keeps its own `stall_id`, or gets `S{n}` with `n` one more than the stalls accepted before it |
| StallTable.LoadEveryRow | src/utils.py:52-63 | rows that are never skipped and never raise all load, each giving exactly one stall or one warning |
| StallTable.SkippedRow | src/utils.py:53-58 | a row with an empty polygon field, or with fewer than 3 points, changes nothing |
| StallTable.BoxCorners | src/utils.py:67-69 | the rectangle has four corners, each built from the box's own coordinates |
| StallTable.BoxCornersRectangle | src/utils.py:69 | the corners run (x1,y1), (x2,y1), (x2,y2), (x1,y2): consecutive corners share an x or a y |
| Detections.CollectCarGeoms | src/infer.py:19-55 | the mask loop or the box loop computes `Collect` over the zipped detections and stops at an unknown class id |
| Detections.CollectErrSticky | src/infer.py:39 | once a class lookup has failed, later detections change nothing |
| Detections.CollectedGeoms | src/infer.py:35-53 | every kept geometry comes from one detection whose label is a vehicle class and whose area is at least `min_car_area`; with masks it is that detection's valid contour polygon of at least 3 points, without masks its box rectangle |
| Detections.KeptIsCollected | src/infer.py:44-53 | nothing is lost: a detection that passes every filter is in the result of any successful collect that visits it |
| Detections.KeptIffFromVehicle | src/infer.py:38-53 | a detection is kept with geometry `g` if and only if `g` is what it contributes as a vehicle (`FromVehicle`), the same predicate the soundness lemma uses |
| Detections.CollectPrefix | src/infer.py:38-53 | the result is an order-preserving filter: a prefix of the detections gives a prefix of the geometries, at most one per detection |
| Detections.CollectFailsIffUnknownClass | src/infer.py:39 | collecting fails if and only if a visited detection's class id is missing from `names` |
| Occupancy.InsetPoly | src/infer.py:98-106 | the inset polygon is never empty when the stall is not; it differs from the stall only when the inset is non-zero, the stall valid and the buffer succeeded; conversely a successful, non-empty buffer by `-inset` of a valid stall is exactly what is used |
| Occupancy.Denominator | src/infer.py:112 | the denominator is at least the area and at least 1e-6, and equals one of them |
| Occupancy.Overlap | src/infer.py:108-112 | with no vehicles the overlap is 0 and no intersection is attempted |
| Occupancy.CountOccupied | src/infer.py:125 | the occupied count never exceeds the number of entries |
| Occupancy.Classify | src/infer.py:88-126 | the summary has one entry per stall, in order, each the classification of that stall; `occupied` counts the occupied entries and `free` is the rest; the result is `Err` if and only if some stall's intersection raises |
| Occupancy.FreeCountsFree | src/infer.py:125-126 | `total - occupied` is exactly the number of free entries |
| Occupancy.NoCarsOverlapZero | src/infer.py:108-109 | with no vehicles every stall succeeds with overlap 0, and it is free exactly when the threshold is positive |
| Occupancy.ThresholdMonotone | src/infer.py:114 | the overlap does not depend on the threshold, and raising the threshold never turns a free stall occupied |
| Occupancy.ThresholdInclusive | src/infer.py:114 | a stall is occupied if and only if its overlap is at least the threshold, the boundary included |
| Occupancy.InsetFallback | src/infer.py:102-104 | an inset that comes out empty classifies the stall exactly as with no inset |
| Occupancy.OverlapInUnitRange | src/infer.py:112 | under the library facts, the overlap ratio lies in [0, 1] |
| Occupancy.Run | src/infer.py:78-126 | a failed load fails the run with the load error; after a successful load a failed detection lookup fails it with that error; the run succeeds if and only if loading and collecting succeed and every loaded stall classifies against the union of the collected cars; when loading and collecting succeed but the run fails, the error is the intersection failure of some loaded stall; then entry `i` is exactly the classification of loaded stall `i` against that union, `occupied` counts the occupied entries, occupied plus free equals the total, and with no vehicles every overlap is 0 |
| Labeler.Editor.constructor | tools/label_stalls.py:10-11 | the editor starts with no stalls and no points |
| Labeler.Editor.OnMouse | tools/label_stalls.py:33-36 | a left click appends its point to the current polygon; committed stalls are unchanged |
| Labeler.Editor.OnKey | tools/label_stalls.py:58-80 | on the key code masked to 8 bits: `n` commits a polygon of at least 3 points and clears it; `u` drops the last point if any; `s` commits likewise, keeps the current points and returns the written file; `q` stops with nothing changed; other keys change nothing; every committed stall keeps at least 3 points |
| Labeler.WriteCsv | tools/label_stalls.py:71-76 | the file has the header `stall_id,polygon` and row `i` holds `S{i}` and the `;`-joined `(x,y)` corners of the `i`-th stall, counting from 1 |
| Labeler.PointTextParses | tools/label_stalls.py:75 | the loader reads a written `(x,y)` corner back as exactly `(x, y)` |
| Labeler.PointTextUnwrapped | src/utils.py:16 | unwrapping a written `(x,y)` corner leaves exactly `x,y`, and stripping whitespace leaves the corner unchanged |
| Labeler.PointTextNoSemicolon | tools/label_stalls.py:75 | a written corner holds no `;` |
| Labeler.ParseWrittenPoints | tools/label_stalls.py:75 | parsing the written corners gives the clicked points in order |
| Labeler.PolygonTextEnds | tools/label_stalls.py:75 | a written polygon starts with `(` and ends with `)`, so stripping whitespace leaves it unchanged |
| Labeler.PolygonTextSplits | tools/label_stalls.py:75 | splitting a written polygon at `;` gives back its corner texts |
| Labeler.WrittenPolygonParses | tools/label_stalls.py:75 | round trip: the loader's polygon parser returns exactly the clicked points, and the 3-point check passes exactly when the stall had at least 3 points |
| Labeler.SavedRowLoads | tools/label_stalls.py:76 | a written row is accepted under its written id, or warned about when its polygon cannot be repaired; it is never skipped and never raises |
| Labeler.SavedFileLoads | tools/label_stalls.py:71-76 | loading a saved file never fails, and every committed stall comes back as a stall or as a warning |

## Left out

- Drawing, labels, centroids and `src/visualize.py`: the model treats the rendering calls as never raising. In the source, `draw_polygon` reads `poly.exterior`, which a MultiPolygon lacks. A negative buffer that splits a concave stall (`src/infer.py:101`) or a `buffer(0)` repair (`src/utils.py:37`) can give one, and the `AttributeError` at `src/infer.py:116` then ends the run, where `Classify` and `Run` return `Ok`.
- Polygon construction (`src/utils.py:22`, `src/infer.py:43`) is modelled as never raising. The geometry library raises `ValueError` for a ring with fewer than 4 coordinates once closed, such as `(0,0);(1,1);(0,0)`. At `src/utils.py:22` that aborts the whole load, where the model gives a stall or a warning.
- The geometry library's algorithms: validity, `make_valid`, buffering, union, intersection and area are uninterpreted operations. The only facts used about them are the explicit assumptions of two lemmas: `OverlapInUnitRange` assumes that areas are never negative and that an intersection is never larger than the polygon it cuts; `RepairCollectionAccepted` assumes that the Polygon parts `make_valid` returns are valid and non-empty.
- `unary_union` is assumed not to raise. The source does not guard it either.
- The detector itself, its confidence and IoU settings, and the tensor-to-array conversions. A batch is given as its labels, class ids, boxes and optional contours.
- `int(cid)` truncating a floating-point class id: class ids are integers in the model.
- File and image I/O, window handling, argument parsing, JSON output and printing. The rows read and the records written are values; the warning printed for an unrepairable polygon becomes a `Warning` entry.
- CSV quoting and `DictReader` mechanics: a row is its two optional fields. A present key whose value is `None`, which `DictReader` gives for short rows, is treated like an absent key.
- The `waitKey` loop itself: `OnKey` is one pass of it, and the loop ends when it returns `Saved` or `Quit`.
- Floating point: coordinates, areas and ratios are real numbers.
- Occupancy.Classify: the overlap is the exact ratio. `round(overlap, 3)` in the JSON summary is not modelled.
- Text.ParseReal: only plain decimal notation is modelled. `float` also accepts exponents, `inf`, `nan` and underscores, and the model reads those as errors.
- Text.Strip: only ASCII whitespace is stripped. Python's `str.strip()` also strips non-ASCII Unicode whitespace.
