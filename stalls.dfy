/** Loading the stall table: parsing the polygon field of each row, the
    repair policy for invalid polygons, synthesised stall ids, and the
    rectangle built from a detector bounding box. */
module StallTable {
  import opened Wrappers
  import opened Text
  import opened Geometry

  /** One row of the stall table as the CSV reader delivers it: `None` for a
      column the row does not have. */
  datatype Row = Row(stallId: Option<string>, polygon: Option<string>)

  datatype Stall = Stall(id: string, poly: Geom)

  /** The `ValueError` a malformed coordinate raises; it is not caught, so it
      ends the whole load. */
  datatype LoadError = BadCoordinate(segment: string)

  /** The diagnostic printed for a row whose polygon cannot be repaired,
      naming the row's stall id (`None` when the row has none). */
  datatype Warning = InvalidPolygon(stallId: Option<string>)

  datatype Loaded = Loaded(stalls: seq<Stall>, warnings: seq<Warning>)

  /** A corner text with its whitespace, every leading `(` and every
      trailing `)` removed; the commas are all still there. */
  function Unwrapped(s: string): (t: string)
    ensures CountChar(t, ',') == CountChar(s, ',')
  {
    StripKeepsCount(s, Whitespace, ',');
    StripKeepsCount(Strip(s, Whitespace), {'('}, ',');
    StripKeepsCount(LStrip(Strip(s, Whitespace), {'('}), {')'}, ',');
    RStrip(LStrip(Strip(s, Whitespace), {'('}), {')'})
  }

  /** `_parse_xy`: a corner `"(x,y)"` is unwrapped and must then split at
      commas into exactly two numbers. */
  function ParseXY(s: string): (r: Result<Point, LoadError>)
    ensures CountChar(s, ',') != 1 ==> r == Err(BadCoordinate(s))
  {
    var parts := Split(Unwrapped(s), ',');
    if |parts| != 2 then Err(BadCoordinate(s))
    else
      match (ParseReal(parts[0]), ParseReal(parts[1]))
      case (Some(x), Some(y)) => Ok((x, y))
      case _ => Err(BadCoordinate(s))
  }

  /** A corner with exactly one comma reads as the two numbers on either
      side of it, and raises when either side is not a number. */
  lemma ParseXYOneComma(s: string, a: string, b: string)
    requires Unwrapped(s) == a + [','] + b && ',' !in a && ',' !in b
    ensures ParseXY(s).Ok? <==> ParseReal(a).Some? && ParseReal(b).Some?
    ensures ParseXY(s).Ok? ==> ParseXY(s).value == (ParseReal(a).value, ParseReal(b).value)
    ensures ParseXY(s).Err? ==> ParseXY(s) == Err(BadCoordinate(s))
  {
    SplitConcat(a, b, ',');
    SplitNoSeparator(a, ',');
    SplitNoSeparator(b, ',');
  }

  /** Stripping characters other than `c` keeps the number of `c`s. */
  lemma {:induction false} StripKeepsCount(s: string, cs: set<char>, c: char)
    requires c !in cs
    ensures CountChar(LStrip(s, cs), c) == CountChar(s, c)
    ensures CountChar(RStrip(s, cs), c) == CountChar(s, c)
    ensures CountChar(Strip(s, cs), c) == CountChar(s, c)
  {
    LStripKeepsCount(s, cs, c);
    RStripKeepsCount(s, cs, c);
    RStripKeepsCount(LStrip(s, cs), cs, c);
  }

  lemma {:induction false} LStripKeepsCount(s: string, cs: set<char>, c: char)
    requires c !in cs
    ensures CountChar(LStrip(s, cs), c) == CountChar(s, c)
  {
    if s != [] && s[0] in cs {
      LStripKeepsCount(s[1..], cs, c);
    }
  }

  lemma {:induction false} RStripKeepsCount(s: string, cs: set<char>, c: char)
    requires c !in cs
    ensures CountChar(RStrip(s, cs), c) == CountChar(s, c)
  {
    if s != [] && s[|s| - 1] in cs {
      RStripKeepsCount(s[..|s| - 1], cs, c);
      CountCharConcat(s[..|s| - 1], [s[|s| - 1]], c);
      assert s == s[..|s| - 1] + [s[|s| - 1]];
    }
  }

  lemma {:induction false} CountCharConcat(a: string, b: string, c: char)
    ensures CountChar(a + b, c) == CountChar(a, c) + CountChar(b, c)
  {
    if a != [] {
      CountCharConcat(a[1..], b, c);
      assert (a + b)[0] == a[0] && (a + b)[1..] == a[1..] + b;
    } else {
      assert a + b == b;
    }
  }

  /** The corners of a list of segments: blank segments are dropped, the
      others parsed with `_parse_xy` in order, the first bad one raising. */
  function ParsePoints(segments: seq<string>): (r: Result<seq<Point>, LoadError>)
    ensures r.Ok? ==> |r.value| <= |segments|
  {
    if segments == [] then Ok([])
    else if Strip(segments[0], Whitespace) == [] then ParsePoints(segments[1..])
    else Then(ParseXY(segments[0]), ParsePoints(segments[1..]))
  }

  /** The first point, then the rest, the first failure winning. */
  function Then(first: Result<Point, LoadError>, rest: Result<seq<Point>, LoadError>): Result<seq<Point>, LoadError>
  {
    match first
    case Err(e) => Err(e)
    case Ok(p) =>
      match rest
      case Err(e) => Err(e)
      case Ok(ps) => Ok([p] + ps)
  }

  /** Both lists of points, the first failure winning. */
  function Both(a: Result<seq<Point>, LoadError>, b: Result<seq<Point>, LoadError>): Result<seq<Point>, LoadError>
  {
    match a
    case Err(e) => Err(e)
    case Ok(pa) =>
      match b
      case Err(e) => Err(e)
      case Ok(pb) => Ok(pa + pb)
  }

  /** The points of a stripped polygon field `"(x,y);(x,y);..."`. */
  function PolygonPoints(raw: string): Result<seq<Point>, LoadError>
  {
    ParsePoints(Split(raw, ';'))
  }

  lemma {:induction false} ParsePointsConcat(a: seq<string>, b: seq<string>)
    ensures ParsePoints(a + b) == Both(ParsePoints(a), ParsePoints(b))
  {
    if a == [] {
      assert a + b == b;
      match ParsePoints(b) {
        case Err(_) =>
        case Ok(pb) => assert [] + pb == pb;
      }
    } else {
      assert (a + b)[0] == a[0] && (a + b)[1..] == a[1..] + b;
      ParsePointsConcat(a[1..], b);
      if Strip(a[0], Whitespace) != [] {
        var first, ra, rb := ParseXY(a[0]), ParsePoints(a[1..]), ParsePoints(b);
        assert ParsePoints(a + b) == Then(first, Both(ra, rb));
        if first.Ok? && ra.Ok? && rb.Ok? {
          assert [first.value] + (ra.value + rb.value) == ([first.value] + ra.value) + rb.value;
        }
      }
    }
  }

  /** A trailing `;` adds no point. */
  lemma {:induction false} TrailingSemicolon(raw: string)
    ensures PolygonPoints(raw + ";") == PolygonPoints(raw)
  {
    assert raw + ";" == raw + [';'] + "";
    SplitConcat(raw, "", ';');
    ParsePointsConcat(Split(raw, ';'), Split("", ';'));
    assert Strip("", Whitespace) == [];
    assert ParsePoints([""]) == Ok([]) by {
      assert [""][1..] == [];
    }
    match ParsePoints(Split(raw, ';')) {
      case Err(_) =>
      case Ok(pa) => assert pa + [] == pa;
    }
  }

  /** The members of a multi-part geometry whose type is Polygon, in their
      original order. */
  function PolygonParts(lib: Shapely, parts: seq<Geom>): (r: seq<Geom>)
    ensures |r| <= |parts|
  {
    if parts == [] then []
    else if lib.shape(parts[0]).PolygonShape? then [parts[0]] + PolygonParts(lib, parts[1..])
    else PolygonParts(lib, parts[1..])
  }

  /** The filter keeps exactly the Polygon members. */
  lemma {:induction false} PolygonPartsSpec(lib: Shapely, parts: seq<Geom>)
    ensures forall g :: g in PolygonParts(lib, parts) <==> g in parts && lib.shape(g).PolygonShape?
  {
    if parts != [] {
      PolygonPartsSpec(lib, parts[1..]);
      assert forall g :: g in parts <==> g == parts[0] || g in parts[1..];
    }
  }

  /** The choice `max` makes with area as the key: the index of the first
      element of largest area. */
  function LargestIndex(lib: Shapely, polys: seq<Geom>): (k: nat)
    requires polys != []
    ensures k < |polys|
    ensures forall j :: 0 <= j < |polys| ==> lib.area(polys[j]) <= lib.area(polys[k])
    ensures forall j :: 0 <= j < k ==> lib.area(polys[j]) < lib.area(polys[k])
  {
    if |polys| == 1 then 0
    else
      var k := LargestIndex(lib, polys[..|polys| - 1]);
      if lib.area(polys[|polys| - 1]) > lib.area(polys[k]) then |polys| - 1 else k
  }

  /** `polys[k]` has the largest area and every element before it a
      smaller one. */
  ghost predicate IsFirstLargest(lib: Shapely, polys: seq<Geom>, k: nat)
    requires k < |polys|
  {
    && (forall j :: 0 <= j < |polys| ==> lib.area(polys[j]) <= lib.area(polys[k]))
    && (forall j :: 0 <= j < k ==> lib.area(polys[j]) < lib.area(polys[k]))
  }

  /** The candidate the repair branch produces for an invalid or empty
      polygon, before the final validity check: `make_valid` when it is
      available, else `buffer(0)` (an exception from it giving `None`). */
  function Repaired(lib: Shapely, poly: Geom): Option<Geom>
  {
    if lib.hasMakeValid then
      var fixed := lib.makeValid(poly);
      match lib.shape(fixed)
      case PolygonShape => Some(fixed)
      case CollectionShape(parts) =>
        var polys := PolygonParts(lib, parts);
        if polys == [] then None else Some(polys[LargestIndex(lib, polys)])
      case OtherShape => None
    else lib.buffer(poly, 0.0)
  }

  /** `_to_valid_polygon`: the polygon itself when valid and non-empty,
      else its repair when that is valid and non-empty, else `None`. */
  function ToValidPolygon(lib: Shapely, pts: seq<Point>): (r: Option<Geom>)
    ensures r.Some? ==> lib.isValid(r.value) && !lib.isEmpty(r.value)
  {
    var poly := lib.polygon(pts);
    if lib.isValid(poly) && !lib.isEmpty(poly) then Some(poly)
    else
      match Repaired(lib, poly)
      case Some(g) => if lib.isValid(g) && !lib.isEmpty(g) then Some(g) else None
      case None => None
  }

  /** An already valid, non-empty polygon is kept exactly as built. */
  lemma RepairKeepsValid(lib: Shapely, pts: seq<Point>)
    requires lib.isValid(lib.polygon(pts)) && !lib.isEmpty(lib.polygon(pts))
    ensures ToValidPolygon(lib, pts) == Some(lib.polygon(pts))
  {
  }

  /** A polygon that is not valid and non-empty as built is replaced by its
      repair exactly when the repair is valid and non-empty. */
  lemma RepairAccepted(lib: Shapely, pts: seq<Point>)
    requires !(lib.isValid(lib.polygon(pts)) && !lib.isEmpty(lib.polygon(pts)))
    ensures var g := Repaired(lib, lib.polygon(pts));
      ToValidPolygon(lib, pts).Some? <==> g.Some? && lib.isValid(g.value) && !lib.isEmpty(g.value)
    ensures ToValidPolygon(lib, pts).Some? ==> ToValidPolygon(lib, pts) == Repaired(lib, lib.polygon(pts))
  {
  }

  /** When `make_valid` splits an invalid polygon into valid parts, the
      loader keeps a Polygon part of largest area, and rejects the row
      exactly when no part is a Polygon. */
  lemma RepairCollectionAccepted(lib: Shapely, pts: seq<Point>, parts: seq<Geom>)
    requires !(lib.isValid(lib.polygon(pts)) && !lib.isEmpty(lib.polygon(pts)))
    requires lib.hasMakeValid && lib.shape(lib.makeValid(lib.polygon(pts))) == CollectionShape(parts)
    requires forall g :: g in parts && lib.shape(g).PolygonShape? ==> lib.isValid(g) && !lib.isEmpty(g)
    ensures ToValidPolygon(lib, pts).None? <==> forall g :: g in parts ==> !lib.shape(g).PolygonShape?
    ensures ToValidPolygon(lib, pts).Some? ==>
      var r := ToValidPolygon(lib, pts).value;
      && r in parts && lib.shape(r).PolygonShape?
      && forall g :: g in parts && lib.shape(g).PolygonShape? ==> lib.area(g) <= lib.area(r)
  {
    var poly := lib.polygon(pts);
    RepairCollection(lib, poly, parts);
    RepairAccepted(lib, pts);
    var polys := PolygonParts(lib, parts);
    PolygonPartsSpec(lib, parts);
    if polys != [] {
      var k := LargestIndex(lib, polys);
      assert Repaired(lib, poly) == Some(polys[k]);
      assert polys[k] in polys;
      forall g | g in parts && lib.shape(g).PolygonShape? ensures lib.area(g) <= lib.area(polys[k]) {
        assert g in polys;
        var j :| 0 <= j < |polys| && polys[j] == g;
      }
    }
  }

  /** When `make_valid` gives a multi-part geometry, the result is its first
      Polygon member of largest area, or `None` when it has no Polygon member. */
  lemma {:induction false} RepairCollection(lib: Shapely, poly: Geom, parts: seq<Geom>)
    requires lib.hasMakeValid && lib.shape(lib.makeValid(poly)) == CollectionShape(parts)
    ensures Repaired(lib, poly).None? <==> forall g :: g in parts ==> !lib.shape(g).PolygonShape?
    ensures Repaired(lib, poly).Some? ==>
      exists k :: 0 <= k < |PolygonParts(lib, parts)| && Repaired(lib, poly) == Some(PolygonParts(lib, parts)[k])
        && IsFirstLargest(lib, PolygonParts(lib, parts), k)
        && PolygonParts(lib, parts)[k] in parts && lib.shape(PolygonParts(lib, parts)[k]).PolygonShape?
  {
    var polys := PolygonParts(lib, parts);
    PolygonPartsSpec(lib, parts);
    if polys != [] {
      var k := LargestIndex(lib, polys);
      assert Repaired(lib, poly) == Some(polys[k]);
      assert polys[k] in polys;
      assert polys[k] in parts && lib.shape(polys[k]).PolygonShape?;
      assert (forall j :: 0 <= j < |polys| ==> lib.area(polys[j]) <= lib.area(polys[k]));
      assert (forall j :: 0 <= j < k ==> lib.area(polys[j]) < lib.area(polys[k]));
      assert IsFirstLargest(lib, polys, k);
      assert !(forall g :: g in parts ==> !lib.shape(g).PolygonShape?);
    } else {
      assert forall g :: g in parts ==> !lib.shape(g).PolygonShape?;
    }
  }

  /** What happens to one row of the table, given how many stalls have been
      accepted before it. */
  datatype RowOutcome =
    | Skipped                 // no polygon text, or fewer than 3 points: silent
    | Warned(warning: Warning) // polygon cannot be repaired: diagnostic
    | Accepted(stall: Stall)
    | Aborted(error: LoadError) // a coordinate failed to parse

  function RowStep(lib: Shapely, row: Row, accepted: nat): RowOutcome
  {
    var raw := Strip(row.polygon.GetOr(""), Whitespace);
    if raw == [] then Skipped
    else
      match PolygonPoints(raw)
      case Err(e) => Aborted(e)
      case Ok(pts) =>
        if |pts| < 3 then Skipped
        else
          match ToValidPolygon(lib, pts)
          case None => Warned(InvalidPolygon(row.stallId))
          case Some(g) => Accepted(Stall(row.stallId.GetOr("S" + NatToString(accepted + 1)), g))
  }

  /** The row's polygon text fails to parse, whatever came before it. */
  predicate RowAborts(row: Row)
  {
    var raw := Strip(row.polygon.GetOr(""), Whitespace);
    raw != [] && PolygonPoints(raw).Err?
  }

  /** `load_stalls_csv` as a function of the rows read so far. */
  function Load(lib: Shapely, rows: seq<Row>): Result<Loaded, LoadError>
  {
    if rows == [] then Ok(Loaded([], []))
    else
      match Load(lib, rows[..|rows| - 1])
      case Err(e) => Err(e)
      case Ok(l) =>
        match RowStep(lib, rows[|rows| - 1], |l.stalls|)
        case Skipped => Ok(l)
        case Warned(w) => Ok(Loaded(l.stalls, l.warnings + [w]))
        case Accepted(s) => Ok(Loaded(l.stalls + [s], l.warnings))
        case Aborted(e) => Err(e)
  }

  /** The row loop of `load_stalls_csv`. */
  method LoadStallsCsv(lib: Shapely, rows: seq<Row>) returns (r: Result<Loaded, LoadError>)
    ensures r == Load(lib, rows)
  {
    var stalls: seq<Stall> := [];
    var warnings: seq<Warning> := [];
    var i := 0;
    while i < |rows|
      invariant 0 <= i <= |rows|
      invariant Load(lib, rows[..i]) == Ok(Loaded(stalls, warnings))
    {
      assert rows[..i + 1][..i] == rows[..i];
      var row := rows[i];
      i := i + 1;
      var raw := Strip(row.polygon.GetOr(""), Whitespace);
      if raw == [] {
        continue;
      }
      var parsed := PolygonPoints(raw);
      if parsed.Err? {
        LoadErrSticky(lib, rows, i);
        return Err(parsed.error);
      }
      var pts := parsed.value;
      if |pts| < 3 {
        continue;
      }
      var poly := ToValidPolygon(lib, pts);
      if poly.None? {
        warnings := warnings + [InvalidPolygon(row.stallId)];
        continue;
      }
      stalls := stalls + [Stall(row.stallId.GetOr("S" + NatToString(|stalls| + 1)), poly.value)];
    }
    assert rows[..i] == rows;
    r := Ok(Loaded(stalls, warnings));
  }

  /** Once a row has failed, the rows after it change nothing. */
  lemma {:induction false} LoadErrSticky(lib: Shapely, rows: seq<Row>, k: nat)
    requires k <= |rows| && Load(lib, rows[..k]).Err?
    ensures Load(lib, rows) == Load(lib, rows[..k])
  {
    if k < |rows| {
      var init := rows[..|rows| - 1];
      assert init[..k] == rows[..k];
      LoadErrSticky(lib, init, k);
    } else {
      assert rows[..k] == rows;
    }
  }

  /** Every loaded stall has a valid, non-empty polygon. */
  lemma {:induction false} LoadedStallsValid(lib: Shapely, rows: seq<Row>)
    requires Load(lib, rows).Ok?
    ensures forall s :: s in Load(lib, rows).value.stalls ==> lib.isValid(s.poly) && !lib.isEmpty(s.poly)
  {
    if rows != [] {
      LoadedStallsValid(lib, rows[..|rows| - 1]);
    }
  }

  /** Rows are taken in order, each adding at most one stall or one warning:
      what a prefix of the rows loads is a prefix of what all of them load. */
  lemma {:induction false} LoadPrefix(lib: Shapely, rows: seq<Row>, k: nat)
    requires k <= |rows| && Load(lib, rows).Ok?
    ensures Load(lib, rows[..k]).Ok?
    ensures var whole, part := Load(lib, rows).value, Load(lib, rows[..k]).value;
      && part.stalls <= whole.stalls && part.warnings <= whole.warnings
      && |whole.stalls| + |whole.warnings| <= |part.stalls| + |part.warnings| + (|rows| - k)
  {
    if k < |rows| {
      var init := rows[..|rows| - 1];
      assert init[..k] == rows[..k];
      LoadPrefix(lib, init, k);
    } else {
      assert rows[..k] == rows;
    }
  }

  /** At most one stall or warning per row. */
  lemma {:induction false} LoadAtMostOnePerRow(lib: Shapely, rows: seq<Row>)
    requires Load(lib, rows).Ok?
    ensures |Load(lib, rows).value.stalls| + |Load(lib, rows).value.warnings| <= |rows|
  {
    LoadPrefix(lib, rows, 0);
  }

  /** Without a `stall_id` column the ids are `S1`, `S2`, ... in load order. */
  lemma {:induction false} SynthesisedIds(lib: Shapely, rows: seq<Row>)
    requires forall i :: 0 <= i < |rows| ==> rows[i].stallId.None?
    requires Load(lib, rows).Ok?
    ensures var stalls := Load(lib, rows).value.stalls;
      forall k :: 0 <= k < |stalls| ==> stalls[k].id == "S" + NatToString(k + 1)
  {
    if rows != [] {
      var init, last := rows[..|rows| - 1], rows[|rows| - 1];
      assert forall i :: 0 <= i < |init| ==> init[i] == rows[i];
      SynthesisedIds(lib, init);
      var l := Load(lib, init).value;
      AcceptedId(lib, last, |l.stalls|);
      match RowStep(lib, last, |l.stalls|) {
        case Accepted(st) => assert Load(lib, rows).value.stalls == l.stalls + [st];
        case Warned(w) => assert Load(lib, rows).value.stalls == l.stalls;
        case Skipped => assert Load(lib, rows).value.stalls == l.stalls;
        case Aborted(_) =>
      }
    }
  }

  /** The row is accepted or warned about, whatever came before it. */
  ghost predicate RowCounted(lib: Shapely, row: Row)
  {
    forall n: nat :: RowStep(lib, row, n).Accepted? || RowStep(lib, row, n).Warned?
  }

  /** Rows that are neither skipped nor fail all load, and each gives
      one stall or one warning. */
  lemma {:induction false} LoadEveryRow(lib: Shapely, rows: seq<Row>)
    requires forall i :: 0 <= i < |rows| ==> RowCounted(lib, rows[i])
    ensures Load(lib, rows).Ok?
    ensures |Load(lib, rows).value.stalls| + |Load(lib, rows).value.warnings| == |rows|
  {
    if rows != [] {
      var init, last := rows[..|rows| - 1], rows[|rows| - 1];
      assert forall i :: 0 <= i < |init| ==> init[i] == rows[i];
      LoadEveryRow(lib, init);
      var l := Load(lib, init).value;
      assert RowCounted(lib, last);
      match RowStep(lib, last, |l.stalls|) {
        case Accepted(st) => assert Load(lib, rows) == Ok(Loaded(l.stalls + [st], l.warnings));
        case Warned(w) => assert Load(lib, rows) == Ok(Loaded(l.stalls, l.warnings + [w]));
      }
    }
  }

  /** An accepted row keeps its own id, or gets the next synthesised one. */
  lemma AcceptedId(lib: Shapely, row: Row, accepted: nat)
    ensures RowStep(lib, row, accepted).Accepted? ==>
      RowStep(lib, row, accepted).stall.id == row.stallId.GetOr("S" + NatToString(accepted + 1))
  {
  }

  /** The load fails exactly when some row's polygon text fails to parse. */
  lemma LoadFailsIffBadRow(lib: Shapely, rows: seq<Row>)
    ensures Load(lib, rows).Err? <==> exists i :: 0 <= i < |rows| && RowAborts(rows[i])
  {
    if Load(lib, rows).Err? {
      var i := LoadErrHasBadRow(lib, rows);
    }
    forall i | 0 <= i < |rows| && RowAborts(rows[i]) ensures Load(lib, rows).Err? {
      BadRowFailsLoad(lib, rows, i);
    }
  }

  /** A failed load names a row that fails. */
  lemma {:induction false} LoadErrHasBadRow(lib: Shapely, rows: seq<Row>) returns (i: nat)
    requires Load(lib, rows).Err?
    ensures i < |rows| && RowAborts(rows[i])
  {
    var init := rows[..|rows| - 1];
    if Load(lib, init).Err? {
      i := LoadErrHasBadRow(lib, init);
      assert init[i] == rows[i];
    } else {
      RowAbortsStep(lib, rows[|rows| - 1], |Load(lib, init).value.stalls|);
      i := |rows| - 1;
    }
  }

  /** A row that fails makes the whole load fail. */
  lemma {:induction false} BadRowFailsLoad(lib: Shapely, rows: seq<Row>, i: nat)
    requires i < |rows| && RowAborts(rows[i])
    ensures Load(lib, rows).Err?
  {
    var init := rows[..|rows| - 1];
    if i < |rows| - 1 {
      assert init[i] == rows[i];
      BadRowFailsLoad(lib, init, i);
    } else if Load(lib, init).Ok? {
      RowAbortsStep(lib, rows[i], |Load(lib, init).value.stalls|);
    }
  }

  /** Whether a row fails does not depend on the rows before it. */
  lemma RowAbortsStep(lib: Shapely, row: Row, accepted: nat)
    ensures RowStep(lib, row, accepted).Aborted? <==> RowAborts(row)
  {
  }


  /** A row with no polygon text, or with fewer than 3 points, changes
      nothing: no stall and no warning. */
  lemma {:induction false} SkippedRow(lib: Shapely, rows: seq<Row>, row: Row)
    requires var raw := Strip(row.polygon.GetOr(""), Whitespace);
      raw == [] || (PolygonPoints(raw).Ok? && |PolygonPoints(raw).value| < 3)
    ensures Load(lib, rows + [row]) == Load(lib, rows)
  {
    assert (rows + [row])[..|rows|] == rows;
  }

  /** A detector bounding box `(x1, y1, x2, y2)`. */
  datatype Box = Box(x1: real, y1: real, x2: real, y2: real)

  /** The four corners `bbox_to_polygon` builds its rectangle from. */
  function BoxCorners(b: Box): (r: seq<Point>)
    ensures |r| == 4
    ensures forall i :: 0 <= i < 4 ==> (r[i].0 == b.x1 || r[i].0 == b.x2) && (r[i].1 == b.y1 || r[i].1 == b.y2)
  {
    [(b.x1, b.y1), (b.x2, b.y1), (b.x2, b.y2), (b.x1, b.y2)]
  }

  /** `bbox_to_polygon`. */
  function BoxToPolygon(lib: Shapely, b: Box): Geom
  {
    lib.polygon(BoxCorners(b))
  }

  /** The corners run (x1,y1), (x2,y1), (x2,y2), (x1,y2): every edge of the
      ring, the closing one included, is horizontal or vertical, and the ring
      has the box's two opposite corners at positions 0 and 2. */
  lemma BoxCornersRectangle(b: Box)
    ensures var r := BoxCorners(b);
      && r[0] == (b.x1, b.y1) && r[2] == (b.x2, b.y2)
      && r[0].1 == r[1].1 && r[1].0 == r[2].0 && r[2].1 == r[3].1 && r[3].0 == r[0].0
  {
  }
}
