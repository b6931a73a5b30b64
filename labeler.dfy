/** The stall-labelling tool: an editor whose state is the committed stall
    polygons and the polygon being drawn, changed by mouse clicks and keys,
    and the CSV it saves, which the stall table loader reads back. */
module Labeler {
  import opened Wrappers
  import opened Text
  import opened Geometry
  import opened StallTable

  /** A clicked pixel; OpenCV reports integer coordinates. */
  type Click = (int, int)

  datatype MouseEvent = LeftButtonDown | OtherMouseEvent

  /** One written CSV row: the stall id and the polygon text. */
  datatype Record = Record(stallId: string, polygon: string)

  /** What the key loop does after a key: go on, save the file and stop, or
      stop without writing anything. */
  datatype KeyOutcome = KeepRunning | Saved(header: seq<string>, records: seq<Record>) | Quit

  /** A corner as the writer formats it: both coordinates in decimal,
      separated by a comma and wrapped in parentheses. */
  function PointText(p: Click): string
  {
    "(" + IntToString(p.0) + "," + IntToString(p.1) + ")"
  }

  function PointTexts(poly: seq<Click>): (r: seq<string>)
    ensures |r| == |poly|
    ensures forall i :: 0 <= i < |poly| ==> r[i] == PointText(poly[i])
  {
    if poly == [] then [] else [PointText(poly[0])] + PointTexts(poly[1..])
  }

  /** The polygon text the writer emits: the corner texts in click order,
      joined by `;`. */
  function PolygonText(poly: seq<Click>): string
  {
    Join(PointTexts(poly), ';')
  }

  /** The file written on `s`: the header, then row `i` (counting from 1)
      holding `S{i}` and the polygon text of the `i`-th committed stall. */
  ghost predicate IsCsvOf(header: seq<string>, records: seq<Record>, stalls: seq<seq<Click>>)
  {
    && header == ["stall_id", "polygon"]
    && |records| == |stalls|
    && forall i :: 0 <= i < |stalls| ==> records[i] == Record("S" + NatToString(i + 1), PolygonText(stalls[i]))
  }

  /** The writer loop of the `s` branch. */
  method WriteCsv(stalls: seq<seq<Click>>) returns (header: seq<string>, records: seq<Record>)
    ensures IsCsvOf(header, records, stalls)
  {
    header := ["stall_id", "polygon"];
    records := [];
    for i := 0 to |stalls|
      invariant |records| == i
      invariant forall j :: 0 <= j < i ==> records[j] == Record("S" + NatToString(j + 1), PolygonText(stalls[j]))
    {
      records := records + [Record("S" + NatToString(i + 1), PolygonText(stalls[i]))];
    }
  }

  /** Every committed stall has at least 3 points. */
  ghost predicate AllStallsComplete(stalls: seq<seq<Click>>)
  {
    forall k :: 0 <= k < |stalls| ==> |stalls[k]| >= 3
  }

  /** The committed stalls plus `current` when it has at least 3 points. */
  function Committed(stalls: seq<seq<Click>>, current: seq<Click>): seq<seq<Click>>
  {
    if |current| >= 3 then stalls + [current] else stalls
  }

  class Editor {
    var stalls: seq<seq<Click>>
    var current: seq<Click>

    ghost predicate Valid()
      reads this
    {
      AllStallsComplete(stalls)
    }

    constructor ()
      ensures Valid() && stalls == [] && current == []
    {
      stalls := [];
      current := [];
    }

    /** `on_mouse`: a left click adds a corner to the polygon being drawn. */
    method OnMouse(event: MouseEvent, x: int, y: int)
      requires Valid()
      modifies this
      ensures Valid() && stalls == old(stalls)
      ensures current == if event == LeftButtonDown then old(current) + [(x, y)] else old(current)
    {
      if event == LeftButtonDown {
        current := current + [(x, y)];
      }
    }

    /** One pass of the key loop for the code `waitKey` returned
        (`& 0xFF`, which is `% 256` on every integer). */
    method OnKey(code: int) returns (outcome: KeyOutcome)
      requires Valid()
      modifies this
      ensures Valid()
      ensures var k := code % 256;
        if k == 'n' as int then
          stalls == Committed(old(stalls), old(current)) && current == [] && outcome == KeepRunning
        else if k == 'u' as int then
          && stalls == old(stalls) && outcome == KeepRunning
          && current == (if old(current) == [] then [] else old(current)[..|old(current)| - 1])
        else if k == 's' as int then
          && stalls == Committed(old(stalls), old(current)) && current == old(current)
          && outcome.Saved? && IsCsvOf(outcome.header, outcome.records, stalls)
        else if k == 'q' as int then
          stalls == old(stalls) && current == old(current) && outcome == Quit
        else
          stalls == old(stalls) && current == old(current) && outcome == KeepRunning
    {
      var k := code % 256;
      if k == 'n' as int {
        if |current| >= 3 {
          stalls := stalls + [current];
        }
        current := [];
        outcome := KeepRunning;
      } else if k == 'u' as int {
        if current != [] {
          current := current[..|current| - 1];
        }
        outcome := KeepRunning;
      } else if k == 's' as int {
        if |current| >= 3 {
          stalls := stalls + [current];
        }
        var header, records := WriteCsv(stalls);
        outcome := Saved(header, records);
      } else if k == 'q' as int {
        outcome := Quit;
      } else {
        outcome := KeepRunning;
      }
    }
  }

  /** The loader's rows for a written file: both columns are present. */
  function RowsOf(records: seq<Record>): (rows: seq<Row>)
    ensures |rows| == |records|
    ensures forall i :: 0 <= i < |records| ==> rows[i] == Row(Some(records[i].stallId), Some(records[i].polygon))
  {
    if records == [] then []
    else [Row(Some(records[0].stallId), Some(records[0].polygon))] + RowsOf(records[1..])
  }

  /** Clicks as the loader's real-valued points. */
  function AsPoints(poly: seq<Click>): (pts: seq<Point>)
    ensures |pts| == |poly|
    ensures forall i :: 0 <= i < |poly| ==> pts[i] == (poly[i].0 as real, poly[i].1 as real)
  {
    if poly == [] then [] else [(poly[0].0 as real, poly[0].1 as real)] + AsPoints(poly[1..])
  }

  /** Written numbers hold digits and possibly a leading minus sign. */
  lemma NumberChars(i: int, c: char)
    requires c in IntToString(i)
    ensures IsDigit(c) || c == '-'
  {
    IntToStringChars(i);
  }

  /** The loader's `_parse_xy` reads a written corner back exactly. */
  lemma PointTextParses(p: Click)
    ensures Strip(PointText(p), Whitespace) != []
    ensures ParseXY(PointText(p)) == Ok((p.0 as real, p.1 as real))
  {
    var x, y := IntToString(p.0), IntToString(p.1);
    PointTextUnwrapped(p);
    assert ',' !in x by {
      forall c | c in x ensures c != ',' { NumberChars(p.0, c); }
    }
    assert ',' !in y by {
      forall c | c in y ensures c != ',' { NumberChars(p.1, c); }
    }
    ParseXYOneComma(PointText(p), x, y);
    ParseIntToString(p.0);
    ParseIntToString(p.1);
  }

  /** Unwrapping a written corner leaves `x,y`; no whitespace is stripped. */
  lemma PointTextUnwrapped(p: Click)
    ensures Strip(PointText(p), Whitespace) == PointText(p) != []
    ensures Unwrapped(PointText(p)) == IntToString(p.0) + [','] + IntToString(p.1)
  {
    var x, y := IntToString(p.0), IntToString(p.1);
    var t := PointText(p);
    IntToStringChars(p.0);
    IntToStringChars(p.1);
    NotWhitespace(y[|y| - 1]);
    assert t[0] == '(' && t[|t| - 1] == ')';
    StripUnchanged(t, Whitespace);
    var inner := x + "," + y;
    assert t == "(" + inner + ")";
    assert t[1..] == inner + ")";
    assert LStrip(t, {'('}) == LStrip(t[1..], {'('});
    assert (inner + ")")[0] == x[0];
    assert LStrip(t[1..], {'('}) == inner + ")";
    assert (inner + ")")[..|inner|] == inner;
    assert RStrip(inner + ")", {')'}) == RStrip(inner, {')'});
    assert inner[|inner| - 1] == y[|y| - 1];
    assert RStrip(inner, {')'}) == inner;
    assert inner == x + [','] + y;
  }

  /** A written corner holds no `;`. */
  lemma PointTextNoSemicolon(p: Click)
    ensures ';' !in PointText(p)
  {
    forall c | c in IntToString(p.0) ensures c != ';' { NumberChars(p.0, c); }
    forall c | c in IntToString(p.1) ensures c != ';' { NumberChars(p.1, c); }
  }

  lemma {:induction false} ParseWrittenPoints(poly: seq<Click>)
    ensures ParsePoints(PointTexts(poly)) == Ok(AsPoints(poly))
  {
    if poly != [] {
      var texts := PointTexts(poly);
      assert texts[1..] == PointTexts(poly[1..]);
      PointTextParses(poly[0]);
      ParseWrittenPoints(poly[1..]);
    }
  }

  /** A joined text begins with its first part and ends with its last. */
  lemma {:induction false} JoinEnds(parts: seq<string>, sep: char)
    requires |parts| >= 1 && forall k :: 0 <= k < |parts| ==> parts[k] != []
    ensures var j := Join(parts, sep);
      j != [] && j[0] == parts[0][0] && j[|j| - 1] == parts[|parts| - 1][|parts[|parts| - 1]| - 1]
  {
    if |parts| > 1 {
      JoinEnds(parts[1..], sep);
    }
  }

  /** Round trip: the loader reads a written polygon back as the clicked
      points, and a committed stall passes its 3-point check. */
  lemma WrittenPolygonParses(poly: seq<Click>)
    requires |poly| >= 1
    ensures Strip(PolygonText(poly), Whitespace) == PolygonText(poly) != []
    ensures PolygonPoints(PolygonText(poly)) == Ok(AsPoints(poly))
    ensures |AsPoints(poly)| >= 3 <==> |poly| >= 3
  {
    PolygonTextEnds(poly);
    StripUnchanged(PolygonText(poly), Whitespace);
    PolygonTextSplits(poly);
    ParseWrittenPoints(poly);
  }

  /** A written polygon begins with `(` and ends with `)`. */
  lemma PolygonTextEnds(poly: seq<Click>)
    requires |poly| >= 1
    ensures var t := PolygonText(poly); t != [] && t[0] == '(' && t[|t| - 1] == ')'
  {
    var texts := PointTexts(poly);
    forall k | 0 <= k < |texts| ensures texts[k] != [] {
    }
    JoinEnds(texts, ';');
  }

  /** Splitting a written polygon at `;` gives its corners' texts. */
  lemma PolygonTextSplits(poly: seq<Click>)
    requires |poly| >= 1
    ensures Split(PolygonText(poly), ';') == PointTexts(poly)
  {
    var texts := PointTexts(poly);
    forall k | 0 <= k < |texts| ensures ';' !in texts[k] {
      PointTextNoSemicolon(poly[k]);
    }
    SplitJoin(texts, ';');
  }

  /** The row the loader reads for a committed stall is accepted under its
      written id or warned about; it is never skipped and never fails. */
  lemma SavedRowLoads(lib: Shapely, id: string, poly: seq<Click>, accepted: nat)
    requires |poly| >= 3
    ensures RowStep(lib, Row(Some(id), Some(PolygonText(poly))), accepted) ==
      match ToValidPolygon(lib, AsPoints(poly))
      case Some(g) => Accepted(Stall(id, g))
      case None => Warned(InvalidPolygon(Some(id)))
  {
    WrittenPolygonParses(poly);
  }

  /** Loading a saved file never fails, and every committed stall comes back
      as a stall or as a warning. */
  lemma SavedFileLoads(lib: Shapely, header: seq<string>, records: seq<Record>, stalls: seq<seq<Click>>)
    requires IsCsvOf(header, records, stalls) && AllStallsComplete(stalls)
    ensures Load(lib, RowsOf(records)).Ok?
    ensures |Load(lib, RowsOf(records)).value.stalls| + |Load(lib, RowsOf(records)).value.warnings| == |stalls|
  {
    var rows := RowsOf(records);
    forall i | 0 <= i < |rows| ensures RowCounted(lib, rows[i]) {
      forall n: nat ensures RowStep(lib, rows[i], n).Accepted? || RowStep(lib, rows[i], n).Warned? {
        SavedRowLoads(lib, records[i].stallId, stalls[i], n);
      }
    }
    LoadEveryRow(lib, rows);
  }

}
