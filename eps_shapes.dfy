/** The pure half of eps_convert.rb: reading the coordinates of an annotation
    line, deciding whether two lines are the two strokes of one "+" glyph
    (`str_pair?`), and the replacement drawings (`cross`, `plus`, `circle`).

    A kvis annotation line reads `x0 y0 M x1 y1 D str`: tokens 0 and 1 are the
    first point, tokens 3 and 4 the second. */
module EpsShapes {
  import opened Wrappers
  import opened RubyText
  import opened RubyNumber

  /** The shape a colour is converted to. Any name other than the three known
      ones draws nothing, exactly like "none". */
  datatype Shape = Cross | Plus | Circle | NoShape

  function ShapeNamed(name: string): (s: Shape)
    ensures s == Cross <==> name == "cross"
    ensures s == Plus <==> name == "plus"
    ensures s == Circle <==> name == "circle"
  {
    if name == "cross" then Cross
    else if name == "plus" then Plus
    else if name == "circle" then Circle
    else NoShape
  }

  /** Token `k` of a line read with `to_f`; a missing token is Ruby's nil, and
      `nil.to_f` is 0.0. */
  function Coord(line: string, k: nat): real {
    var vs := Values(Tokens(line));
    if k < |vs| then vs[k] else 0.0
  }

  /** Midpoint of the line's two x coordinates. */
  function MidX(line: string): real {
    (Coord(line, 0) + Coord(line, 3)) / 2.0
  }

  /** Midpoint of the line's two y coordinates. */
  function MidY(line: string): real {
    (Coord(line, 1) + Coord(line, 4)) / 2.0
  }

  const Tolerance: real := 0.00001

  /** `str_pair?`: the two lines share their centre, up to the tolerance. */
  predicate IsPair(a: string, b: string) {
    !(Abs(MidX(a) - MidX(b)) > Tolerance) && !(Abs(MidY(a) - MidY(b)) > Tolerance)
  }

  /** The pair test compares centres only: it holds exactly when both midpoint
      differences are within the tolerance, whatever order the lines come in,
      and every line pairs with itself. */
  lemma PairIsCentreMatch(a: string, b: string)
    ensures IsPair(a, b) <==> -Tolerance <= MidX(a) - MidX(b) <= Tolerance && -Tolerance <= MidY(a) - MidY(b) <= Tolerance
    ensures IsPair(a, b) == IsPair(b, a)
    ensures IsPair(a, a)
  {
  }

  /** A line segment from (x0, y0) to (x1, y1). */
  datatype Segment = Segment(x0: real, y0: real, x1: real, y1: real)

  /** `2**-0.5` as Ruby computes it, the shortest decimal for that Float. */
  const Scaler: real := 0.7071067811865476

  /** `str1` is the horizontal stroke (tokens 0 and 3 give the x extent) and
      `str2` the vertical one (tokens 1 and 4 give the y extent); the cross is
      the box's two diagonals, shrunk about its centre by `Scaler`. */
  function CrossSegments(str1: string, str2: string): (r: (Segment, Segment))
    ensures r.0.x0 + r.0.x1 == 2.0 * MidX(str1) && r.0.y0 + r.0.y1 == 2.0 * MidY(str2)
    ensures r.0.x1 - r.0.x0 == Scaler * (Coord(str1, 0) - Coord(str1, 3))
    ensures r.0.y1 - r.0.y0 == Scaler * (Coord(str2, 1) - Coord(str2, 4))
    ensures r.1 == Segment(r.0.x0, r.0.y1, r.0.x1, r.0.y0)
  {
    var xMin, xMax := Coord(str1, 3), Coord(str1, 0);
    var yMin, yMax := Coord(str2, 4), Coord(str2, 1);
    var x := (xMin + xMax) / 2.0;
    var y := (yMin + yMax) / 2.0;
    var nxMin := x + (xMin - x) * Scaler;
    var nxMax := x + (xMax - x) * Scaler;
    var nyMin := y + (yMin - y) * Scaler;
    var nyMax := y + (yMax - y) * Scaler;
    (Segment(nxMin, nyMin, nxMax, nyMax), Segment(nxMin, nyMax, nxMax, nyMin))
  }

  /** One `M ... D str` drawing command, without its newline. */
  function SegmentLine(s: Segment, fmt: Formatter): string {
    "    " + fmt(s.x0, 5) + "  " + fmt(s.y0, 5) + " M " + fmt(s.x1, 5) + "  " + fmt(s.y1, 5) + " D str"
  }

  /** `cross(str1, str2)`. */
  function CrossText(str1: string, str2: string, fmt: Formatter): string {
    var segs := CrossSegments(str1, str2);
    SegmentLine(segs.0, fmt) + "\n" + SegmentLine(segs.1, fmt) + "\n"
  }

  /** `plus(str1, str2)`: both lines again, indented; each still carries its
      own newline, so a blank line follows. */
  function PlusText(str1: string, str2: string): string {
    "    " + str1 + "    " + str2 + "\n"
  }

  /** A full circle of radius `radius` centred at (cx, cy). */
  datatype Arc = Arc(cx: real, cy: real, radius: real)

  /** Token 1 taken as it stands: `sprintf("%.5f", str)` converts a String with
      `Float()`, which raises on anything but a number, and on nil. */
  function CircleArc(str: string, size: real): (r: Result<Arc>)
    ensures r.Ok? <==> |Tokens(str)| > 1 && StrictFloat(Tokens(str)[1]).Some?
    ensures r.Ok? ==> r.value.cx == MidX(str) && r.value.cy == Coord(str, 1) && r.value.radius == size
  {
    var ts := Tokens(str);
    if |ts| <= 1 then Err("TypeError: can't convert nil into Float")
    else
      match StrictFloat(ts[1])
      case None => Err("ArgumentError: invalid value for Float()")
      case Some(y) =>
        StrictFloatAgrees(ts[1]);
        Ok(Arc((Coord(str, 0) + Coord(str, 3)) / 2.0, y, size))
  }

  /** The drawing command for one arc. */
  function ArcLine(arc: Arc, fmt: Formatter): string {
    "    " + fmt(arc.cx, 5) + "  " + fmt(arc.cy, 5) + "  " + fmt(arc.radius, 2) + "  0 360 arc closepath stroke\n"
  }

  /** `circle(str, size)`, without the "stroke" that `bw_append` puts first. */
  function CircleText(str: string, size: real, fmt: Formatter): Result<string> {
    var arc :- CircleArc(str, size);
    Ok(ArcLine(arc, fmt))
  }

  /** What `bw_append` appends for one accepted pair. */
  function Render(shape: Shape, str1: string, str2: string, size: real, fmt: Formatter): Result<string> {
    match shape
    case Cross => Ok(CrossText(str1, str2, fmt))
    case Plus => Ok(PlusText(str1, str2))
    case Circle =>
      var c :- CircleText(str1, size, fmt);
      Ok("stroke" + c)
    case NoShape => Ok("")
  }

  /** The rendered text cut into the pieces it is printed as. They are whole
      lines when the two annotation lines are (`EpsDriver.RenderLinesPlain`). */
  function RenderLines(shape: Shape, str1: string, str2: string, size: real, fmt: Formatter): (ls: seq<string>)
    requires Render(shape, str1, str2, size, fmt).Ok?
    ensures Concat(ls) == Render(shape, str1, str2, size, fmt).value
  {
    match shape
    case Cross =>
      var segs := CrossSegments(str1, str2);
      var ls := [SegmentLine(segs.0, fmt) + "\n", SegmentLine(segs.1, fmt) + "\n"];
      ConcatShort(ls[0], ls[1], "");
      ls
    case Plus =>
      var ls := ["    " + str1, "    " + str2, "\n"];
      ConcatShort(ls[0], ls[1], ls[2]);
      ls
    case Circle =>
      var ls := ["stroke" + CircleText(str1, size, fmt).value];
      ConcatShort(ls[0], "", "");
      ls
    case NoShape => []
  }
}
