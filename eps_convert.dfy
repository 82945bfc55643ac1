/** The rewriting half of eps_convert.rb: the header/body split, the region
    finder (`capture_lines`), `comment`, `bw_append`, the per-colour driver loop
    and the output file name.

    The annotation body is a sequence of lines. A region of one colour starts
    at the first line that is exactly the colour's marker and runs over the
    following lines that mention neither `setrgbcolor` nor `setlinewidth`. Each
    rewrite comments the region out in place and appends the converted glyphs
    at the END of the body, twice, under a white and a black header; the body
    is then split into lines again, and the loop repeats until the marker no
    longer occurs. */
module EpsConvert {
  import opened Wrappers
  import opened RubyText
  import opened RubyNumber
  import opened EpsShapes

  // ---------------------------------------------------------------------
  // Colours and options

  /** The line kvis writes to switch to the colour with components `rgb`. */
  function MarkerLine(rgb: string): string {
    " " + rgb + "  setrgbcolor\n"
  }

  /** The colour components of the five convertible colours, as kvis writes them. */
  const RedRgb: string := "1.0000   0.0000   0.0000"
  const GreenRgb: string := "0.0000   1.0000   0.0000"
  const BlueRgb: string := "0.0000   0.0000   1.0000"
  const YellowRgb: string := "1.0000   1.0000   0.0000"
  const PinkRgb: string := "1.0000   0.7529   0.7961"

  /** One requested conversion: the target shape, the colour whose marker
      line opens a region, and the name used in the section comment. */
  datatype Colour = Colour(shape: Shape, rgb: string, name: string) {
    /** The exact line that opens a region of this colour. */
    function Marker(): string {
      MarkerLine(rgb)
    }
  }

  /** The settings `bw_append` reads: the two line widths as typed on the
      command line, the circle radius, `--switch`, and the number formatter. */
  datatype Config = Config(weight1: string, weight2: string, size: real, switch: bool, fmt: Formatter)

  /** The shape named for each colour option, if that option was given. */
  datatype Options = Options(red: Option<string>, green: Option<string>, blue: Option<string>,
                             yellow: Option<string>, pink: Option<string>, config: Config)

  /** The option defaults: weights "1.0e0" and "3.0e-1", radius 2.5, no switch. */
  function DefaultConfig(fmt: Formatter): Config {
    Config("1.0e0", "3.0e-1", 2.5, false, fmt)
  }

  function Requested1(choice: Option<string>, rgb: string, name: string): seq<Colour> {
    match choice
    case None => []
    case Some(shape) => [Colour(ShapeNamed(shape), rgb, name)]
  }

  /** The colours to convert, skipping those not asked for, in the fixed order
      red, green, blue, yellow, pink. */
  function Requested(o: Options): seq<Colour> {
    Requested1(o.red, RedRgb, "Red") + Requested1(o.green, GreenRgb, "Green")
    + Requested1(o.blue, BlueRgb, "Blue") + Requested1(o.yellow, YellowRgb, "Yellow")
    + Requested1(o.pink, PinkRgb, "Pink")
  }

  /** A colour-marker line: a space, a digit, and "setrgbcolor" at the end. */
  predicate MarkerShaped(m: string) {
    IsLine(m) && |m| >= 13 && m[0] == ' ' && IsDigit(m[1]) && EndsWith(m, "setrgbcolor\n")
  }

  /** Components that start with a digit and a one-line name. */
  predicate ColourOk(c: Colour) {
    c.rgb != "" && IsDigit(c.rgb[0]) && '\n' !in c.rgb && '\n' !in c.name
  }

  /** The marker of a well-formed colour has the marker shape. */
  lemma ColourMarkerShaped(c: Colour)
    requires ColourOk(c)
    ensures MarkerShaped(c.Marker())
  {
    var m := c.Marker();
    var body := " " + c.rgb + "  setrgbcolor";
    assert m == body + "\n";
    assert m[..|m| - 1] == body;
    assert m == " " + c.rgb + "  " + "setrgbcolor\n";
    EndsWithAppended(" " + c.rgb + "  ", "setrgbcolor\n");
    assert m[1] == c.rgb[0];
  }

  lemma EndsWithAppended(a: string, b: string)
    ensures EndsWith(a + b, b)
  {
    assert (a + b)[|a|..] == b;
  }

  /** Different components give different marker lines. */
  lemma MarkerLineInjective(u: string, v: string)
    requires MarkerLine(u) == MarkerLine(v)
    ensures u == v
  {
    assert |u| == |v|;
    assert u == MarkerLine(u)[1..|u| + 1];
  }

  predicate DistinctMarkers(cs: seq<Colour>) {
    forall j, k | 0 <= j < k < |cs| :: cs[j].Marker() != cs[k].Marker()
  }

  /** No two colours of `cs` share their components, and all of them come from `rgbs`. */
  predicate DistinctFrom(cs: seq<Colour>, rgbs: set<string>) {
    (forall j | 0 <= j < |cs| :: cs[j].rgb in rgbs)
    && forall j, k | 0 <= j < k < |cs| :: cs[j].rgb != cs[k].rgb
  }

  lemma DistinctJoin(a: seq<Colour>, b: seq<Colour>, ra: set<string>, rb: set<string>)
    requires DistinctFrom(a, ra) && DistinctFrom(b, rb) && ra !! rb
    ensures DistinctFrom(a + b, ra + rb)
  {
    forall j, k | 0 <= j < k < |a + b| ensures (a + b)[j].rgb != (a + b)[k].rgb {
      if k < |a| {
      } else if j >= |a| {
        assert (a + b)[j] == b[j - |a|] && (a + b)[k] == b[k - |a|];
      } else {
        assert (a + b)[j].rgb in ra && (a + b)[k].rgb in rb;
      }
    }
  }

  lemma NamesSingleLine(o: Options, j: nat)
    requires j < |Requested(o)|
    ensures '\n' !in Requested(o)[j].name
  {
    var r1 := Requested1(o.red, RedRgb, "Red");
    var r2 := Requested1(o.green, GreenRgb, "Green");
    var r3 := Requested1(o.blue, BlueRgb, "Blue");
    var r4 := Requested1(o.yellow, YellowRgb, "Yellow");
    var r5 := Requested1(o.pink, PinkRgb, "Pink");
    var r := Requested(o);
    assert r == r1 + r2 + r3 + r4 + r5;
    assert r[j] in r1 || r[j] in r2 || r[j] in r3 || r[j] in r4 || r[j] in r5;
  }

  lemma RgbsSingleLine()
    ensures RedRgb[0] == '1' && GreenRgb[0] == '0' && BlueRgb[0] == '0' && YellowRgb[0] == '1' && PinkRgb[0] == '1'
    ensures '\n' !in RedRgb && '\n' !in GreenRgb && '\n' !in BlueRgb && '\n' !in YellowRgb && '\n' !in PinkRgb
  {
  }

  /** Every requested colour is well formed, and no two share a marker. */
  lemma RequestedColours(o: Options)
    ensures forall j | 0 <= j < |Requested(o)| :: ColourOk(Requested(o)[j])
    ensures DistinctMarkers(Requested(o))
  {
    var r := Requested(o);
    var all := {RedRgb, GreenRgb, BlueRgb, YellowRgb, PinkRgb};
    assert DistinctFrom(r, all) by { RequestedDistinct(o); }
    forall j | 0 <= j < |r| ensures ColourOk(r[j]) {
      assert r[j].rgb in all;
      RgbsSingleLine();
      NamesSingleLine(o, j);
    }
    forall j, k | 0 <= j < k < |r| ensures r[j].Marker() != r[k].Marker() {
      if r[j].Marker() == r[k].Marker() {
        MarkerLineInjective(r[j].rgb, r[k].rgb);
      }
    }
  }

  lemma RequestedDistinct(o: Options)
    ensures DistinctFrom(Requested(o), {RedRgb, GreenRgb, BlueRgb, YellowRgb, PinkRgb})
  {
    var r1 := Requested1(o.red, RedRgb, "Red");
    var r2 := Requested1(o.green, GreenRgb, "Green");
    var r3 := Requested1(o.blue, BlueRgb, "Blue");
    var r4 := Requested1(o.yellow, YellowRgb, "Yellow");
    var r5 := Requested1(o.pink, PinkRgb, "Pink");
    assert RedRgb[0] != GreenRgb[0] && RedRgb[9] != YellowRgb[9] && RedRgb[11] != PinkRgb[11];
    assert GreenRgb[9] != BlueRgb[9] && YellowRgb[9] != PinkRgb[9];
    DistinctJoin(r1, r2, {RedRgb}, {GreenRgb});
    DistinctJoin(r1 + r2, r3, {RedRgb, GreenRgb}, {BlueRgb});
    DistinctJoin(r1 + r2 + r3, r4, {RedRgb, GreenRgb, BlueRgb}, {YellowRgb});
    DistinctJoin(r1 + r2 + r3 + r4, r5, {RedRgb, GreenRgb, BlueRgb, YellowRgb}, {PinkRgb});
    assert {RedRgb, GreenRgb, BlueRgb, YellowRgb} + {PinkRgb} == {RedRgb, GreenRgb, BlueRgb, YellowRgb, PinkRgb};
  }

  // ---------------------------------------------------------------------
  // Counting exact lines

  /** How many lines are exactly `x`. */
  function Count(x: string, ls: seq<string>): (n: nat)
    ensures n == 0 <==> x !in ls
    ensures n <= |ls|
  {
    if ls == [] then 0 else (if ls[0] == x then 1 else 0) + Count(x, ls[1..])
  }

  lemma {:induction false} CountAppend(x: string, a: seq<string>, b: seq<string>)
    ensures Count(x, a + b) == Count(x, a) + Count(x, b)
  {
    if a != [] {
      assert (a + b)[1..] == a[1..] + b;
      CountAppend(x, a[1..], b);
    } else {
      assert a + b == b;
    }
  }

  lemma {:induction false} CountUpdate(x: string, ls: seq<string>, j: nat, v: string)
    requires j < |ls|
    ensures Count(x, ls[j := v]) == Count(x, ls) - (if ls[j] == x then 1 else 0) + (if v == x then 1 else 0)
  {
    if j == 0 {
      assert ls[j := v][1..] == ls[1..];
    } else {
      assert ls[j := v][1..] == ls[1..][j - 1 := v];
      CountUpdate(x, ls[1..], j - 1, v);
    }
  }

  // ---------------------------------------------------------------------
  // The region finder

  /** A region: the marker line `start` and the last line `end` before the
      line that ends it. */
  datatype Region = Region(start: nat, end: nat)

  /** The end pattern `.*(setrgbcolor|setlinewidth)`: a match anywhere in the line. */
  predicate EndsRegion(l: string) {
    Contains(l, "setrgbcolor") || Contains(l, "setlinewidth")
  }

  lemma MarkerEndsRegion(m: string)
    requires MarkerShaped(m)
    ensures EndsRegion(m)
  {
    assert OccursAt(m, "setrgbcolor", |m| - 12);
  }

  /** `Array#index`: the first position holding exactly `x`. */
  function IndexOf(ls: seq<string>, x: string): (r: Option<nat>)
    ensures r.None? <==> x !in ls
    ensures r.Some? ==> r.value < |ls| && ls[r.value] == x && x !in ls[..r.value]
  {
    if ls == [] then None
    else if ls[0] == x then Some(0)
    else match IndexOf(ls[1..], x)
      case None => None
      case Some(k) => assert ls[..k + 1] == [ls[0]] + ls[1..][..k]; Some(k + 1)
  }

  /** The first position at or after `k` whose line ends a region, or `|ls|`. */
  function RegionStop(ls: seq<string>, k: nat): (j: nat)
    requires k <= |ls|
    ensures k <= j <= |ls|
    ensures forall i | k <= i < j :: !EndsRegion(ls[i])
    ensures j < |ls| ==> EndsRegion(ls[j])
    decreases |ls| - k
  {
    if k == |ls| || EndsRegion(ls[k]) then k else RegionStop(ls, k + 1)
  }

  /** What `capture_lines` returns: nothing when no line is exactly the marker;
      otherwise the first such line and the last line before the end pattern
      matches again (or the last line of the buffer). */
  function FindRegion(ls: seq<string>, marker: string): (r: Option<Region>)
    ensures r.None? <==> marker !in ls
    ensures r.Some? ==> r.value.start <= r.value.end < |ls|
    ensures r.Some? ==> ls[r.value.start] == marker && marker !in ls[..r.value.start]
    ensures r.Some? ==> forall i | r.value.start < i <= r.value.end :: !EndsRegion(ls[i])
    ensures r.Some? ==> r.value.end + 1 == |ls| || EndsRegion(ls[r.value.end + 1])
  {
    match IndexOf(ls, marker)
    case None => None
    case Some(s) => Some(Region(s, RegionStop(ls, s + 1) - 1))
  }

  /** `capture_lines`: find the marker, then count the lines after it until
      one matches the end pattern. */
  method CaptureLines(ls: seq<string>, marker: string) returns (r: Option<Region>)
    ensures r == FindRegion(ls, marker)
  {
    var found := IndexOf(ls, marker);
    if found.None? {
      return None;
    }
    var start := found.value;
    var end := start;
    var k := start + 1;
    while k < |ls|
      invariant start + 1 <= k <= |ls| && end == k - 1
      invariant forall i | start + 1 <= i < k :: !EndsRegion(ls[i])
      decreases |ls| - k
    {
      if EndsRegion(ls[k]) {
        break;
      }
      end := end + 1;
      k := k + 1;
    }
    assert k == RegionStop(ls, start + 1);
    return Some(Region(start, end));
  }

  // ---------------------------------------------------------------------
  // comment

  /** One `sub!`: the first line exactly equal to `x` gets the prefix "%  ". */
  function CommentFirst(ls: seq<string>, x: string): (r: seq<string>)
    ensures |r| == |ls|
  {
    match IndexOf(ls, x)
    case None => ls
    case Some(j) => ls[j := "%  " + x]
  }

  /** `comment`: the lines `lo..hi` of `orig`, in order, each commented at its
      first occurrence in the text being built. */
  function Commented(ls: seq<string>, orig: seq<string>, lo: nat, hi: nat): (r: seq<string>)
    requires hi < |orig|
    ensures |r| == |ls|
    decreases hi + 1 - lo
  {
    if lo > hi then ls else Commented(CommentFirst(ls, orig[lo]), orig, lo + 1, hi)
  }

  /** `comment` as a loop over the region's line numbers. */
  method CommentRegion(ls: seq<string>, region: Region) returns (r: seq<string>)
    requires region.end < |ls|
    ensures r == Commented(ls, ls, region.start, region.end)
  {
    r := ls;
    var l := region.start;
    ghost var goal := Commented(ls, ls, region.start, region.end);
    while l <= region.end
      invariant region.start <= l
      invariant Commented(r, ls, l, region.end) == goal
      decreases region.end + 1 - l
    {
      CommentedStep(r, ls, l, region.end);
      r := CommentFirst(r, ls[l]);
      l := l + 1;
    }
    CommentedDone(r, ls, l, region.end);
  }

  lemma CommentedDone(ls: seq<string>, orig: seq<string>, lo: nat, hi: nat)
    requires hi < lo && hi < |orig|
    ensures Commented(ls, orig, lo, hi) == ls
  {
  }

  lemma CommentedStep(ls: seq<string>, orig: seq<string>, lo: nat, hi: nat)
    requires lo <= hi < |orig|
    ensures Commented(CommentFirst(ls, orig[lo]), orig, lo + 1, hi) == Commented(ls, orig, lo, hi)
  {
  }

  /** Commenting only ever puts "%  " in front of lines: each line is kept, or
      becomes a commented line that still ends with the original text. */
  lemma {:induction false} CommentedLines(ls: seq<string>, orig: seq<string>, lo: nat, hi: nat)
    requires hi < |orig|
    ensures forall k | 0 <= k < |ls| ::
      Commented(ls, orig, lo, hi)[k] == ls[k] || (StartsWith(Commented(ls, orig, lo, hi)[k], "%  ") && EndsWith(Commented(ls, orig, lo, hi)[k], ls[k]))
    decreases hi + 1 - lo
  {
    if lo <= hi {
      var next := CommentFirst(ls, orig[lo]);
      CommentedLines(next, orig, lo + 1, hi);
      var r := Commented(ls, orig, lo, hi);
      assert r == Commented(next, orig, lo + 1, hi);
      forall k | 0 <= k < |ls|
        ensures r[k] == ls[k] || (StartsWith(r[k], "%  ") && EndsWith(r[k], ls[k]))
      {
        assert next[k] == ls[k] || next[k] == "%  " + ls[k];
        PrefixedTwice(ls[k], next[k], r[k]);
      }
    }
  }

  /** A line commented at most once, then kept or commented again, is kept
      or ends with the line it was. */
  lemma PrefixedTwice(a: string, b: string, c: string)
    requires b == a || b == "%  " + a
    requires c == b || (StartsWith(c, "%  ") && EndsWith(c, b))
    ensures c == a || (StartsWith(c, "%  ") && EndsWith(c, a))
  {
    if c != b && b != a {
      assert c[|c| - |a|..] == b[|b| - |a|..];
    }
  }

  /** `index` finds `x` at `j` when no earlier line holds it. */
  lemma IndexOfAt(ls: seq<string>, x: string, j: nat)
    requires j < |ls| && ls[j] == x && forall k | 0 <= k < j :: ls[k] != x
    ensures IndexOf(ls, x) == Some(j)
  {
  }

  /** When each region line occurs first at its own position and none of
      them starts with "%", `comment` prefixes exactly the region's lines
      with "%  " and leaves every other line alone. */
  lemma CommentedRegionLines(ls: seq<string>, lo: nat, hi: nat)
    requires hi < |ls|
    requires forall k | lo <= k <= hi :: ls[k] !in ls[..k] && !StartsWith(ls[k], "%")
    ensures forall k | 0 <= k < |ls| ::
      Commented(ls, ls, lo, hi)[k] == if lo <= k <= hi then "%  " + ls[k] else ls[k]
  {
    if lo <= hi {
      CommentedFrom(ls, ls, lo, lo, hi);
    }
  }

  /** The induction behind CommentedRegionLines: lines `lo0..lo - 1` are
      already commented, the rest are as in `orig`. */
  lemma {:induction false} CommentedFrom(cur: seq<string>, orig: seq<string>, lo0: nat, lo: nat, hi: nat)
    requires lo0 <= lo <= hi + 1 && hi < |orig|
    requires forall k | lo0 <= k <= hi :: orig[k] !in orig[..k] && !StartsWith(orig[k], "%")
    requires |cur| == |orig| && forall k | 0 <= k < |orig| :: cur[k] == if lo0 <= k < lo then "%  " + orig[k] else orig[k]
    ensures forall k | 0 <= k < |orig| ::
      Commented(cur, orig, lo, hi)[k] == if lo0 <= k <= hi then "%  " + orig[k] else orig[k]
    decreases hi + 1 - lo
  {
    if lo <= hi {
      var x := orig[lo];
      forall k | 0 <= k < lo ensures cur[k] != x {
        if k < lo0 {
          assert orig[..lo][k] == orig[k];
        } else {
          assert ("%  " + orig[k])[..1] == "%";
        }
      }
      IndexOfAt(cur, x, lo);
      var next := cur[lo := "%  " + x];
      assert CommentFirst(cur, x) == next;
      CommentedFrom(next, orig, lo0, lo + 1, hi);
    }
  }

  // ---------------------------------------------------------------------
  // bw_append

  /** What a failed method call on the missing line after the buffer raises. */
  const NilLine: string := "NoMethodError: undefined method `split' for nil:NilClass"

  /** The body of the glyph loop for one line and the line after it: the
      glyph of the two if they pair (`str_pair?`), nothing otherwise. */
  function PairGlyph(shape: Shape, c: Config): (string, string) -> Result<string> {
    (str1: string, str2: string) => if IsPair(str1, str2) then Render(shape, str1, str2, c.size, c.fmt) else Ok("")
  }

  /** The glyphs `bw_append` draws for lines `i..hi`, with `draw` the loop
      body: line `i` is handed to it together with line `i + 1`. The pair
      test reads line `i + 1` even at the end of the region, so a region that
      reaches the last line of the buffer fails there. */
  function Glyphs(ls: seq<string>, i: nat, hi: nat, draw: (string, string) -> Result<string>): Result<string>
    requires hi < |ls|
    decreases hi + 1 - i
  {
    if i > hi then Ok("")
    else if i + 1 >= |ls| then Err(NilLine)
    else
      var piece :- draw(ls[i], ls[i + 1]);
      var rest :- Glyphs(ls, i + 1, hi, draw);
      Ok(piece + rest)
  }

  /** With the shape "none" the loop draws nothing at all; it still fails
      when the region reaches the last line of the buffer. */
  lemma {:induction false} NoShapeDrawsNothing(ls: seq<string>, i: nat, hi: nat, c: Config)
    requires hi < |ls|
    ensures Glyphs(ls, i, hi, PairGlyph(NoShape, c)) == (if i <= hi && hi + 1 == |ls| then Err(NilLine) else Ok(""))
    decreases hi + 1 - i
  {
    if i <= hi && i + 1 < |ls| {
      NoShapeDrawsNothing(ls, i + 1, hi, c);
      assert PairGlyph(NoShape, c)(ls[i], ls[i + 1]) == Ok("");
      assert "" + "" == "";
    }
  }

  /** Only a circle can be refused by its drawing: with any other shape the
      loop fails exactly when it reaches the buffer's last line, whose partner
      is nil. */
  lemma {:induction false} GlyphsFailure(ls: seq<string>, i: nat, hi: nat, shape: Shape, c: Config)
    requires hi < |ls| && shape != Circle
    ensures Glyphs(ls, i, hi, PairGlyph(shape, c)).Err? <==> i <= hi && hi + 1 == |ls|
    ensures Glyphs(ls, i, hi, PairGlyph(shape, c)).Err? ==> Glyphs(ls, i, hi, PairGlyph(shape, c)).error == NilLine
    decreases hi + 1 - i
  {
    if i <= hi && i + 1 < |ls| {
      GlyphsFailure(ls, i + 1, hi, shape, c);
      assert PairGlyph(shape, c)(ls[i], ls[i + 1]).Ok?;
    }
  }


  const WhiteLine: string := "1.0000   1.0000   1.0000  setrgbcolor\n"
  const BlackLine: string := "0.0000   0.0000   0.0000  setrgbcolor\n"

  /** The section comment that introduces one colour's copies. */
  function ColourComment(name: string): string {
    "\n%% " + name + " plus symbols\n"
  }

  /** The header of the first, wide copy: white (black with `--switch`). */
  function Header1(c: Config): string {
    (if c.switch then BlackLine else WhiteLine) + c.weight1 + " setlinewidth\n"
  }

  /** The header of the second, narrow copy: black (white with `--switch`),
      after a blank line. */
  function Header2(c: Config): string {
    "\n" + (if c.switch then WhiteLine else BlackLine) + c.weight2 + " setlinewidth\n"
  }

  /** `--switch` swaps the two colours and keeps each copy's weight. */
  lemma SwitchSwapsColours(c: Config)
    ensures Header1(c) == (if c.switch then BlackLine else WhiteLine) + c.weight1 + " setlinewidth\n"
    ensures Header2(c) == "\n" + (if c.switch then WhiteLine else BlackLine) + c.weight2 + " setlinewidth\n"
    ensures Header1(c.(switch := !c.switch))[..|WhiteLine|] == Header2(c)[1..|WhiteLine| + 1]
    ensures Header2(c.(switch := !c.switch))[1..|WhiteLine| + 1] == Header1(c)[..|WhiteLine|]
    ensures WhiteLine != BlackLine
  {
    assert WhiteLine[0] != BlackLine[0];
    assert |WhiteLine| == |BlackLine|;
    ColourFirst(WhiteLine, c.weight1, " setlinewidth\n");
    ColourFirst(BlackLine, c.weight1, " setlinewidth\n");
    ColourAfterBlank(WhiteLine, c.weight2, " setlinewidth\n");
    ColourAfterBlank(BlackLine, c.weight2, " setlinewidth\n");
  }

  lemma ColourFirst(colour: string, w: string, t: string)
    ensures (colour + w + t)[..|colour|] == colour
  {
  }

  lemma ColourAfterBlank(colour: string, w: string, t: string)
    ensures ("\n" + colour + w + t)[1..|colour| + 1] == colour
  {
  }

  /** `bw_append`: the buffer joined, with the region commented out, then the
      colour's section comment and the glyphs twice, once under each header. */
  function Rewrite(ls: seq<string>, region: Region, colour: Colour, c: Config): Result<string>
    requires region.end < |ls|
  {
    var glyphs :- Glyphs(ls, region.start + 1, region.end, PairGlyph(colour.shape, c));
    Ok(Assembled(Commented(ls, ls, region.start, region.end), colour.name, c, glyphs))
  }

  /** `bw_append` fails for a shape other than the circle exactly when the
      region holds a line after the marker and runs to the end of the buffer. */
  lemma RewriteFailure(ls: seq<string>, region: Region, colour: Colour, c: Config)
    requires region.end < |ls| && colour.shape != Circle
    ensures Rewrite(ls, region, colour, c).Err? <==> region.start < region.end && region.end + 1 == |ls|
    ensures Rewrite(ls, region, colour, c).Err? ==> Rewrite(ls, region, colour, c).error == NilLine
  {
    GlyphsFailure(ls, region.start + 1, region.end, colour.shape, c);
  }

  /** The commented buffer, the section comment, and the glyphs under each header. */
  function Assembled(commented: seq<string>, name: string, c: Config, glyphs: string): string {
    Concat(commented) + ColourComment(name) + Header1(c) + glyphs + Header2(c) + glyphs
  }

  /** One step of the glyph loop: line `i` contributes its piece, or its
      failure ends the walk. */
  lemma GlyphsStep(ls: seq<string>, i: nat, hi: nat, draw: (string, string) -> Result<string>, g: string)
    requires i <= hi < |ls| && i + 1 < |ls|
    ensures draw(ls[i], ls[i + 1]).Ok? ==>
      Prefixed(g, Glyphs(ls, i, hi, draw)) == Prefixed(g + draw(ls[i], ls[i + 1]).value, Glyphs(ls, i + 1, hi, draw))
    ensures draw(ls[i], ls[i + 1]).Err? ==> Glyphs(ls, i, hi, draw) == Err(draw(ls[i], ls[i + 1]).error)
  {
    var rest := Glyphs(ls, i + 1, hi, draw);
    var piece := draw(ls[i], ls[i + 1]);
    if rest.Ok? && piece.Ok? {
      assert g + (piece.value + rest.value) == (g + piece.value) + rest.value;
    }
  }

  /** The glyph loop of `bw_append`: walk the region's lines after the marker,
      collecting what `draw` makes of each line and the next. */
  method DrawGlyphs(ls: seq<string>, region: Region, draw: (string, string) -> Result<string>) returns (r: Result<string>)
    requires region.end < |ls|
    ensures r == Glyphs(ls, region.start + 1, region.end, draw)
  {
    var glyphs := "";
    var i := region.start + 1;
    var whole := Glyphs(ls, i, region.end, draw);
    assert whole.Ok? ==> "" + whole.value == whole.value;
    while i <= region.end
      invariant region.start + 1 <= i
      invariant whole == Prefixed(glyphs, Glyphs(ls, i, region.end, draw))
      decreases region.end + 1 - i
    {
      if i + 1 >= |ls| {
        return Err(NilLine);
      }
      var piece := draw(ls[i], ls[i + 1]);
      GlyphsStep(ls, i, region.end, draw, glyphs);
      if piece.Err? {
        return Err(piece.error);
      }
      glyphs := glyphs + piece.value;
      i := i + 1;
    }
    assert glyphs + "" == glyphs;
    r := Ok(glyphs);
  }

  /** `bw_append`: comment the region out, draw its glyphs, and append them
      twice under the section comment and the two headers. */
  method BwAppend(colour: Colour, region: Region, ls: seq<string>, c: Config) returns (r: Result<string>)
    requires region.end < |ls|
    ensures r == Rewrite(ls, region, colour, c)
  {
    var commented := CommentRegion(ls, region);
    var draw := PairGlyph(colour.shape, c);
    var glyphs := DrawGlyphs(ls, region, draw);
    if glyphs.Err? {
      assert Rewrite(ls, region, colour, c) == Err(glyphs.error);
      return Err(glyphs.error);
    }
    assert Rewrite(ls, region, colour, c) == Ok(Assembled(commented, colour.name, c, glyphs.value));
    r := Ok(Assembled(commented, colour.name, c, glyphs.value));
  }
}
