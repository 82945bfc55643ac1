/** The driver of eps_convert.rb: each rewrite is split back into lines, the
    rewrite is repeated until a colour's marker is gone, the colours are taken
    in turn, and the file is cut into its PostScript header and its annotation
    body. The lemmas here show why the repetition ends: every round comments
    out exactly one marker line and appends nothing that looks like a marker. */
module EpsDriver {
  import opened Wrappers
  import opened RubyText
  import opened RubyNumber
  import opened EpsShapes
  import opened EpsConvert

  // ---------------------------------------------------------------------
  // The appended text as lines

  /** A line of the rewritten buffer that can never open a region. */
  predicate Plain(l: string) {
    IsLine(l) && !MarkerShaped(l)
  }

  predicate AllPlain(ls: seq<string>) {
    forall k | 0 <= k < |ls| :: Plain(ls[k])
  }

  lemma AllPlainAppend(a: seq<string>, b: seq<string>)
    requires AllPlain(a) && AllPlain(b)
    ensures AllPlain(a + b)
  {
    forall k | 0 <= k < |a + b| ensures Plain((a + b)[k]) {
      if k >= |a| {
        assert (a + b)[k] == b[k - |a|];
      }
    }
  }

  lemma NewlineLine(t: string)
    requires '\n' !in t
    ensures IsLine(t + "\n")
  {
    assert (t + "\n")[..|t|] == t;
  }

  /** The glyphs drawn for lines `i..hi`, as whole lines. */
  function GlyphLines(ls: seq<string>, i: nat, hi: nat, shape: Shape, c: Config): (r: seq<string>)
    requires hi < |ls|
    requires Glyphs(ls, i, hi, PairGlyph(shape, c)).Ok?
    ensures Concat(r) == Glyphs(ls, i, hi, PairGlyph(shape, c)).value
    decreases hi + 1 - i
  {
    if i > hi then []
    else
      var draw := PairGlyph(shape, c);
      assert i + 1 < |ls|;
      var here := if IsPair(ls[i], ls[i + 1]) then RenderLines(shape, ls[i], ls[i + 1], c.size, c.fmt) else [];
      assert Concat(here) == draw(ls[i], ls[i + 1]).value;
      var rest := GlyphLines(ls, i + 1, hi, shape, c);
      ConcatAppend(here, rest);
      here + rest
  }

  /** A drawn glyph is made of plain lines: indented drawing commands, a
      copied annotation line behind an indent, a blank line, or a line that
      starts with "stroke". */
  lemma RenderLinesPlain(shape: Shape, str1: string, str2: string, size: real, fmt: Formatter)
    requires IsLine(str1) && IsLine(str2) && SingleLine(fmt)
    requires Render(shape, str1, str2, size, fmt).Ok?
    ensures AllPlain(RenderLines(shape, str1, str2, size, fmt))
  {
    match shape
    case Cross =>
      var segs := CrossSegments(str1, str2);
      SegmentLinePlain(segs.0, fmt);
      SegmentLinePlain(segs.1, fmt);
    case Plus =>
      IndentedPlain(str1);
      IndentedPlain(str2);
      NewlineLine("");
      assert "" + "\n" == "\n";
    case Circle =>
      CircleLinePlain(CircleArc(str1, size).value, fmt);
    case NoShape =>
  }

  lemma CircleLinePlain(arc: Arc, fmt: Formatter)
    requires SingleLine(fmt)
    ensures Plain("stroke" + ArcLine(arc, fmt))
  {
    var body := "    " + fmt(arc.cx, 5) + "  " + fmt(arc.cy, 5) + "  " + fmt(arc.radius, 2) + "  0 360 arc closepath stroke";
    assert '\n' !in fmt(arc.cx, 5) && '\n' !in fmt(arc.cy, 5) && '\n' !in fmt(arc.radius, 2);
    assert ArcLine(arc, fmt) == body + "\n";
    NewlineLine("stroke" + body);
    assert "stroke" + (body + "\n") == ("stroke" + body) + "\n";
  }

  lemma SegmentLinePlain(s: Segment, fmt: Formatter)
    requires SingleLine(fmt)
    ensures Plain(SegmentLine(s, fmt) + "\n")
  {
    assert '\n' !in fmt(s.x0, 5) && '\n' !in fmt(s.y0, 5) && '\n' !in fmt(s.x1, 5) && '\n' !in fmt(s.y1, 5);
    NewlineLine(SegmentLine(s, fmt));
    assert (SegmentLine(s, fmt) + "\n")[1] == ' ';
  }

  lemma IndentedPlain(l: string)
    requires IsLine(l)
    ensures Plain("    " + l)
  {
    var t := "    " + l;
    assert t[..|t| - 1] == "    " + l[..|l| - 1];
    assert t[1] == ' ';
  }

  /** Everything the glyph loop draws is plain lines. */
  lemma {:induction false} GlyphLinesPlain(ls: seq<string>, i: nat, hi: nat, shape: Shape, c: Config)
    requires hi < |ls| && WellFormed(ls) && SingleLine(c.fmt)
    requires Glyphs(ls, i, hi, PairGlyph(shape, c)).Ok?
    ensures AllPlain(GlyphLines(ls, i, hi, shape, c))
    decreases hi + 1 - i
  {
    if i <= hi {
      assert i + 1 < |ls|;
      var draw := PairGlyph(shape, c);
      var here := if IsPair(ls[i], ls[i + 1]) then RenderLines(shape, ls[i], ls[i + 1], c.size, c.fmt) else [];
      if IsPair(ls[i], ls[i + 1]) {
        assert Render(shape, ls[i], ls[i + 1], c.size, c.fmt) == draw(ls[i], ls[i + 1]);
        RenderLinesPlain(shape, ls[i], ls[i + 1], c.size, c.fmt);
      }
      GlyphLinesPlain(ls, i + 1, hi, shape, c);
      var rest := GlyphLines(ls, i + 1, hi, shape, c);
      assert GlyphLines(ls, i, hi, shape, c) == here + rest;
      AllPlainAppend(here, rest);
    }
  }

  function FirstColour(c: Config): string {
    if c.switch then BlackLine else WhiteLine
  }

  function SecondColour(c: Config): string {
    if c.switch then WhiteLine else BlackLine
  }

  /** The section comment and the first header as lines: a blank line, the
      comment, the colour line and the width line. */
  function HeadLines(name: string, c: Config): seq<string> {
    ["\n", "%% " + name + " plus symbols\n"] + [FirstColour(c), c.weight1 + " setlinewidth\n"]
  }

  /** The second header as lines: a blank line, the colour, the width. */
  function MidLines(c: Config): seq<string> {
    ["\n", SecondColour(c), c.weight2 + " setlinewidth\n"]
  }

  /** What `bw_append` appends, as lines: the section comment, the first
      header, the glyphs, the second header, the glyphs again. */
  function AppendedLines(name: string, c: Config, glyphs: seq<string>): seq<string> {
    HeadLines(name, c) + glyphs + MidLines(c) + glyphs
  }

  lemma AppendedText(name: string, c: Config, glyphs: seq<string>)
    ensures Concat(AppendedLines(name, c, glyphs))
            == ColourComment(name) + Header1(c) + Concat(glyphs) + Header2(c) + Concat(glyphs)
  {
    var a := HeadLines(name, c);
    var b := MidLines(c);
    var a1 := ["\n", "%% " + name + " plus symbols\n"];
    var a2 := [FirstColour(c), c.weight1 + " setlinewidth\n"];
    ConcatShort(a1[0], a1[1], "");
    ConcatShort(a2[0], a2[1], "");
    ConcatAppend(a1, a2);
    assert Concat(a) == ColourComment(name) + Header1(c);
    ConcatShort(b[0], b[1], b[2]);
    assert Concat(b) == Header2(c);
    ConcatAppend(a, glyphs);
    ConcatAppend(a + glyphs, b);
    ConcatAppend(a + glyphs + b, glyphs);
  }

  /** A colour line of a header is a plain line. */
  lemma ColourLinesPlain()
    ensures Plain(WhiteLine) && Plain(BlackLine)
  {
    assert WhiteLine == "1.0000   1.0000   1.0000  setrgbcolor" + "\n";
    assert BlackLine == "0.0000   0.0000   0.0000  setrgbcolor" + "\n";
    NewlineLine("1.0000   1.0000   1.0000  setrgbcolor");
    NewlineLine("0.0000   0.0000   0.0000  setrgbcolor");
  }

  /** A width line ends in "setlinewidth", so it is not a marker. */
  lemma WidthLinePlain(w: string)
    requires '\n' !in w
    ensures Plain(w + " setlinewidth\n")
  {
    var l := w + " setlinewidth\n";
    NewlineLine(w + " setlinewidth");
    assert w + " setlinewidth" + "\n" == l;
    assert l[|l| - 12..] == "etlinewidth\n";
  }

  /** With line widths free of line breaks, the appended lines are plain. */
  lemma AppendedPlain(name: string, c: Config, glyphs: seq<string>)
    requires '\n' !in name && '\n' !in c.weight1 && '\n' !in c.weight2
    requires AllPlain(glyphs)
    ensures AllPlain(AppendedLines(name, c, glyphs))
  {
    var l1 := "%% " + name + " plus symbols";
    NewlineLine(l1);
    assert l1 + "\n" == "%% " + name + " plus symbols\n";
    assert (l1 + "\n")[0] == '%';
    ColourLinesPlain();
    WidthLinePlain(c.weight1);
    WidthLinePlain(c.weight2);
    NewlineLine("");
    assert "" + "\n" == "\n";
    var a := HeadLines(name, c);
    var b := MidLines(c);
    assert AllPlain(a);
    assert AllPlain(b);
    AllPlainAppend(a, glyphs);
    AllPlainAppend(a + glyphs, b);
    AllPlainAppend(a + glyphs + b, glyphs);
  }

  // ---------------------------------------------------------------------
  // Splitting the rewritten text into lines again

  /** `split("\n")` followed by a newline on every piece. */
  function Reflow(text: string): (ls: seq<string>)
    ensures WellFormed(ls)
  {
    SplitPiecesSingle(text);
    NewlinesAppended(Split(text, "\n"));
    AppendNewlines(Split(text, "\n"))
  }

  lemma SplitPiecesSingle(text: string)
    ensures forall k | 0 <= k < |Split(text, "\n")| :: '\n' !in Split(text, "\n")[k]
  {
    SplitRawNoSeparator(text, '\n');
    var pieces := Split(text, "\n");
    forall k | 0 <= k < |pieces| ensures '\n' !in pieces[k] {
      assert pieces[k] == SplitRaw(text, "\n")[k];
    }
  }

  lemma NewlinesAppended(ps: seq<string>)
    requires forall k | 0 <= k < |ps| :: '\n' !in ps[k]
    ensures WellFormed(AppendNewlines(ps))
  {
    forall k | 0 <= k < |ps| ensures IsLine(AppendNewlines(ps)[k]) {
      NewlineLine(ps[k]);
    }
  }

  /** Splitting whole lines at newlines gives the lines without their
      newlines, less the empty pieces at the end. */
  lemma SplitWholeLines(ls: seq<string>)
    requires WellFormed(ls)
    ensures Split(Concat(ls), "\n") == DropTrailingEmpty(ChopAll(ls))
  {
    SplitRawLines(ls, "");
    assert Concat(ls) + "" == Concat(ls);
    assert SplitRaw("", "\n") == [""];
    var x := ChopAll(ls);
    assert (x + [""])[..|x|] == x;
  }

  /** A line whose newline is its only character is the blank line. */
  lemma ChopBlank(l: string)
    requires IsLine(l)
    ensures Chop(l) + "\n" == l
    ensures Chop(l) == "" ==> l == "\n"
  {
    assert l == l[..|l| - 1] + "\n";
  }

  /** Re-splitting whole lines gives them back, except that blank lines at
      the very end are lost (Ruby drops trailing empty pieces). */
  lemma ReflowLines(ls: seq<string>)
    requires WellFormed(ls)
    ensures var r := Reflow(Concat(ls));
      |r| <= |ls| && r == ls[..|r|] && forall k | |r| <= k < |ls| :: ls[k] == "\n"
  {
    var x := ChopAll(ls);
    var d := DropTrailingEmpty(x);
    assert Reflow(Concat(ls)) == AppendNewlines(d) by {
      SplitWholeLines(ls);
    }
    ReflowTail(ls, d);
  }

  lemma ReflowTail(ls: seq<string>, d: seq<string>)
    requires WellFormed(ls) && d == DropTrailingEmpty(ChopAll(ls))
    ensures |d| <= |ls| && AppendNewlines(d) == ls[..|d|]
    ensures forall k | |d| <= k < |ls| :: ls[k] == "\n"
  {
    var x := ChopAll(ls);
    forall k | 0 <= k < |d| ensures AppendNewlines(d)[k] == ls[k] {
      ChopBlank(ls[k]);
    }
    forall k | |d| <= k < |ls| ensures ls[k] == "\n" {
      ChopBlank(ls[k]);
    }
  }

  // ---------------------------------------------------------------------
  // What one round does to the marker counts

  /** One `sub!` takes away one copy of the marker when it comments the
      marker, and leaves the count of every marker-shaped line alone
      otherwise: the commented line starts with "%". */
  lemma CommentFirstCount(ls: seq<string>, x: string, m: string)
    requires MarkerShaped(m)
    ensures Count(m, CommentFirst(ls, x)) == Count(m, ls) - (if x == m && m in ls then 1 else 0)
  {
    match IndexOf(ls, x)
    case None =>
    case Some(j) =>
      CountUpdate(m, ls, j, "%  " + x);
      assert ("%  " + x)[0] == '%';
  }

  lemma CommentFirstWellFormed(ls: seq<string>, x: string)
    requires WellFormed(ls)
    ensures WellFormed(CommentFirst(ls, x))
  {
    match IndexOf(ls, x)
    case None =>
    case Some(j) =>
      var l := "%  " + x;
      assert l[..|l| - 1] == "%  " + x[..|x| - 1];
      assert IsLine(l);
  }

  /** Commenting keeps every line a line. */
  lemma {:induction false} CommentedWellFormed(ls: seq<string>, orig: seq<string>, lo: nat, hi: nat)
    requires hi < |orig| && WellFormed(ls)
    ensures WellFormed(Commented(ls, orig, lo, hi))
    decreases hi + 1 - lo
  {
    if lo <= hi {
      CommentFirstWellFormed(ls, orig[lo]);
      CommentedWellFormed(CommentFirst(ls, orig[lo]), orig, lo + 1, hi);
    }
  }

  /** Commenting lines that are not `m` keeps the count of `m`. */
  lemma {:induction false} CommentedKeeps(ls: seq<string>, orig: seq<string>, lo: nat, hi: nat, m: string)
    requires hi < |orig| && MarkerShaped(m)
    requires forall i | lo <= i <= hi :: orig[i] != m
    ensures Count(m, Commented(ls, orig, lo, hi)) == Count(m, ls)
    decreases hi + 1 - lo
  {
    if lo <= hi {
      CommentFirstCount(ls, orig[lo], m);
      CommentedKeeps(CommentFirst(ls, orig[lo]), orig, lo + 1, hi, m);
    }
  }

  /** `comment` on a region found for `marker`: the marker line is commented
      out, so one copy of the marker is gone, and no other marker-shaped line
      is added or removed, since the rest of the region cannot contain one. */
  lemma RegionCommented(ls: seq<string>, marker: string, region: Region)
    requires WellFormed(ls) && MarkerShaped(marker)
    requires FindRegion(ls, marker) == Some(region)
    ensures WellFormed(Commented(ls, ls, region.start, region.end))
    ensures Count(marker, Commented(ls, ls, region.start, region.end)) == Count(marker, ls) - 1
    ensures forall m | MarkerShaped(m) && m != marker ::
      Count(m, Commented(ls, ls, region.start, region.end)) == Count(m, ls)
  {
    var first := CommentFirst(ls, marker);
    assert Commented(ls, ls, region.start, region.end) == Commented(first, ls, region.start + 1, region.end);
    CommentFirstWellFormed(ls, marker);
    CommentedWellFormed(first, ls, region.start + 1, region.end);
    forall i | region.start + 1 <= i <= region.end ensures !MarkerShaped(ls[i]) {
      if MarkerShaped(ls[i]) {
        MarkerEndsRegion(ls[i]);
      }
    }
    CommentFirstCount(ls, marker, marker);
    CommentedKeeps(first, ls, region.start + 1, region.end, marker);
    forall m | MarkerShaped(m) && m != marker
      ensures Count(m, Commented(ls, ls, region.start, region.end)) == Count(m, ls)
    {
      CommentFirstCount(ls, marker, m);
      CommentedKeeps(first, ls, region.start + 1, region.end, m);
    }
  }

  /** Dropping trailing blank lines and appending plain lines do not change
      how often a marker-shaped line occurs. */
  lemma CountKept(m: string, c: seq<string>, a: seq<string>, n: nat)
    requires MarkerShaped(m) && AllPlain(a)
    requires n <= |c + a| && forall k | n <= k < |c + a| :: (c + a)[k] == "\n"
    ensures Count(m, (c + a)[..n]) == Count(m, c)
  {
    var l := c + a;
    assert l == l[..n] + l[n..];
    CountAppend(m, l[..n], l[n..]);
    CountAppend(m, c, a);
  }

  lemma WellFormedPlainAppend(cm: seq<string>, a: seq<string>)
    requires WellFormed(cm) && AllPlain(a)
    ensures WellFormed(cm + a)
  {
    forall k | 0 <= k < |cm + a| ensures IsLine((cm + a)[k]) {
      if k >= |cm| {
        assert (cm + a)[k] == a[k - |cm|] && Plain(a[k - |cm|]);
      }
    }
  }

  /** The fourth appended line is the first width line, which is not blank. */
  lemma AppendedWidthLine(name: string, c: Config, g: seq<string>)
    ensures |AppendedLines(name, c, g)| >= 4
    ensures AppendedLines(name, c, g)[3] != "\n"
  {
    var h := HeadLines(name, c);
    var a := AppendedLines(name, c, g);
    assert a == h + (g + MidLines(c) + g);
    assert a[3] == h[3] == c.weight1 + " setlinewidth\n";
    assert |a[3]| > 1;
  }

  /** Re-split lines keep the first `|cm|` lines, `cm`, when at least that
      many come back. */
  lemma ReflowPrefix(cm: seq<string>, l: seq<string>, next: seq<string>)
    requires |cm| <= |next| <= |l| && next == l[..|next|] && l[..|cm|] == cm
    ensures next[..|cm|] == cm
  {
    assert next[..|cm|] == l[..|cm|];
  }

  /** Re-splitting the commented buffer followed by the appended lines: the
      buffer comes back in front, at least the two blank-free header lines
      after it survive, and no marker-shaped line is gained or lost. */
  lemma ReflowAppended(cm: seq<string>, a: seq<string>, name: string, c: Config, g: seq<string>)
    requires WellFormed(cm) && AllPlain(a) && a == AppendedLines(name, c, g)
    ensures var next := Reflow(Concat(cm + a));
      |cm| + 4 <= |next| && next[..|cm|] == cm
      && forall m | MarkerShaped(m) :: Count(m, next) == Count(m, cm)
  {
    var l := cm + a;
    WellFormedPlainAppend(cm, a);
    ReflowLines(l);
    var next := Reflow(Concat(l));
    AppendedWidthLine(name, c, g);
    assert l[|cm| + 3] == a[3];
    assert |cm| + 4 <= |next|;
    assert l[..|cm|] == cm;
    ReflowPrefix(cm, l, next);
    forall m | MarkerShaped(m) ensures Count(m, next) == Count(m, cm) {
      CountKept(m, cm, a, |next|);
    }
  }

  /** The glyph text, when it is drawn at all, is plain whole lines. */
  lemma GlyphsPlain(ls: seq<string>, i: nat, hi: nat, shape: Shape, c: Config)
    requires hi < |ls| && WellFormed(ls) && SingleLine(c.fmt)
    requires Glyphs(ls, i, hi, PairGlyph(shape, c)).Ok?
    ensures exists g :: AllPlain(g) && Concat(g) == Glyphs(ls, i, hi, PairGlyph(shape, c)).value
  {
    var g := GlyphLines(ls, i, hi, shape, c);
    GlyphLinesPlain(ls, i, hi, shape, c);
    assert AllPlain(g) && Concat(g) == Glyphs(ls, i, hi, PairGlyph(shape, c)).value;
  }

  lemma Regroup(x: string, p: string, q: string, g: string, u: string)
    ensures x + p + q + g + u + g == x + (p + q + g + u + g)
  {
  }

  /** Re-splitting what `bw_append` assembles from whole lines and plain glyph
      lines: the buffer comes back in front, followed by at least four more
      lines, and no marker-shaped line is gained or lost. */
  lemma AssembledFacts(cm: seq<string>, name: string, c: Config, g: seq<string>)
    requires WellFormed(cm) && AllPlain(g)
    requires '\n' !in name && '\n' !in c.weight1 && '\n' !in c.weight2
    ensures var next := Reflow(Assembled(cm, name, c, Concat(g)));
      |cm| + 4 <= |next| && next[..|cm|] == cm
      && forall m | MarkerShaped(m) :: Count(m, next) == Count(m, cm)
  {
    var a := AppendedLines(name, c, g);
    assert Assembled(cm, name, c, Concat(g)) == Concat(cm + a) by {
      AppendedText(name, c, g);
      ConcatAppend(cm, a);
      Regroup(Concat(cm), ColourComment(name), Header1(c), Concat(g), Header2(c));
    }
    AppendedPlain(name, c, g);
    ReflowAppended(cm, a, name, c, g);
  }

  /** One round of the driver (`bw_append`, then the re-split) on a buffer of
      whole lines: one copy of the colour's marker is gone, every other
      marker-shaped line occurs as often as before, and the old lines stay in
      front, with the region commented out. */
  lemma RoundFacts(ls: seq<string>, colour: Colour, c: Config, region: Region)
    requires WellFormed(ls) && ColourOk(colour) && '\n' !in c.weight1 && '\n' !in c.weight2 && SingleLine(c.fmt)
    requires FindRegion(ls, colour.Marker()) == Some(region)
    requires Rewrite(ls, region, colour, c).Ok?
    ensures var next := Reflow(Rewrite(ls, region, colour, c).value);
      Count(colour.Marker(), next) == Count(colour.Marker(), ls) - 1
      && (forall m | MarkerShaped(m) && m != colour.Marker() :: Count(m, next) == Count(m, ls))
      && |ls| + 4 <= |next| && next[..|ls|] == Commented(ls, ls, region.start, region.end)
  {
    var marker := colour.Marker();
    ColourMarkerShaped(colour);
    RegionCommented(ls, marker, region);
    var cm := Commented(ls, ls, region.start, region.end);
    var gl := Glyphs(ls, region.start + 1, region.end, PairGlyph(colour.shape, c));
    assert gl.Ok? && Rewrite(ls, region, colour, c).value == Assembled(cm, colour.name, c, gl.value);
    GlyphsPlain(ls, region.start + 1, region.end, colour.shape, c);
    var g :| AllPlain(g) && Concat(g) == gl.value;
    AssembledFacts(cm, colour.name, c, g);
  }

  // ---------------------------------------------------------------------
  // The driver

  /** The `while` loop for one colour, as a function: while a region of the
      colour's marker is found, `bw_append` rewrites it and the text is split
      into lines again. A buffer that is not all whole lines is made so by
      the first round, and after that every round removes one copy of the
      marker, which is why the loop ends. The first failing `bw_append` ends
      it with that failure. */
  function ColourRounds(ls: seq<string>, colour: Colour, c: Config): Result<seq<string>>
    requires ColourOk(colour) && '\n' !in c.weight1 && '\n' !in c.weight2 && SingleLine(c.fmt)
    decreases if WellFormed(ls) then 0 else 1, Count(colour.Marker(), ls)
  {
    match FindRegion(ls, colour.Marker())
    case None => Ok(ls)
    case Some(region) =>
      var text :- Rewrite(ls, region, colour, c);
      if WellFormed(ls) then
        RoundFacts(ls, colour, c, region);
        ColourRounds(Reflow(text), colour, c)
      else
        ColourRounds(Reflow(text), colour, c)
  }

  /** What the rounds of one colour achieve: the marker is gone, the result
      is the input or whole lines, every other marker line is kept when the
      input is whole lines, and a shape other than the circle fails only on
      the nil partner of the buffer's last line. */
  lemma {:induction false} ColourRoundsFacts(ls: seq<string>, colour: Colour, c: Config)
    requires ColourOk(colour) && '\n' !in c.weight1 && '\n' !in c.weight2 && SingleLine(c.fmt)
    ensures ColourRounds(ls, colour, c).Ok? ==>
      colour.Marker() !in ColourRounds(ls, colour, c).value
      && (ColourRounds(ls, colour, c).value == ls || WellFormed(ColourRounds(ls, colour, c).value))
    ensures ColourRounds(ls, colour, c).Ok? && WellFormed(ls) ==>
      forall m | MarkerShaped(m) && m != colour.Marker() :: Count(m, ColourRounds(ls, colour, c).value) == Count(m, ls)
    ensures ColourRounds(ls, colour, c).Err? && colour.shape != Circle ==> ColourRounds(ls, colour, c).error == NilLine
    decreases if WellFormed(ls) then 0 else 1, Count(colour.Marker(), ls)
  {
    match FindRegion(ls, colour.Marker())
    case None =>
    case Some(region) =>
      var text := Rewrite(ls, region, colour, c);
      if colour.shape != Circle {
        RewriteFailure(ls, region, colour, c);
      }
      if text.Ok? {
        var next := Reflow(text.value);
        if WellFormed(ls) {
          RoundFacts(ls, colour, c, region);
        }
        ColourRoundsFacts(next, colour, c);
        assert ColourRounds(ls, colour, c) == ColourRounds(next, colour, c);
      }
  }

  /** The `while` loop for one colour: find the next region for its marker,
      rewrite it with `bw_append`, split the result into lines again, until
      the marker is gone. `rounds` is the number of regions converted. On a
      buffer of whole lines there is one round per copy of the marker, and
      the other marker lines are all still there at the end. */
  method ConvertColour(ls: seq<string>, colour: Colour, c: Config) returns (r: Result<seq<string>>, rounds: nat)
    requires ColourOk(colour) && '\n' !in c.weight1 && '\n' !in c.weight2 && SingleLine(c.fmt)
    ensures r == ColourRounds(ls, colour, c)
    ensures r.Ok? ==> colour.Marker() !in r.value
    ensures r.Ok? && rounds == 0 ==> r.value == ls
    ensures r.Ok? && rounds > 0 ==> WellFormed(r.value)
    ensures r.Ok? && WellFormed(ls) ==> rounds == Count(colour.Marker(), ls)
    ensures r.Ok? && WellFormed(ls) ==>
      forall m | MarkerShaped(m) && m != colour.Marker() :: Count(m, r.value) == Count(m, ls)
  {
    var marker := colour.Marker();
    var cur := ls;
    rounds := 0;
    while true
      invariant ColourRounds(cur, colour, c) == ColourRounds(ls, colour, c)
      invariant rounds == 0 ==> cur == ls
      invariant rounds > 0 ==> WellFormed(cur)
      invariant WellFormed(ls) ==> rounds + Count(marker, cur) == Count(marker, ls)
      invariant WellFormed(ls) ==> forall m | MarkerShaped(m) && m != marker :: Count(m, cur) == Count(m, ls)
      decreases if WellFormed(cur) then 0 else 1, Count(marker, cur)
    {
      var region := CaptureLines(cur, marker);
      if region.None? {
        return Ok(cur), rounds;
      }
      var text := BwAppend(colour, region.value, cur, c);
      if text.Err? {
        return Err(text.error), rounds;
      }
      if WellFormed(cur) {
        RoundFacts(cur, colour, c, region.value);
      }
      cur := Reflow(text.value);
      rounds := rounds + 1;
    }
  }

  const Grestore: string := "grestore\n"

  /** The header is everything up to and including the first "grestore" line,
      the annotations the rest. Without such a line `end_of_header` is nil and
      `end_of_header+1` raises. */
  function SplitHeader(ls: seq<string>): (r: Result<(seq<string>, seq<string>)>)
    ensures r.Err? <==> Grestore !in ls
    ensures r.Ok? ==> r.value.0 + r.value.1 == ls
    ensures r.Ok? ==>
      |r.value.0| > 0 && r.value.0[|r.value.0| - 1] == Grestore && Grestore !in r.value.0[..|r.value.0| - 1]
  {
    match IndexOf(ls, Grestore)
    case None => Err("NoMethodError: undefined method `+' for nil:NilClass")
    case Some(e) =>
      assert ls[..e + 1][..e] == ls[..e];
      assert ls[..e + 1] + ls[e + 1..] == ls;
      Ok((ls[..e + 1], ls[e + 1..]))
  }

  /** The first position at or after `i` where `s` holds `x`. */
  function FirstFrom(s: string, x: char, i: nat): (r: Option<nat>)
    ensures r.None? <==> forall k | i <= k < |s| :: s[k] != x
    ensures r.Some? ==> i <= r.value < |s| && s[r.value] == x && forall k | i <= k < r.value :: s[k] != x
    decreases |s| - i
  {
    if i >= |s| then None else if s[i] == x then Some(i) else FirstFrom(s, x, i + 1)
  }

  /** The last position before `j` where `s` holds `x`. */
  function LastBefore(s: string, x: char, j: nat): (r: Option<nat>)
    requires j <= |s|
    ensures r.None? <==> forall k | 0 <= k < j :: s[k] != x
    ensures r.Some? ==> r.value < j && s[r.value] == x && forall k | r.value < k < j :: s[k] != x
  {
    if j == 0 then None else if s[j - 1] == x then Some(j - 1) else LastBefore(s, x, j - 1)
  }

  /** Where `/(.*)\.(.*)/` matches, and its two groups. */
  datatype NameMatch = NameMatch(at: nat, stem: string, ext: string)

  /** The start of the line that position `d` lies in. */
  function LineStart(s: string, d: nat): (r: nat)
    requires d <= |s|
    ensures r <= d && (forall k | r <= k < d :: s[k] != '\n') && (r == 0 || s[r - 1] == '\n')
  {
    if d == 0 || s[d - 1] == '\n' then d else LineStart(s, d - 1)
  }

  /** The end of the line that position `d` lies in, before its line break. */
  function LineStop(s: string, d: nat): (r: nat)
    requires d <= |s|
    ensures d <= r <= |s| && (forall k | d <= k < r :: s[k] != '\n') && (r == |s| || s[r] == '\n')
    decreases |s| - d
  {
    if d == |s| || s[d] == '\n' then d else LineStop(s, d + 1)
  }

  /** `m` is the match of `/(.*)\.(.*)/` in `name`: a whole line holding a
      point and no point before it; the stem ends at that line's last point. */
  predicate Matches(name: string, m: NameMatch) {
    var w := m.stem + "." + m.ext;
    m.at + |w| <= |name| && name[m.at..m.at + |w|] == w
    && (forall k | 0 <= k < |m.ext| :: m.ext[k] != '.' && m.ext[k] != '\n')
    && (forall k | 0 <= k < |m.stem| :: m.stem[k] != '\n')
    && (m.at == 0 || name[m.at - 1] == '\n')
    && (m.at + |w| == |name| || name[m.at + |w|] == '\n')
    && forall k | 0 <= k < m.at :: name[k] != '.'
  }

  /** The match of `/(.*)\.(.*)/` in a name. `.` does not match a line break,
      so the match lies in the first line that has a point; the first group is
      greedy, so the point is that line's last one. No point: no match. */
  function NameParts(name: string): (r: Option<NameMatch>)
    ensures r.None? <==> '.' !in name
    ensures r.Some? ==> Matches(name, r.value)
  {
    match FirstFrom(name, '.', 0)
    case None => None
    case Some(d) =>
      LineMatches(name, d);
      Some(LineMatch(name, d))
  }

  /** The line around the point at `d`, split at that line's last point. */
  function LineMatch(name: string, d: nat): NameMatch
    requires d < |name| && name[d] == '.'
  {
    var start := LineStart(name, d);
    var stop := LineStop(name, d);
    var dot := LastBefore(name, '.', stop).value;
    NameMatch(start, name[start..dot], name[dot + 1..stop])
  }

  /** A slice is what lies before position `j`, the character there, and what
      follows it. */
  lemma SliceAround(s: string, i: nat, j: nat, k: nat)
    requires i <= j < k <= |s|
    ensures s[i..j] + [s[j]] + s[j + 1..k] == s[i..k]
  {
    assert s[i..k] == s[i..j] + s[j..k];
    assert s[j..k] == [s[j]] + s[j + 1..k];
  }

  /** Split at the first point of a name, its line is the match. */
  lemma LineMatches(name: string, d: nat)
    requires FirstFrom(name, '.', 0) == Some(d)
    ensures Matches(name, LineMatch(name, d))
  {
    var start, stop := LineStart(name, d), LineStop(name, d);
    var dot := LastBefore(name, '.', stop).value;
    assert d <= dot;
    forall k | start <= k < stop ensures name[k] != '\n' {
      if k >= d { assert d <= k < stop; }
    }
    assert forall k | 0 <= k < start :: name[k] != '.';
    MatchAt(name, start, dot, stop);
    assert LineMatch(name, d) == NameMatch(start, name[start..dot], name[dot + 1..stop]);
  }

  /** A line `start..stop` with no point before it, split at a point `dot`
      with no point after it on the line, is a match. */
  lemma MatchAt(name: string, start: nat, dot: nat, stop: nat)
    requires start <= dot < stop <= |name| && name[dot] == '.'
    requires forall k | start <= k < stop :: name[k] != '\n'
    requires forall k | dot < k < stop :: name[k] != '.'
    requires forall k | 0 <= k < start :: name[k] != '.'
    requires (start == 0 || name[start - 1] == '\n') && (stop == |name| || name[stop] == '\n')
    ensures Matches(name, NameMatch(start, name[start..dot], name[dot + 1..stop]))
  {
    var m := NameMatch(start, name[start..dot], name[dot + 1..stop]);
    SliceAround(name, start, dot, stop);
    assert m.stem + "." + m.ext == name[start..stop];
    forall k | 0 <= k < |m.ext| ensures m.ext[k] != '.' && m.ext[k] != '\n' {
      assert m.ext[k] == name[dot + 1 + k];
    }
    forall k | 0 <= k < |m.stem| ensures m.stem[k] != '\n' {
      assert m.stem[k] == name[start + k];
    }
  }

  /** `"#{matches[1]}_modified.#{matches[2]}"`; without a match `matches` is
      nil and indexing it raises. */
  function OutputName(name: string): (r: Result<string>)
    ensures r.Err? <==> '.' !in name
    ensures r.Ok? ==> r.value == NameParts(name).value.stem + "_modified." + NameParts(name).value.ext
  {
    match NameParts(name)
    case None => Err("NoMethodError: undefined method `[]' for nil:NilClass")
    case Some(m) => Ok(m.stem + "_modified." + m.ext)
  }

  /** In `a.b` with no point in `b`, the last point is the one after `a`. */
  lemma LastDot(a: string, b: string)
    requires '.' !in b
    ensures LastBefore(a + "." + b, '.', |a + "." + b|) == Some(|a|)
  {
    var s := a + "." + b;
    assert s[|a|] == '.';
    forall k | |a| < k < |s| ensures s[k] != '.' {
      assert s[k] == b[k - |a| - 1];
    }
  }

  /** Splitting at a last point is unique. */
  lemma LastPointUnique(a: string, b: string, c: string, d: string)
    requires a + "." + b == c + "." + d && '.' !in b && '.' !in d
    ensures a == c && b == d
  {
    var s := a + "." + b;
    LastDot(a, b);
    LastDot(c, d);
    assert a == s[..|a|] && c == s[..|c|];
    assert b == s[|a| + 1..] && d == s[|c| + 1..];
  }

  /** A one-line name splits at its last point: "x.y.eps" becomes
      "x.y_modified.eps". */
  lemma OutputNameSimple(stem: string, ext: string)
    requires '\n' !in stem && '\n' !in ext && '.' !in ext
    ensures OutputName(stem + "." + ext) == Ok(stem + "_modified." + ext)
  {
    var name := stem + "." + ext;
    assert '.' in name by {
      assert name[|stem|] == '.';
    }
    var m := NameParts(name).value;
    var w := m.stem + "." + m.ext;
    assert '\n' !in name by {
      forall k | 0 <= k < |name| ensures name[k] != '\n' {
        if k < |stem| {
          assert name[k] == stem[k];
        } else if k > |stem| {
          assert name[k] == ext[k - |stem| - 1];
        }
      }
    }
    assert w == name;
    LastPointUnique(m.stem, m.ext, stem, ext);
  }

  /** What one input file becomes: the output file's name and the lines written to it. */
  datatype Converted = Converted(name: string, header: seq<string>, annotations: seq<string>)

  /** The text `f.puts options[:header] + options[:annotations]` writes. */
  function Written(cv: Converted): string {
    PutsText(cv.header + cv.annotations)
  }

  /** The colours in turn, each converted by its rounds; the first colour
      that fails ends the pass with its failure. */
  function ConvertAll(ls: seq<string>, cs: seq<Colour>, c: Config): Result<seq<string>>
    requires forall j | 0 <= j < |cs| :: ColourOk(cs[j])
    requires '\n' !in c.weight1 && '\n' !in c.weight2 && SingleLine(c.fmt)
    decreases |cs|
  {
    if cs == [] then Ok(ls)
    else
      var next :- ColourRounds(ls, cs[0], c);
      ConvertAll(next, cs[1..], c)
  }

  /** A file none of whose requested markers occurs comes through unchanged. */
  lemma {:induction false} ConvertAllUntouched(ls: seq<string>, cs: seq<Colour>, c: Config)
    requires forall j | 0 <= j < |cs| :: ColourOk(cs[j])
    requires '\n' !in c.weight1 && '\n' !in c.weight2 && SingleLine(c.fmt)
    requires forall j | 0 <= j < |cs| :: cs[j].Marker() !in ls
    ensures ConvertAll(ls, cs, c) == Ok(ls)
    decreases |cs|
  {
    if cs != [] {
      assert FindRegion(ls, cs[0].Marker()).None?;
      assert ColourRounds(ls, cs[0], c) == Ok(ls);
      ConvertAllUntouched(ls, cs[1..], c);
    }
  }

  /** One pass of the `ARGV.each` loop, as a function: the output name, the
      header split, then every requested colour on the annotations. */
  function FileConversion(name: string, contents: string, o: Options): Result<Converted>
    requires '\n' !in o.config.weight1 && '\n' !in o.config.weight2 && SingleLine(o.config.fmt)
  {
    var file :- OutputName(name);
    var parts :- SplitHeader(ReadLines(contents));
    RequestedColours(o);
    var annotations :- ConvertAll(parts.1, Requested(o), o.config);
    Ok(Converted(file, parts.0, annotations))
  }

  /** A file whose annotations hold none of the requested markers is written
      back with the same header and annotations. */
  lemma FileUntouched(name: string, contents: string, o: Options)
    requires '\n' !in o.config.weight1 && '\n' !in o.config.weight2 && SingleLine(o.config.fmt)
    requires OutputName(name).Ok? && SplitHeader(ReadLines(contents)).Ok?
    requires forall j | 0 <= j < |Requested(o)| :: Requested(o)[j].Marker() !in SplitHeader(ReadLines(contents)).value.1
    ensures FileConversion(name, contents, o)
      == Ok(Converted(OutputName(name).value, SplitHeader(ReadLines(contents)).value.0, SplitHeader(ReadLines(contents)).value.1))
  {
    RequestedColours(o);
    ConvertAllUntouched(SplitHeader(ReadLines(contents)).value.1, Requested(o), o.config);
  }

  /** One pass of the `ARGV.each` loop, minus the I/O: the output name, the
      header split, then every requested colour, in order. */
  method ConvertFile(name: string, contents: string, o: Options) returns (r: Result<Converted>)
    requires '\n' !in o.config.weight1 && '\n' !in o.config.weight2 && SingleLine(o.config.fmt)
    ensures r == FileConversion(name, contents, o)
    ensures OutputName(name).Err? ==> r.Err?
    ensures SplitHeader(ReadLines(contents)).Err? ==> r.Err?
    ensures r.Ok? ==> OutputName(name) == Ok(r.value.name)
    ensures r.Ok? ==>
      SplitHeader(ReadLines(contents)).Ok? && r.value.header == SplitHeader(ReadLines(contents)).value.0
    ensures r.Ok? ==> StartsWith(contents, Concat(r.value.header)) && StartsWith(Written(r.value), Concat(r.value.header))
    ensures r.Ok? && EndsWith(contents, "\n") ==>
      forall j | 0 <= j < |Requested(o)| :: Requested(o)[j].Marker() !in r.value.annotations
    ensures r.Ok? && EndsWith(contents, "\n") ==>
      forall m | MarkerShaped(m) && (forall j | 0 <= j < |Requested(o)| :: Requested(o)[j].Marker() != m) ::
        Count(m, r.value.annotations) == Count(m, SplitHeader(ReadLines(contents)).value.1)
  {
    var file :- OutputName(name);
    var lines := ReadLines(contents);
    var parts :- SplitHeader(lines);
    ghost var body := parts.1;
    var annotations := parts.1;
    var colours := Requested(o);
    RequestedColours(o);
    HeaderFacts(contents);
    var k := 0;
    while k < |colours|
      invariant 0 <= k <= |colours|
      invariant ConvertAll(annotations, colours[k..], o.config) == ConvertAll(body, colours, o.config)
      invariant WellFormed(body) ==> WellFormed(annotations)
      invariant WellFormed(body) ==> Cleared(colours, k, annotations) && Kept(colours, k, annotations, body)
    {
      var next, rounds := ConvertColour(annotations, colours[k], o.config);
      assert colours[k..][0] == colours[k] && colours[k..][1..] == colours[k + 1..];
      if next.Err? {
        return Err(next.error);
      }
      if WellFormed(body) {
        ColourStep(colours, k, annotations, next.value, body);
      }
      annotations := next.value;
      k := k + 1;
    }
    assert colours[k..] == [];
    r := Ok(Converted(file, parts.0, annotations));
    WrittenPrefix(r.value);
  }

  /** Of lines that are all whole but maybe the last, a prefix ending in a
      whole line is whole lines. */
  lemma PrefixLines(ls: seq<string>, e: nat)
    requires e < |ls| && IsLine(ls[e]) && forall k | 0 <= k < |ls| - 1 :: IsLine(ls[k])
    ensures WellFormed(ls[..e + 1])
  {
    var h := ls[..e + 1];
    forall k | 0 <= k < |h| ensures IsLine(h[k]) {
      assert h[k] == ls[k];
    }
  }

  lemma SuffixLines(ls: seq<string>, e: nat)
    requires e <= |ls| && WellFormed(ls)
    ensures WellFormed(ls[e..])
  {
    forall k | 0 <= k < |ls| - e ensures IsLine(ls[e..][k]) {
      assert ls[e..][k] == ls[e + k];
    }
  }

  /** The header is whole lines at the front of the file, and so are the
      annotations when the file ends in a newline. */
  lemma HeaderFacts(contents: string)
    requires SplitHeader(ReadLines(contents)).Ok?
    ensures var parts := SplitHeader(ReadLines(contents)).value;
      WellFormed(parts.0) && StartsWith(contents, Concat(parts.0))
      && (EndsWith(contents, "\n") ==> WellFormed(parts.1))
  {
    var ls := ReadLines(contents);
    ReadLinesFacts(contents);
    var e := IndexOf(ls, Grestore).value;
    assert SplitHeader(ls).value == (ls[..e + 1], ls[e + 1..]);
    assert IsLine(Grestore);
    PrefixLines(ls, e);
    assert ls == ls[..e + 1] + ls[e + 1..];
    ConcatAppend(ls[..e + 1], ls[e + 1..]);
    if EndsWith(contents, "\n") {
      assert contents[|contents| - 1] == '\n';
      SuffixLines(ls, e + 1);
    }
  }

  /** The first `k` colours' markers are gone from `ls`. */
  predicate Cleared(cs: seq<Colour>, k: nat, ls: seq<string>)
    requires k <= |cs|
  {
    forall j | 0 <= j < k :: cs[j].Marker() !in ls
  }

  /** Every marker-shaped line other than the first `k` colours' markers
      occurs in `ls` as often as in `body`. */
  ghost predicate Kept(cs: seq<Colour>, k: nat, ls: seq<string>, body: seq<string>)
    requires k <= |cs|
  {
    forall m | MarkerShaped(m) && (forall j | 0 <= j < k :: cs[j].Marker() != m) :: Count(m, ls) == Count(m, body)
  }

  /** Converting colour `k` clears its marker and keeps the others, so the
      first `k + 1` colours are done. */
  lemma ColourStep(cs: seq<Colour>, k: nat, before: seq<string>, after: seq<string>, body: seq<string>)
    requires k < |cs| && DistinctMarkers(cs) && forall j | 0 <= j < |cs| :: ColourOk(cs[j])
    requires Cleared(cs, k, before) && Kept(cs, k, before, body)
    requires cs[k].Marker() !in after
    requires forall m | MarkerShaped(m) && m != cs[k].Marker() :: Count(m, after) == Count(m, before)
    ensures Cleared(cs, k + 1, after) && Kept(cs, k + 1, after, body)
  {
    forall j | 0 <= j < k ensures cs[j].Marker() !in after {
      ColourMarkerShaped(cs[j]);
    }
  }

  /** `puts` writes a header of whole lines first, unchanged. */
  lemma WrittenPrefix(cv: Converted)
    requires WellFormed(cv.header) && cv.header != []
    ensures StartsWith(Written(cv), Concat(cv.header))
  {
    PutsPrefix(cv.header, cv.annotations);
  }
}

