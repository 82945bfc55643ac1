/** ical.rb: a timetable page cut into rows at "<tr>"; rows whose project code
    was asked for give one calendar event per date in their date column. The
    date and time text is kept as text: parsing it into a `DateTime`, the time
    zone shift and the iCalendar objects are not part of this model. */
module Ical {
  import opened Wrappers
  import opened RubyText
  import opened RubyNumber

  // ---------------------------------------------------------------------
  // hours2hm

  /** Whole hours and whole minutes of a Float number of hours: `h.floor` and
      `((h % 1) * 60).floor`. Together they are the whole minutes in `h`. */
  function HoursMinutes(h: real): (hm: (int, int))
    ensures hm.0 as real <= h < hm.0 as real + 1.0
    ensures 0 <= hm.1 < 60
    ensures hm.0 * 60 + hm.1 == (h * 60.0).Floor
  {
    var hours := h.Floor;
    var f := Frac(h);
    var mins := (f * 60.0).Floor;
    assert h * 60.0 == hours as real * 60.0 + f * 60.0;
    assert (hours * 60 + mins) as real <= h * 60.0 < (hours * 60 + mins) as real + 1.0;
    (hours, mins)
  }

  /** `hours2hm(h)`: the duration text "T<hours>H<minutes>M". */
  function Hours2hm(h: real): string {
    var hm := HoursMinutes(h);
    "T" + IntToString(hm.0) + "H" + IntToString(hm.1) + "M"
  }

  /** A whole number of hours has no minutes. */
  lemma Hours2hmWhole(n: int)
    ensures Hours2hm(n as real) == "T" + IntToString(n) + "H0M"
  {
    assert HoursMinutes(n as real).0 == n;
    assert HoursMinutes(n as real).1 == 0;
  }

  /** Half an hour more is thirty minutes more. */
  lemma Hours2hmHalf(n: int)
    ensures Hours2hm(n as real + 0.5) == "T" + IntToString(n) + "H30M"
  {
    var hm := HoursMinutes(n as real + 0.5);
    assert hm.0 == n;
    assert hm.1 == 30;
  }

  // ---------------------------------------------------------------------
  // The project code: /<td valign="top">(C\d{4})<\/td>/

  const CodeOpen: string := "<td valign=\"top\">"
  const CodeClose: string := "</td>"

  /** The project code pattern matches at position `i`. */
  predicate CodeAt(l: string, i: nat) {
    var c := i + |CodeOpen|;
    OccursAt(l, CodeOpen, i) && c + 5 <= |l| && l[c] == 'C'
    && (forall k | c + 1 <= k < c + 5 :: IsDigit(l[k]))
    && OccursAt(l, CodeClose, c + 5)
  }

  /** The first position at or after `i` where the pattern matches. */
  function FindCode(l: string, i: nat): (r: Option<nat>)
    ensures r.None? <==> forall j | i <= j <= |l| :: !CodeAt(l, j)
    ensures r.Some? ==> i <= r.value <= |l| && CodeAt(l, r.value) && forall j | i <= j < r.value :: !CodeAt(l, j)
    decreases |l| - i
  {
    if i > |l| then None else if CodeAt(l, i) then Some(i) else FindCode(l, i + 1)
  }

  /** A project code: "C" and four digits. */
  predicate IsCode(s: string) {
    |s| == 5 && s[0] == 'C' && forall k | 1 <= k < 5 :: IsDigit(s[k])
  }

  /** `project_code[1]`: the group of the leftmost match, if there is one. */
  function ProjectCode(l: string): (r: Option<string>)
    ensures r.None? <==> forall j | 0 <= j <= |l| :: !CodeAt(l, j)
    ensures r.Some? ==> IsCode(r.value) && Contains(l, CodeOpen + r.value + CodeClose)
  {
    match FindCode(l, 0)
    case None => None
    case Some(i) =>
      CodeFrame(l, i);
      Some(l[i + |CodeOpen|..i + |CodeOpen| + 5])
  }

  /** Where the pattern matches, its group is a code framed by the tags. */
  lemma CodeFrame(l: string, i: nat)
    requires CodeAt(l, i)
    ensures var code := l[i + |CodeOpen|..i + |CodeOpen| + 5];
      IsCode(code) && OccursAt(l, CodeOpen + code + CodeClose, i)
  {
    var c := i + |CodeOpen|;
    var code := l[c..c + 5];
    assert l[i..c] == CodeOpen && l[c + 5..c + 5 + |CodeClose|] == CodeClose;
    assert l[i..c + 5 + |CodeClose|] == l[i..c] + l[c..c + 5] + l[c + 5..c + 5 + |CodeClose|];
    assert |CodeOpen + code + CodeClose| == c + 5 + |CodeClose| - i;
    forall k | 1 <= k < 5 ensures IsDigit(code[k]) {
      assert code[k] == l[c + k];
    }
  }

  /** The code is the one of the leftmost match: the five characters after
      the opening cell at the first position where the whole pattern fits. */
  lemma ProjectCodeLeftmost(l: string)
    ensures ProjectCode(l).Some? ==> exists i | 0 <= i <= |l| ::
      CodeAt(l, i) && (forall j | 0 <= j < i :: !CodeAt(l, j))
      && ProjectCode(l).value == l[i + |CodeOpen|..i + |CodeOpen| + 5]
  {
    var f := FindCode(l, 0);
    if f.Some? {
      var i := f.value;
      assert ProjectCode(l).value == l[i + |CodeOpen|..i + |CodeOpen| + 5];
    }
  }

  // ---------------------------------------------------------------------
  // The three columns

  const DateCell: string := "<td nowrap=\"nowrap\" valign=\"top\">"
  const StartCell: string := "<td nowrap=\"nowrap\" valign=\"top\" align=\"center\"> "
  const DurationCell: string := "<td nowrap=\"nowrap\" valign=\"top\" align=\"right\"> "

  /** `l.split(cell)[1]`; nil, on which the next `split` raises, when there
      is no second piece. */
  function Column(l: string, cell: string): Result<string>
    requires cell != ""
  {
    var pieces := Split(l, cell);
    if |pieces| < 2 then Err("NoMethodError: undefined method `split' for nil:NilClass") else Ok(pieces[1])
  }

  /** What `l.split(cell)[1]` picks out of the row. Without the cell there is
      no column. With it, the column is the text after the leftmost cell up to
      the next cell or the end of the row. */
  lemma ColumnPiece(l: string, cell: string)
    requires cell != ""
    ensures !Contains(l, cell) ==> Column(l, cell).Err?
    ensures Column(l, cell).Ok? ==> exists i | 0 <= i <= |l| ::
      FirstOccurrence(l, cell, i) && PieceFrom(l, cell, i + |cell|, Column(l, cell).value)
  {
    if !Contains(l, cell) {
      SplitRawNone(l, cell);
    } else {
      var k :| 0 <= k <= |l| && OccursAt(l, cell, k);
      var i := LeftmostOccurrence(l, cell, k);
      SplitRawSecond(l, cell, i);
      if Column(l, cell).Ok? {
        assert Column(l, cell).value == SplitRaw(l, cell)[1];
      }
    }
  }

  /** When the leftmost cell is followed by text that does not start another
      cell, the column is there and is not empty. */
  lemma ColumnPresent(l: string, cell: string, i: nat)
    requires cell != "" && FirstOccurrence(l, cell, i)
    requires i + |cell| < |l| && !OccursAt(l, cell, i + |cell|)
    ensures Column(l, cell).Ok? && Column(l, cell).value != ""
    ensures PieceFrom(l, cell, i + |cell|, Column(l, cell).value)
  {
    SplitRawSecond(l, cell, i);
    var v := SplitRaw(l, cell)[1];
    assert v != "";
    assert Split(l, cell)[1] == v;
  }

  /** The longest prefix of `ps` whose pieces all pass `keep`: an `each` loop
      that pushes every piece until the first that fails and then breaks. */
  function TakeWhile(ps: seq<string>, keep: string -> bool): (r: seq<string>)
    ensures |r| <= |ps| && r == ps[..|r|]
    ensures forall k | 0 <= k < |r| :: keep(r[k])
    ensures |r| == |ps| || !keep(ps[|r|])
  {
    if ps == [] || !keep(ps[0]) then []
    else
      var rest := TakeWhile(ps[1..], keep);
      assert [ps[0]] + rest == ps[..1 + |rest|];
      [ps[0]] + rest
  }

  /** The three properties pin the prefix down: any prefix that passes `keep`
      throughout and stops at a failing piece or the end is that one. */
  lemma {:induction false} TakeWhileUnique(ps: seq<string>, keep: string -> bool, r: seq<string>)
    requires |r| <= |ps| && r == ps[..|r|]
    requires forall k | 0 <= k < |r| :: keep(r[k])
    requires |r| == |ps| || !keep(ps[|r|])
    ensures r == TakeWhile(ps, keep)
  {
    if ps != [] && keep(ps[0]) {
      assert r != [];
      TakeWhileUnique(ps[1..], keep, r[1..]);
    }
  }

  /** `break if d =~ /Total/`. */
  predicate NotTotal(d: string) {
    !Contains(d, "Total")
  }

  /** `break unless s =~ /^\d/`: Ruby's `^` matches at the start of every line. */
  predicate DigitLine(s: string) {
    exists k | 0 <= k < |s| :: (k == 0 || s[k - 1] == '\n') && IsDigit(s[k])
  }

  /** `break if d.include?("valign")`. */
  predicate NoValign(d: string) {
    !Contains(d, "valign")
  }

  /** The date loop. */
  method CollectDates(table: string) returns (dates: seq<string>)
    ensures dates == TakeWhile(Split(table, " <br>"), NotTotal)
  {
    var pieces := Split(table, " <br>");
    dates := [];
    var i := 0;
    while i < |pieces|
      invariant 0 <= i <= |pieces| && dates == pieces[..i]
      invariant forall k | 0 <= k < i :: NotTotal(pieces[k])
    {
      if !NotTotal(pieces[i]) {
        break;
      }
      dates := dates + [pieces[i]];
      i := i + 1;
    }
    TakeWhileUnique(pieces, NotTotal, dates);
  }

  /** The start time loop. */
  method CollectStartTimes(table: string) returns (starts: seq<string>)
    ensures starts == TakeWhile(Split(table, " <br> "), DigitLine)
  {
    var pieces := Split(table, " <br> ");
    starts := [];
    var i := 0;
    while i < |pieces|
      invariant 0 <= i <= |pieces| && starts == pieces[..i]
      invariant forall k | 0 <= k < i :: DigitLine(pieces[k])
    {
      if !DigitLine(pieces[i]) {
        break;
      }
      starts := starts + [pieces[i]];
      i := i + 1;
    }
    TakeWhileUnique(pieces, DigitLine, starts);
  }

  /** One duration piece read with `to_f` and turned into a duration by `hours2hm`. */
  function Duration(d: string): string {
    Hours2hm(ToF(d))
  }

  /** `convert` applied to every piece, in order. */
  function MapAll(ps: seq<string>, convert: string -> string): (r: seq<string>)
    ensures |r| == |ps|
  {
    if ps == [] then [] else [convert(ps[0])] + MapAll(ps[1..], convert)
  }

  lemma {:induction false} MapAllAt(ps: seq<string>, convert: string -> string, k: nat)
    requires k < |ps|
    ensures MapAll(ps, convert)[k] == convert(ps[k])
  {
    if k > 0 {
      MapAllAt(ps[1..], convert, k - 1);
    }
  }

  lemma {:induction false} MapAllAppend(ps: seq<string>, convert: string -> string, p: string)
    ensures MapAll(ps + [p], convert) == MapAll(ps, convert) + [convert(p)]
  {
    if ps != [] {
      assert (ps + [p])[1..] == ps[1..] + [p];
      MapAllAppend(ps[1..], convert, p);
    } else {
      assert ps + [p] == [p];
    }
  }

  /** A loop that pushes `convert` of each piece until the first piece that
      fails `keep`, and then breaks. */
  method CollectMapped(pieces: seq<string>, keep: string -> bool, convert: string -> string) returns (out: seq<string>)
    ensures out == MapAll(TakeWhile(pieces, keep), convert)
  {
    out := [];
    var i := 0;
    while i < |pieces|
      invariant 0 <= i <= |pieces| && out == MapAll(pieces[..i], convert)
      invariant forall k | 0 <= k < i :: keep(pieces[k])
    {
      if !keep(pieces[i]) {
        break;
      }
      MapAllAppend(pieces[..i], convert, pieces[i]);
      assert pieces[..i + 1] == pieces[..i] + [pieces[i]];
      out := out + [convert(pieces[i])];
      i := i + 1;
    }
    TakeWhileUnique(pieces, keep, pieces[..i]);
  }

  /** The duration loop. */
  method CollectDurations(table: string) returns (durations: seq<string>)
    ensures |durations| == |TakeWhile(Split(table, "<br>"), NoValign)|
    ensures durations == MapAll(TakeWhile(Split(table, "<br>"), NoValign), Duration)
  {
    durations := CollectMapped(Split(table, "<br>"), NoValign, Duration);
  }

  // ---------------------------------------------------------------------
  // Events

  /** One calendar event: its start as the text handed to `DateTime.parse`,
      its duration (nil when the duration column is shorter), its summary. */
  datatype Event = Event(start: string, duration: Option<string>, summary: string)

  /** Event `i` of a row: the date and the start time joined with a space
      (`zip` gives nil, printed as nothing, past the start times), the
      `i`-th duration, and the project code. */
  function EventAt(dates: seq<string>, starts: seq<string>, durations: seq<string>, code: string, i: nat): Event
    requires i < |dates|
  {
    Event(dates[i] + " " + (if i < |starts| then starts[i] else ""),
          if i < |durations| then Some(durations[i]) else None,
          code)
  }

  /** The events of a row, in order. */
  function RowList(dates: seq<string>, starts: seq<string>, durations: seq<string>, code: string): seq<Event> {
    seq(|dates|, i requires 0 <= i < |dates| => EventAt(dates, starts, durations, code, i))
  }

  /** The `each_with_index` loop: one `add_event` per date. */
  method AddRowEvents(cal: seq<Event>, dates: seq<string>, starts: seq<string>, durations: seq<string>, code: string)
    returns (next: seq<Event>)
    ensures |next| == |cal| + |dates| && next[..|cal|] == cal
    ensures forall i | 0 <= i < |dates| ::
      next[|cal| + i].summary == code
      && next[|cal| + i].duration == (if i < |durations| then Some(durations[i]) else None)
      && next[|cal| + i].start == dates[i] + " " + (if i < |starts| then starts[i] else "")
    ensures next == cal + RowList(dates, starts, durations, code)
  {
    next := cal;
    var i := 0;
    while i < |dates|
      invariant 0 <= i <= |dates|
      invariant next == cal + RowList(dates, starts, durations, code)[..i]
    {
      next := next + [EventAt(dates, starts, durations, code, i)];
      i := i + 1;
    }
    assert RowList(dates, starts, durations, code)[..i] == RowList(dates, starts, durations, code);
  }

  /** What one row contributes: nothing without a requested project code;
      otherwise one event per date, or the error of a missing column. */
  function RowEvents(l: string, projects: seq<string>): Result<seq<Event>> {
    match ProjectCode(l)
    case None => Ok([])
    case Some(code) =>
      if code !in projects then Ok([])
      else
        var dateTable :- Column(l, DateCell);
        var dates := TakeWhile(Split(dateTable, " <br>"), NotTotal);
        var startTable :- Column(l, StartCell);
        var starts := TakeWhile(Split(startTable, " <br> "), DigitLine);
        var durationTable :- Column(l, DurationCell);
        var durations := MapAll(TakeWhile(Split(durationTable, "<br>"), NoValign), Duration);
        Ok(RowList(dates, starts, durations, code))
  }

  /** The events of all rows, in order; the first failing row ends it. */
  function Calendar(rows: seq<string>, projects: seq<string>): Result<seq<Event>> {
    if rows == [] then Ok([])
    else
      var first :- RowEvents(rows[0], projects);
      var rest :- Calendar(rows[1..], projects);
      Ok(first + rest)
  }


  /** The row body of the `File.read(...).split("<tr>").each` loop. */
  method ConvertRow(cal: seq<Event>, l: string, projects: seq<string>) returns (r: Result<seq<Event>>)
    ensures r == Prefixed(cal, RowEvents(l, projects))
  {
    var code := ProjectCode(l);
    if code.None? || code.value !in projects {
      assert cal + [] == cal;
      return Ok(cal);
    }
    var dateTable := Column(l, DateCell);
    if dateTable.Err? {
      return Err(dateTable.error);
    }
    var dates := CollectDates(dateTable.value);
    var startTable := Column(l, StartCell);
    if startTable.Err? {
      return Err(startTable.error);
    }
    var starts := CollectStartTimes(startTable.value);
    var durationTable := Column(l, DurationCell);
    if durationTable.Err? {
      return Err(durationTable.error);
    }
    var durations := CollectDurations(durationTable.value);
    var next := AddRowEvents(cal, dates, starts, durations, code.value);
    return Ok(next);
  }

  /** One row of the calendar: its events come next, or its error ends it. */
  lemma CalendarStep(rows: seq<string>, i: nat, projects: seq<string>, cal: seq<Event>)
    requires i < |rows|
    ensures RowEvents(rows[i], projects).Ok? ==>
      Prefixed(cal, Calendar(rows[i..], projects))
        == Prefixed(cal + RowEvents(rows[i], projects).value, Calendar(rows[i + 1..], projects))
    ensures RowEvents(rows[i], projects).Err? ==>
      Calendar(rows[i..], projects) == Err(RowEvents(rows[i], projects).error)
  {
    assert rows[i..][0] == rows[i] && rows[i..][1..] == rows[i + 1..];
    var first := RowEvents(rows[i], projects);
    if first.Ok? {
      match Calendar(rows[i + 1..], projects)
      case Ok(rest) =>
        assert cal + (first.value + rest) == cal + first.value + rest;
      case Err(_) =>
    }
  }

  /** The whole program minus its I/O: the page's rows, in order. */
  method BuildCalendar(page: string, projects: seq<string>) returns (r: Result<seq<Event>>)
    ensures r == Calendar(Split(page, "<tr>"), projects)
  {
    var rows := Split(page, "<tr>");
    var cal: seq<Event> := [];
    var i := 0;
    assert rows[0..] == rows;
    assert Prefixed([], Calendar(rows, projects)) == Calendar(rows, projects) by {
      if Calendar(rows, projects).Ok? {
        assert [] + Calendar(rows, projects).value == Calendar(rows, projects).value;
      }
    }
    while i < |rows|
      invariant 0 <= i <= |rows|
      invariant Calendar(rows, projects) == Prefixed(cal, Calendar(rows[i..], projects))
    {
      CalendarStep(rows, i, projects, cal);
      var next := ConvertRow(cal, rows[i], projects);
      if next.Err? {
        return Err(next.error);
      }
      cal := next.value;
      i := i + 1;
    }
    assert cal + [] == cal;
    return Ok(cal);
  }

  // ---------------------------------------------------------------------
  // What the calendar holds

  /** A row gives events only when its project code was asked for; each of
      them carries that code, and there is one per date. */
  lemma RowEventsFacts(l: string, projects: seq<string>)
    ensures RowEvents(l, projects).Ok? && RowEvents(l, projects).value != [] ==>
      ProjectCode(l).Some? && ProjectCode(l).value in projects
    ensures RowEvents(l, projects).Ok? ==> forall e | e in RowEvents(l, projects).value ::
      e.summary == ProjectCode(l).value
  {
    var r := RowEvents(l, projects);
    if r.Ok? && ProjectCode(l).Some? && ProjectCode(l).value in projects {
      var code := ProjectCode(l).value;
      var dates := TakeWhile(Split(Column(l, DateCell).value, " <br>"), NotTotal);
      var starts := TakeWhile(Split(Column(l, StartCell).value, " <br> "), DigitLine);
      var durations := MapAll(TakeWhile(Split(Column(l, DurationCell).value, "<br>"), NoValign), Duration);
      assert r.value == RowList(dates, starts, durations, code);
      RowListSummaries(dates, starts, durations, code);
    }
  }

  lemma RowListSummaries(dates: seq<string>, starts: seq<string>, durations: seq<string>, code: string)
    ensures forall e | e in RowList(dates, starts, durations, code) :: e.summary == code
  {
    var es := RowList(dates, starts, durations, code);
    forall e | e in es
      ensures e.summary == code
    {
      var i :| 0 <= i < |es| && es[i] == e;
    }
  }

  /** A requested row that converts gives one event per date of its date
      column, and a row whose date column is missing fails. */
  lemma RowEventsCount(l: string, projects: seq<string>)
    requires ProjectCode(l).Some? && ProjectCode(l).value in projects
    ensures Column(l, DateCell).Err? ==> RowEvents(l, projects).Err?
    ensures RowEvents(l, projects).Ok? ==>
      Column(l, DateCell).Ok?
      && |RowEvents(l, projects).value| == |TakeWhile(Split(Column(l, DateCell).value, " <br>"), NotTotal)|
  {
  }

  /** Every event of the calendar belongs to a requested project and is
      summarised by its project code. */
  lemma {:induction false} CalendarSummaries(rows: seq<string>, projects: seq<string>)
    ensures Calendar(rows, projects).Ok? ==>
      forall e | e in Calendar(rows, projects).value :: e.summary in projects && IsCode(e.summary)
  {
    if rows != [] {
      RowEventsFacts(rows[0], projects);
      CalendarSummaries(rows[1..], projects);
    }
  }

  /** A page without any requested project gives an empty calendar. */
  lemma {:induction false} CalendarNoProjects(rows: seq<string>)
    ensures Calendar(rows, []) == Ok([])
  {
    if rows != [] {
      assert RowEvents(rows[0], []) == Ok([]);
      CalendarNoProjects(rows[1..]);
      var e: seq<Event> := [];
      assert e + e == e;
    }
  }
}
