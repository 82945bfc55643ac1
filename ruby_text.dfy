/** The parts of Ruby's String and Array behaviour that the scripts rely on:
    splitting on a separator, awk-style splitting on whitespace, joining,
    substring search, `chomp`, and the line structure that `IO#readlines`
    and `IO#puts` impose on text. */
module RubyText {

  predicate StartsWith(s: string, p: string) {
    |p| <= |s| && s[..|p|] == p
  }

  predicate EndsWith(s: string, p: string) {
    |p| <= |s| && s[|s| - |p|..] == p
  }

  predicate OccursAt(s: string, p: string, k: nat) {
    k + |p| <= |s| && s[k..k + |p|] == p
  }

  /** `String#include?`: `p` occurs somewhere in `s`. */
  predicate Contains(s: string, p: string) {
    exists k | 0 <= k <= |s| :: OccursAt(s, p, k)
  }

  /** Concatenation of a sequence of strings (`Array#join` with no separator). */
  function Concat(ss: seq<string>): string {
    if ss == [] then "" else ss[0] + Concat(ss[1..])
  }

  /** Joining with a separator, the inverse of `SplitRaw`. */
  function JoinWith(ss: seq<string>, sep: string): string
    requires ss != []
  {
    if |ss| == 1 then ss[0] else ss[0] + sep + JoinWith(ss[1..], sep)
  }

  /** The pieces of `s` between the occurrences of `sep`, found left to right
      without overlap; empty pieces are kept, so `|r| - 1` separators were seen. */
  function SplitRaw(s: string, sep: string): (r: seq<string>)
    requires sep != ""
    ensures |r| >= 1
    decreases |s|
  {
    if StartsWith(s, sep) then [""] + SplitRaw(s[|sep|..], sep)
    else if s == "" then [""]
    else
      var rest := SplitRaw(s[1..], sep);
      [[s[0]] + rest[0]] + rest[1..]
  }

  /** `i` is the leftmost occurrence of `p` in `s`. */
  predicate FirstOccurrence(s: string, p: string, i: nat) {
    OccursAt(s, p, i) && forall j | 0 <= j < i :: !OccursAt(s, p, j)
  }

  /** `v` is the text of `s` from position `a` up to the next occurrence of
      `sep` or the end, whichever comes first. */
  predicate PieceFrom(s: string, sep: string, a: nat, v: string) {
    a + |v| <= |s| && s[a..a + |v|] == v
    && (forall j | a <= j < a + |v| :: !OccursAt(s, sep, j))
    && (a + |v| == |s| || OccursAt(s, sep, a + |v|))
  }

  lemma OccursShift(s: string, p: string, d: nat, j: nat)
    requires d <= |s|
    ensures OccursAt(s[d..], p, j) <==> OccursAt(s, p, d + j)
  {
    if d + j + |p| <= |s| {
      assert s[d..][j..j + |p|] == s[d + j..d + j + |p|];
    }
  }

  /** The first piece of a split runs up to the leftmost separator, or to
      the end when there is none. */
  lemma {:induction false} SplitRawFirstPiece(s: string, sep: string)
    requires sep != ""
    ensures PieceFrom(s, sep, 0, SplitRaw(s, sep)[0])
    decreases |s|
  {
    if StartsWith(s, sep) {
      assert OccursAt(s, sep, 0);
    } else if s != "" {
      var rest := SplitRaw(s[1..], sep);
      SplitRawFirstPiece(s[1..], sep);
      assert SplitRaw(s, sep)[0] == [s[0]] + rest[0];
      PieceCons(s, sep, rest[0]);
    }
  }

  /** Split at its leftmost separator, the text is the part before it and
      then the split of what follows it. */
  lemma {:induction false} SplitRawAt(s: string, sep: string, n: nat)
    requires sep != "" && FirstOccurrence(s, sep, n)
    ensures SplitRaw(s, sep) == [s[..n]] + SplitRaw(s[n + |sep|..], sep)
    decreases n
  {
    if n == 0 {
      assert StartsWith(s, sep);
    } else {
      FirstOccurrenceTail(s, sep, n);
      SplitRawAt(s[1..], sep, n - 1);
      SplitRawAtStep(s, sep, n);
    }
  }

  /** Past a first character, the leftmost separator is one place earlier. */
  lemma FirstOccurrenceTail(s: string, sep: string, n: nat)
    requires sep != "" && FirstOccurrence(s, sep, n) && n > 0
    ensures s != "" && !StartsWith(s, sep) && FirstOccurrence(s[1..], sep, n - 1)
  {
    assert !OccursAt(s, sep, 0);
    forall j | 0 <= j < n - 1 ensures !OccursAt(s[1..], sep, j) {
      OccursShift(s, sep, 1, j);
    }
    OccursShift(s, sep, 1, n - 1);
  }

  lemma SplitRawAtStep(s: string, sep: string, n: nat)
    requires sep != "" && s != "" && !StartsWith(s, sep) && 0 < n && n - 1 + |sep| <= |s| - 1
    requires SplitRaw(s[1..], sep) == [s[1..][..n - 1]] + SplitRaw(s[1..][n - 1 + |sep|..], sep)
    ensures SplitRaw(s, sep) == [s[..n]] + SplitRaw(s[n + |sep|..], sep)
  {
    var t := s[1..];
    var rest := SplitRaw(t, sep);
    var tail := SplitRaw(s[n + |sep|..], sep);
    SliceTail(s, n - 1 + |sep|);
    assert rest[0] == t[..n - 1] && rest[1..] == tail;
    assert [s[0]] + t[..n - 1] == s[..n];
    SplitRawUnfold(s, sep);
  }

  lemma SplitRawUnfold(s: string, sep: string)
    requires sep != "" && s != "" && !StartsWith(s, sep)
    ensures SplitRaw(s, sep) == [[s[0]] + SplitRaw(s[1..], sep)[0]] + SplitRaw(s[1..], sep)[1..]
  {
  }

  /** Without a separator, the split is the whole text. */
  lemma {:induction false} SplitRawNone(s: string, sep: string)
    requires sep != "" && !Contains(s, sep)
    ensures SplitRaw(s, sep) == [s]
    decreases |s|
  {
    if s != "" {
      assert !OccursAt(s, sep, 0);
      var t := s[1..];
      forall j | 0 <= j <= |t| ensures !OccursAt(t, sep, j) {
        OccursShift(s, sep, 1, j);
      }
      SplitRawNone(t, sep);
      assert !StartsWith(s, sep);
      assert SplitRaw(s, sep) == [[s[0]] + t];
      assert [s[0]] + t == s;
    }
  }

  /** Where `p` occurs, it has a leftmost occurrence. */
  lemma {:induction false} LeftmostOccurrence(s: string, p: string, k: nat) returns (i: nat)
    requires OccursAt(s, p, k)
    ensures i <= k && FirstOccurrence(s, p, i)
    decreases k
  {
    if forall j | 0 <= j < k :: !OccursAt(s, p, j) {
      i := k;
    } else {
      var j :| 0 <= j < k && OccursAt(s, p, j);
      i := LeftmostOccurrence(s, p, j);
    }
  }

  lemma SliceTail(s: string, a: nat)
    requires a < |s|
    ensures s[1..][a..] == s[a + 1..]
  {
  }

  /** A first character that does not start a separator extends the first
      piece of the rest. */
  lemma PieceCons(s: string, sep: string, v: string)
    requires s != "" && !StartsWith(s, sep) && PieceFrom(s[1..], sep, 0, v)
    ensures PieceFrom(s, sep, 0, [s[0]] + v)
  {
    var n := |v|;
    assert s[..n + 1] == [s[0]] + s[1..][..n];
    NoOccurrenceShift(s, sep, n);
    OccursShift(s, sep, 1, n);
  }

  lemma NoOccurrenceShift(s: string, sep: string, n: nat)
    requires s != "" && !StartsWith(s, sep) && n < |s|
    requires forall j | 0 <= j < n :: !OccursAt(s[1..], sep, j)
    ensures forall j | 0 <= j < n + 1 :: !OccursAt(s, sep, j)
  {
    forall j | 0 < j < n + 1 ensures !OccursAt(s, sep, j) {
      OccursShift(s, sep, 1, j - 1);
    }
  }

  /** The second piece of a split, when there is one, is the text between
      the leftmost separator and the next one or the end. */
  lemma SplitRawSecond(s: string, sep: string, i: nat)
    requires sep != "" && FirstOccurrence(s, sep, i)
    ensures |SplitRaw(s, sep)| >= 2 && PieceFrom(s, sep, i + |sep|, SplitRaw(s, sep)[1])
  {
    var a := i + |sep|;
    SplitRawAt(s, sep, i);
    SplitRawFirstPiece(s[a..], sep);
    PieceShift(s, sep, a, SplitRaw(s[a..], sep)[0]);
  }

  /** A piece of a suffix is a piece of the whole string. */
  lemma PieceShift(s: string, sep: string, a: nat, v: string)
    requires a <= |s| && PieceFrom(s[a..], sep, 0, v)
    ensures PieceFrom(s, sep, a, v)
  {
    forall j | a <= j < a + |v| ensures !OccursAt(s, sep, j) {
      OccursShift(s, sep, a, j - a);
    }
    OccursShift(s, sep, a, |v|);
    assert s[a..a + |v|] == s[a..][..|v|];
  }

  /** Ruby drops the empty pieces at the end of a split. */
  function DropTrailingEmpty(ps: seq<string>): (r: seq<string>)
    ensures |r| <= |ps| && r == ps[..|r|]
    ensures r == [] || r[|r| - 1] != ""
    ensures forall k | |r| <= k < |ps| :: ps[k] == ""
  {
    if ps != [] && ps[|ps| - 1] == "" then DropTrailingEmpty(ps[..|ps| - 1]) else ps
  }

  /** `String#split(sep)` for a separator other than the single space. */
  function Split(s: string, sep: string): seq<string>
    requires sep != ""
  {
    DropTrailingEmpty(SplitRaw(s, sep))
  }

  /** Splitting and joining again gives back the input. */
  lemma {:induction false} JoinSplitRaw(s: string, sep: string)
    requires sep != ""
    ensures JoinWith(SplitRaw(s, sep), sep) == s
    decreases |s|
  {
    if StartsWith(s, sep) {
      var tail := s[|sep|..];
      JoinSplitRaw(tail, sep);
      JoinCons("", SplitRaw(tail, sep), sep);
      PrefixThenRest(s, sep);
    } else if s != "" {
      var rest := SplitRaw(s[1..], sep);
      JoinSplitRaw(s[1..], sep);
      JoinExtendFirst(s[0], rest, sep);
      PrefixThenRest(s, [s[0]]);
    }
  }

  lemma PrefixThenRest(s: string, p: string)
    requires StartsWith(s, p)
    ensures s == "" + p + s[|p|..]
  {
    assert s == s[..|p|] + s[|p|..];
  }

  lemma JoinCons(x: string, rest: seq<string>, sep: string)
    requires rest != []
    ensures JoinWith([x] + rest, sep) == x + sep + JoinWith(rest, sep)
  {
    assert ([x] + rest)[1..] == rest;
  }

  lemma JoinExtendFirst(c: char, rest: seq<string>, sep: string)
    requires rest != []
    ensures JoinWith([[c] + rest[0]] + rest[1..], sep) == [c] + JoinWith(rest, sep)
  {
    var r := [[c] + rest[0]] + rest[1..];
    if |rest| > 1 {
      assert r[1..] == rest[1..];
      assert rest == [rest[0]] + rest[1..];
      JoinCons(rest[0], rest[1..], sep);
    }
  }

  /** With a one-character separator, no piece contains that character. */
  lemma {:induction false} SplitRawNoSeparator(s: string, c: char)
    ensures forall k | 0 <= k < |SplitRaw(s, [c])| :: c !in SplitRaw(s, [c])[k]
    decreases |s|
  {
    if StartsWith(s, [c]) {
      SplitRawNoSeparator(s[1..], c);
    } else if s != "" {
      SplitRawNoSeparator(s[1..], c);
      assert s[0] != c;
    }
  }

  /** A piece free of the one-character separator comes off whole. */
  lemma {:induction false} SplitRawPiece(x: string, c: char, y: string)
    requires c !in x
    ensures SplitRaw(x + [c] + y, [c]) == [x] + SplitRaw(y, [c])
    decreases |x|
  {
    if x == "" {
      assert x + [c] + y == [c] + y;
      assert ([c] + y)[1..] == y;
    } else {
      var s := x + [c] + y;
      assert s[0] == x[0] && s[0] != c;
      assert s[1..] == x[1..] + [c] + y;
      SplitRawPiece(x[1..], c, y);
      assert [x[0]] + x[1..] == x;
    }
  }

  /** A string free of the one-character separator is one piece. */
  lemma {:induction false} SplitRawWhole(x: string, c: char)
    requires c !in x
    ensures SplitRaw(x, [c]) == [x]
    decreases |x|
  {
    if x != "" {
      assert x[0] != c && x[1..] == x[1..];
      SplitRawWhole(x[1..], c);
      assert [x[0]] + x[1..] == x;
    }
  }

  // ---------------------------------------------------------------------
  // awk-style splitting, `String#split(" ")`

  /** The characters Ruby treats as white space when splitting on " ". */
  predicate IsSpace(c: char) {
    c == ' ' || c == '\t' || c == '\n' || c == '\U{B}' || c == '\U{C}' || c == '\r'
  }

  /** Length of the run of non-space characters that starts `s`. */
  function WordLength(s: string): (n: nat)
    ensures n <= |s|
    ensures forall k | 0 <= k < n :: !IsSpace(s[k])
    ensures n == |s| || IsSpace(s[n])
  {
    if s == "" || IsSpace(s[0]) then 0 else 1 + WordLength(s[1..])
  }

  /** `String#split(" ")`: the maximal runs of non-space characters, in order. */
  function Tokens(s: string): (ts: seq<string>)
    ensures forall k | 0 <= k < |ts| :: ts[k] != "" && forall j | 0 <= j < |ts[k]| :: !IsSpace(ts[k][j])
    decreases |s|
  {
    if s == "" then []
    else if IsSpace(s[0]) then Tokens(s[1..])
    else
      var n := WordLength(s);
      [s[..n]] + Tokens(s[n..])
  }

  // ---------------------------------------------------------------------
  // Lines

  /** One line as `IO#readlines` delivers it: a single terminating newline. */
  predicate IsLine(l: string) {
    |l| > 0 && l[|l| - 1] == '\n' && '\n' !in l[..|l| - 1]
  }

  predicate WellFormed(ls: seq<string>) {
    forall k | 0 <= k < |ls| :: IsLine(ls[k])
  }

  /** Length of the first line of `t`, including its newline if it has one. */
  function LineLength(t: string): (n: nat)
    ensures n <= |t|
    ensures t != "" ==> n > 0
    ensures forall k | 0 <= k < n - 1 :: t[k] != '\n'
    ensures n < |t| ==> t[n - 1] == '\n'
  {
    if t == "" then 0
    else if t[0] == '\n' then 1
    else 1 + LineLength(t[1..])
  }

  /** `IO#readlines`: the text cut after every newline. */
  function ReadLines(t: string): (ls: seq<string>)
    decreases |t|
  {
    if t == "" then []
    else
      var n := LineLength(t);
      [t[..n]] + ReadLines(t[n..])
  }

  /** The first line of a text is a whole line when more text follows it or
      the text ends in a newline. */
  lemma FirstLine(t: string)
    requires t != "" && (LineLength(t) < |t| || t[|t| - 1] == '\n')
    ensures IsLine(t[..LineLength(t)])
  {
    var n := LineLength(t);
    var body := t[..n][..n - 1];
    forall k | 0 <= k < |body| ensures body[k] != '\n' {
      assert body[k] == t[k];
    }
  }

  /** Reading lines loses nothing. */
  lemma {:induction false} ReadLinesConcat(t: string)
    ensures Concat(ReadLines(t)) == t
    decreases |t|
  {
    if t != "" {
      var n := LineLength(t);
      ReadLinesConcat(t[n..]);
      ConcatCons(t[..n], ReadLines(t[n..]));
      assert t == t[..n] + t[n..];
    }
  }

  /** Every line read but the last ends in a newline, and all of them do when
      the text does. */
  lemma {:induction false} ReadLinesShape(t: string)
    ensures forall k | 0 <= k < |ReadLines(t)| - 1 :: IsLine(ReadLines(t)[k])
    ensures (t == "" || t[|t| - 1] == '\n') ==> WellFormed(ReadLines(t))
    decreases |t|
  {
    if t != "" {
      var n := LineLength(t);
      ReadLinesShape(t[n..]);
      var rest := ReadLines(t[n..]);
      var ls := ReadLines(t);
      assert ls == [t[..n]] + rest;
      if n < |t| {
        FirstLine(t);
        assert t[n..][|t[n..]| - 1] == t[|t| - 1];
      } else if t[|t| - 1] == '\n' {
        FirstLine(t);
      }
      forall k | 1 <= k < |ls| ensures ls[k] == rest[k - 1] {
      }
    }
  }

  /** Reading lines loses nothing; every line but the last ends in a newline,
      and all of them do when the text does. */
  lemma ReadLinesFacts(t: string)
    ensures Concat(ReadLines(t)) == t
    ensures forall k | 0 <= k < |ReadLines(t)| - 1 :: IsLine(ReadLines(t)[k])
    ensures (t == "" || t[|t| - 1] == '\n') ==> WellFormed(ReadLines(t))
  {
    ReadLinesConcat(t);
    ReadLinesShape(t);
  }

  /** `Concat` distributes over sequence concatenation. */
  lemma {:induction false} ConcatAppend(a: seq<string>, b: seq<string>)
    ensures Concat(a + b) == Concat(a) + Concat(b)
  {
    if a != [] {
      assert (a + b)[1..] == a[1..] + b;
      ConcatAppend(a[1..], b);
    } else {
      assert a + b == b;
    }
  }

  lemma ConcatShort(a: string, b: string, c: string)
    ensures Concat([a]) == a
    ensures Concat([a, b]) == a + b
    ensures Concat([a, b, c]) == a + b + c
  {
    assert [a][1..] == [];
    assert Concat([a]) == a;
    assert [a, b][1..] == [b];
    assert Concat([b]) == b by { assert [b][1..] == []; }
    assert [a, b, c][1..] == [b, c];
    assert [b, c][1..] == [c];
    assert Concat([c]) == c by { assert [c][1..] == []; }
  }

  /** A line without its newline. */
  function Chop(l: string): string {
    if l == "" then "" else l[..|l| - 1]
  }

  function ChopAll(ls: seq<string>): (r: seq<string>)
    ensures |r| == |ls| && forall k | 0 <= k < |ls| :: r[k] == Chop(ls[k])
  {
    seq(|ls|, k requires 0 <= k < |ls| => Chop(ls[k]))
  }

  /** Each piece with a newline appended, as the EPS driver does after its split. */
  function AppendNewlines(ps: seq<string>): (r: seq<string>)
    ensures |r| == |ps| && forall k | 0 <= k < |ps| :: r[k] == ps[k] + "\n"
  {
    seq(|ps|, k requires 0 <= k < |ps| => ps[k] + "\n")
  }

  lemma ConcatCons(x: string, rest: seq<string>)
    ensures Concat([x] + rest) == x + Concat(rest)
  {
    assert ([x] + rest)[1..] == rest;
  }

  /** The lines after the first of well-formed lines are well formed. */
  lemma WellFormedTail(ls: seq<string>)
    requires WellFormed(ls) && ls != []
    ensures IsLine(ls[0]) && WellFormed(ls[1..])
  {
    forall k | 0 <= k < |ls[1..]| ensures IsLine(ls[1..][k]) {
      assert ls[1..][k] == ls[k + 1];
    }
  }

  /** A line is its chopped text followed by its newline. */
  lemma ChopLine(l: string)
    requires IsLine(l)
    ensures l == Chop(l) + "\n" && '\n' !in Chop(l)
  {
  }

  lemma ChopAllCons(ls: seq<string>)
    requires ls != []
    ensures ChopAll(ls) == [Chop(ls[0])] + ChopAll(ls[1..])
  {
  }

  lemma ConsAppend(x: string, a: seq<string>, b: seq<string>)
    ensures [x] + (a + b) == [x] + a + b
  {
  }

  lemma LineThenRest(ls: seq<string>, tail: string)
    requires ls != [] && ls[0] == Chop(ls[0]) + "\n"
    ensures Concat(ls) + tail == Chop(ls[0]) + "\n" + (Concat(ls[1..]) + tail)
  {
  }

  /** Splitting joined lines at newlines gives back the lines without their newlines. */
  lemma {:induction false} SplitRawLines(ls: seq<string>, tail: string)
    requires WellFormed(ls)
    ensures SplitRaw(Concat(ls) + tail, "\n") == ChopAll(ls) + SplitRaw(tail, "\n")
  {
    if ls != [] {
      var l, rest := ls[0], ls[1..];
      WellFormedTail(ls);
      ChopLine(l);
      SplitRawLines(rest, tail);
      LineThenRest(ls, tail);
      SplitRawPiece(Chop(l), '\n', Concat(rest) + tail);
      ChopAllCons(ls);
      ConsAppend(Chop(l), ChopAll(rest), SplitRaw(tail, "\n"));
    } else {
      assert Concat(ls) + tail == tail;
    }
  }

  /** `IO#puts` on an array writes each element and a newline after every
      element that does not already end in one (a lone newline for an empty array). */
  function PutsText(ls: seq<string>): string {
    if ls == [] then "\n" else PutsLines(ls)
  }

  function PutsLines(ls: seq<string>): string {
    if ls == [] then ""
    else (if EndsWith(ls[0], "\n") then ls[0] else ls[0] + "\n") + PutsLines(ls[1..])
  }

  /** Lines that already end in a newline are written unchanged, so a
      well-formed prefix of the array is a prefix of what `puts` writes. */
  lemma {:induction false} PutsPrefix(a: seq<string>, b: seq<string>)
    requires WellFormed(a)
    ensures PutsLines(a + b) == Concat(a) + PutsLines(b)
  {
    if a != [] {
      assert (a + b)[1..] == a[1..] + b;
      assert IsLine(a[0]);
      assert EndsWith(a[0], "\n");
      WellFormedTail(a);
      PutsPrefix(a[1..], b);
    } else {
      assert a + b == b;
    }
  }

  // ---------------------------------------------------------------------

  /** `String#chomp`: one trailing "\r\n", "\n" or "\r" removed. */
  function Chomp(s: string): (r: string)
    ensures StartsWith(s, r) && |s| - 2 <= |r| <= |s|
  {
    if EndsWith(s, "\r\n") then s[..|s| - 2]
    else if EndsWith(s, "\n") || EndsWith(s, "\r") then s[..|s| - 1]
    else s
  }

  /** `String#downcase` on ASCII letters. */
  function Downcase(s: string): (r: string)
    ensures |r| == |s|
  {
    seq(|s|, k requires 0 <= k < |s| => if 'A' <= s[k] <= 'Z' then (s[k] as int + 32) as char else s[k])
  }

  /** Exactly "y" and "Y" downcase to "y". */
  lemma DowncaseY(s: string)
    ensures Downcase(s) == "y" <==> s == "y" || s == "Y"
  {
    if Downcase(s) == "y" {
      assert |s| == 1 && Downcase(s)[0] == 'y';
    }
    if s == "Y" {
      assert Downcase(s)[0] == 'y';
    }
  }
}
