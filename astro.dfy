/** functions.rb, class Astro: reading "dd:mm:ss" coordinates into degrees,
    subtracting a reference position, writing galactic coordinates as
    "dd:mm:ss.sss", and the decision of whether an existing output may be
    overwritten. Fixed-point formatting is the `Formatter` passed in; the file
    system and the user's answer are parameters. */
module Astro {
  import opened Wrappers
  import opened RubyText
  import opened RubyNumber

  // ---------------------------------------------------------------------
  // radec_to_deg

  /** The weights of the fields of "dd:mm:ss": 1, 1/60 and 1/3600. */
  const Weights: seq<real> := [1.0, 1.0 / 60.0, 1.0 / 3600.0]

  /** `c.split(":").map { |c| c.to_f.abs }` applied to the fields. */
  function Magnitudes(fields: seq<string>): (ms: seq<real>)
    ensures |ms| == |fields| && forall k | 0 <= k < |ms| :: ms[k] >= 0.0
  {
    seq(|fields|, k requires 0 <= k < |fields| => Abs(ToF(fields[k])))
  }

  /** Magnitude `k`, and zero when there is no such field. */
  function At(ms: seq<real>, k: nat): real {
    if k < |ms| then ms[k] else 0.0
  }

  /** The value "dd:mm:ss" stands for, read field by field from the magnitudes. */
  function Sexagesimal(ms: seq<real>): real {
    At(ms, 0) + At(ms, 1) / 60.0 + At(ms, 2) / 3600.0
  }

  /** Magnitude `m` of field `k` times the weight of that field. */
  function Weighted(m: real, k: nat): real {
    if k == 0 then m else if k == 1 then m / 60.0 else m / 3600.0
  }

  /** `Weighted` is the product with the matching entry of `Weights`. */
  lemma WeightedIsProduct(m: real, k: nat)
    requires k < |Weights|
    ensures Weighted(m, k) == m * Weights[k]
  {
  }

  /** `.zip([1, 1.0/60, 1.0/3600]).map { |c| c.first * c.last }` for at most
      three fields; `WeightedIsProduct` ties each entry to `Weights`. */
  function Products(ms: seq<real>): seq<real>
    requires |ms| <= 3
  {
    seq(|ms|, k requires 0 <= k < |ms| => Weighted(ms[k], k))
  }

  /** `inject { |total, c| total + c }` on a non-empty array: the total starts
      as the first element and each later one is added to it in turn. */
  function Inject(xs: seq<real>): real
    requires xs != []
  {
    InjectFrom(xs[0], xs, 1)
  }

  function InjectFrom(total: real, xs: seq<real>, i: nat): real
    requires i <= |xs|
    decreases |xs| - i
  {
    if i == |xs| then total else InjectFrom(total + xs[i], xs, i + 1)
  }

  /** Summing the weighted fields from the left is the field-by-field value. */
  lemma InjectProducts(ms: seq<real>)
    requires 1 <= |ms| <= 3
    ensures Inject(Products(ms)) == Sexagesimal(ms)
  {
    var ps := Products(ms);
    assert ps[0] == ms[0];
    if |ps| == 2 {
      assert ps[1] == ms[1] / 60.0;
      assert InjectFrom(ps[0] + ps[1], ps, 2) == ps[0] + ps[1];
    } else if |ps| == 3 {
      assert ps[1] == ms[1] / 60.0 && ps[2] == ms[2] / 3600.0;
      assert InjectFrom(ps[0] + ps[1] + ps[2], ps, 3) == ps[0] + ps[1] + ps[2];
      assert InjectFrom(ps[0] + ps[1], ps, 2) == ps[0] + ps[1] + ps[2];
    }
  }

  /** One coordinate string in degrees (hours for the right ascension). */
  function Component(c: string): (r: Result<Option<real>>)
    ensures r.Err? <==> |Split(c, ":")| > 3
    ensures r == Ok(None) <==> Split(c, ":") == []
    ensures r.Ok? && r.value.Some? ==> r.value.value == Sexagesimal(Magnitudes(Split(c, ":")))
  {
    Reading(Split(c, ":"))
  }

  /** The fields of one coordinate summed with their weights. A fourth field
      has nothing to be zipped with, and `Float * nil` raises; no field at
      all makes `inject` return nil (`None`), which fails later. */
  function Reading(fields: seq<string>): (r: Result<Option<real>>)
    ensures r.Err? <==> |fields| > 3
    ensures r == Ok(None) <==> fields == []
    ensures r.Ok? && r.value.Some? ==> r.value.value == Sexagesimal(Magnitudes(fields))
  {
    if |fields| > 3 then Err("TypeError: nil can't be coerced into Float")
    else if fields == [] then Ok(None)
    else
      var ms := Magnitudes(fields);
      InjectProducts(ms);
      Ok(Some(Inject(Products(ms))))
  }

  /** Two lists of fields of the same length and the same value read alike. */
  lemma ReadingCongruent(fs: seq<string>, gs: seq<string>)
    requires |fs| == |gs| && Sexagesimal(Magnitudes(fs)) == Sexagesimal(Magnitudes(gs))
    ensures Reading(fs) == Reading(gs)
  {
  }

  /** `radec_to_deg`: the right ascension times 15, and the declination times
      -1 when a "-" occurs anywhere in its string. The magnitudes
      are read without their signs, so a sign on the right ascension is lost. */
  function RadecToDeg(pair: seq<string>): (r: Result<seq<real>>)
    ensures |pair| != 2 ==> r == Err("Input array is not of size 2.")
    ensures r.Ok? <==> |pair| == 2 && 1 <= |Split(pair[0], ":")| <= 3 && 1 <= |Split(pair[1], ":")| <= 3
    ensures r.Ok? ==>
      |r.value| == 2
      && r.value[0] == 15.0 * Sexagesimal(Magnitudes(Split(pair[0], ":")))
      && r.value[1] == (if Contains(pair[1], "-") then -Sexagesimal(Magnitudes(Split(pair[1], ":"))) else Sexagesimal(Magnitudes(Split(pair[1], ":"))))
  {
    if |pair| != 2 then Err("Input array is not of size 2.")
    else Scaled(Component(pair[0]), Component(pair[1]), Contains(pair[1], "-"))
  }

  /** `.zip([15, sign]).map { |c| c.first * c.last }` on the two components
      as read; a component that is nil raises. */
  function Scaled(ra: Result<Option<real>>, dec: Result<Option<real>>, negative: bool): Result<seq<real>> {
    var ra :- ra;
    var dec :- dec;
    if ra.None? || dec.None? then Err("NoMethodError: undefined method `*' for nil:NilClass")
    else Ok([ra.value * 15.0, if negative then -dec.value else dec.value])
  }

  /** `DropTrailingEmpty` looks only at which pieces are empty, so two lists
      that differ in a first piece that is non-empty in both keep the same length. */
  lemma {:induction false} DropTrailingFirst(p: seq<string>, q: seq<string>)
    requires |p| == |q| && p != [] && p[0] != "" && q[0] != "" && p[1..] == q[1..]
    ensures |DropTrailingEmpty(p)| == |DropTrailingEmpty(q)| >= 1
    decreases |p|
  {
    if p[|p| - 1] == "" {
      assert |p| >= 2 && q[|q| - 1] == p[|p| - 1];
      var p', q' := p[..|p| - 1], q[..|q| - 1];
      assert p'[1..] == p[1..|p| - 1] == q[1..|q| - 1] == q'[1..];
      DropTrailingFirst(p', q');
    } else {
      assert q[|q| - 1] != "" by {
        if |p| >= 2 {
          assert q[|q| - 1] == q[1..][|q| - 2] == p[1..][|p| - 2];
        }
      }
    }
  }

  /** The raw pieces of "-" + s at ":" are those of `s`, with the sign on the
      first one. */
  lemma SplitRawSigned(s: string)
    requires s != "" && IsDigit(s[0])
    ensures var raw, rawT := SplitRaw(s, ":"), SplitRaw("-" + s, ":");
      raw[0] != "" && raw[0][0] == s[0] && rawT == [['-'] + raw[0]] + raw[1..]
  {
    var t := "-" + s;
    var raw := SplitRaw(s, ":");
    assert !StartsWith(s, ":") && s[0] != ':';
    assert raw == [[s[0]] + SplitRaw(s[1..], ":")[0]] + SplitRaw(s[1..], ":")[1..];
    assert !StartsWith(t, ":") && t[1..] == s;
  }

  /** Two lists that agree after their first element and keep as many
      elements once trailing empty pieces are dropped agree after the first
      element then too. */
  lemma SameTailKept(p: seq<string>, q: seq<string>)
    requires |p| == |q| >= 1 && p[1..] == q[1..]
    requires |DropTrailingEmpty(p)| == |DropTrailingEmpty(q)| >= 1
    ensures DropTrailingEmpty(p)[1..] == DropTrailingEmpty(q)[1..]
  {
    var fp, fq := DropTrailingEmpty(p), DropTrailingEmpty(q);
    assert fp[1..] == p[1..|fp|] == q[1..|fq|] == fq[1..];
  }

  /** Splitting "-" + s at ":" puts the sign on the first field and leaves
      the others as they are. */
  lemma SplitSigned(s: string)
    requires s != "" && IsDigit(s[0])
    ensures var fs, gs := Split(s, ":"), Split("-" + s, ":");
      |fs| == |gs| >= 1 && fs[1..] == gs[1..] && gs[0] == "-" + fs[0] && fs[0] != "" && IsDigit(fs[0][0])
  {
    var raw, rawT := SplitRaw(s, ":"), SplitRaw("-" + s, ":");
    SplitRawSigned(s);
    DropTrailingFirst(raw, rawT);
    SameTailKept(raw, rawT);
    var fs, gs := DropTrailingEmpty(raw), DropTrailingEmpty(rawT);
    assert fs[0] == raw[0] && gs[0] == rawT[0];
  }

  /** A minus sign in front of a number does not change its magnitude. */
  lemma SignedMagnitude(x: string)
    requires x != "" && IsDigit(x[0])
    ensures Abs(ToF("-" + x)) == Abs(ToF(x))
  {
    ToFNegate(x);
  }

  /** The first magnitude is the same with or without the sign. */
  lemma HeadMagnitude(fs: seq<string>, gs: seq<string>)
    requires fs != [] && gs != [] && gs[0] == "-" + fs[0] && fs[0] != "" && IsDigit(fs[0][0])
    ensures At(Magnitudes(gs), 0) == At(Magnitudes(fs), 0)
  {
    SignedMagnitude(fs[0]);
  }

  /** The later magnitudes are those of the same fields. */
  lemma TailMagnitude(fs: seq<string>, gs: seq<string>, k: nat)
    requires |fs| == |gs| >= 1 && fs[1..] == gs[1..] && 1 <= k
    ensures At(Magnitudes(gs), k) == At(Magnitudes(fs), k)
  {
    if k < |fs| {
      assert gs[k] == gs[1..][k - 1] == fs[1..][k - 1] == fs[k];
    }
  }

  /** A minus sign in front of a coordinate string keeps the number of
      fields and the value read from them. */
  lemma SignedSexagesimal(s: string)
    requires s != "" && IsDigit(s[0])
    ensures |Split("-" + s, ":")| == |Split(s, ":")|
    ensures Sexagesimal(Magnitudes(Split("-" + s, ":"))) == Sexagesimal(Magnitudes(Split(s, ":")))
  {
    SplitSigned(s);
    var fs, gs := Split(s, ":"), Split("-" + s, ":");
    HeadMagnitude(fs, gs);
    TailMagnitude(fs, gs, 1);
    TailMagnitude(fs, gs, 2);
  }

  /** A minus sign in front of a coordinate string does not change what
      `Component` reads from it. */
  lemma SignedComponent(s: string)
    requires s != "" && IsDigit(s[0])
    ensures Component("-" + s) == Component(s)
  {
    SignedSexagesimal(s);
    ReadingCongruent(Split(s, ":"), Split("-" + s, ":"));
  }

  /** A sign on the right ascension is discarded. */
  lemma RaSignDiscarded(ra: string, dec: string)
    requires ra != "" && IsDigit(ra[0])
    ensures RadecToDeg(["-" + ra, dec]) == RadecToDeg([ra, dec])
  {
    SignedComponent(ra);
    assert ["-" + ra, dec][0] == "-" + ra && [ra, dec][0] == ra;
  }

  /** A minus sign in front of a declination string negates the declination
      in degrees and leaves the right ascension alone. */
  lemma DecSignNegates(ra: string, dec: string)
    requires dec != "" && IsDigit(dec[0]) && !Contains(dec, "-")
    ensures RadecToDeg([ra, "-" + dec]).Ok? <==> RadecToDeg([ra, dec]).Ok?
    ensures RadecToDeg([ra, dec]).Ok? ==>
      RadecToDeg([ra, "-" + dec]).value[0] == RadecToDeg([ra, dec]).value[0]
      && RadecToDeg([ra, dec]).value[1] >= 0.0
      && RadecToDeg([ra, "-" + dec]).value[1] == -RadecToDeg([ra, dec]).value[1]
  {
    SignedComponent(dec);
    assert OccursAt("-" + dec, "-", 0);
    assert [ra, "-" + dec][1] == "-" + dec && [ra, dec][1] == dec;
    ComponentNonNegative(dec);
  }

  /** What `Component` reads is never negative. */
  lemma ComponentNonNegative(c: string)
    ensures Component(c).Ok? && Component(c).value.Some? ==> Component(c).value.value >= 0.0
  {
  }

  /** "h:m:s" written out from whole numbers. */
  function HmsText(h: nat, m: nat, s: nat): string {
    NatToString(h) + ":" + NatToString(m) + ":" + NatToString(s)
  }

  /** Decimal digits hold neither a colon nor a minus sign. */
  lemma DigitsFree(d: string)
    requires AllDigits(d)
    ensures ':' !in d && '-' !in d
  {
  }

  lemma SplitHms(h: nat, m: nat, s: nat)
    ensures Split(HmsText(h, m, s), ":") == [NatToString(h), NatToString(m), NatToString(s)]
  {
    var a, b, c := NatToString(h), NatToString(m), NatToString(s);
    DigitsFree(a);
    DigitsFree(b);
    DigitsFree(c);
    assert HmsText(h, m, s) == a + [':'] + (b + [':'] + c);
    SplitRawPiece(a, ':', b + [':'] + c);
    SplitRawPiece(b, ':', c);
    SplitRawWhole(c, ':');
  }

  /** The magnitude of a whole number written out is that number. */
  lemma NatMagnitude(n: nat)
    ensures Abs(ToF(NatToString(n))) == n as real
  {
    ToFOfIntToString(n);
  }

  /** One to three fields read as the value `v` they stand for. */
  lemma ReadingValue(fields: seq<string>, v: real)
    requires 1 <= |fields| <= 3 && Sexagesimal(Magnitudes(fields)) == v
    ensures Reading(fields) == Ok(Some(v))
  {
  }

  /** Three fields whose magnitudes are x, y and z stand for x + y/60 + z/3600. */
  lemma SexagesimalOfThree(a: string, b: string, c: string, x: real, y: real, z: real)
    requires Abs(ToF(a)) == x && Abs(ToF(b)) == y && Abs(ToF(c)) == z
    ensures Sexagesimal(Magnitudes([a, b, c])) == x + y / 60.0 + z / 3600.0
  {
    var ms := Magnitudes([a, b, c]);
    assert At(ms, 0) == x && At(ms, 1) == y && At(ms, 2) == z;
  }

  /** Three fields whose magnitudes are x, y and z read as x + y/60 + z/3600. */
  lemma ReadingOfThree(a: string, b: string, c: string, x: real, y: real, z: real)
    requires Abs(ToF(a)) == x && Abs(ToF(b)) == y && Abs(ToF(c)) == z
    ensures Reading([a, b, c]) == Ok(Some(x + y / 60.0 + z / 3600.0))
  {
    SexagesimalOfThree(a, b, c, x, y, z);
    ReadingValue([a, b, c], x + y / 60.0 + z / 3600.0);
  }

  /** Reading back "h:m:s" written from whole numbers gives h + m/60 + s/3600. */
  lemma ComponentOfHms(h: nat, m: nat, s: nat)
    ensures Component(HmsText(h, m, s)) == Ok(Some(h as real + m as real / 60.0 + s as real / 3600.0))
  {
    SplitHms(h, m, s);
    NatMagnitude(h);
    NatMagnitude(m);
    NatMagnitude(s);
    ReadingOfThree(NatToString(h), NatToString(m), NatToString(s), h as real, m as real, s as real);
  }

  /** No minus sign occurs in "h:m:s" written from whole numbers. */
  lemma HmsUnsigned(h: nat, m: nat, s: nat)
    ensures !Contains(HmsText(h, m, s), "-")
  {
    var t := HmsText(h, m, s);
    DigitsFree(NatToString(h));
    DigitsFree(NatToString(m));
    DigitsFree(NatToString(s));
    assert '-' !in t;
    forall k | 0 <= k <= |t|
      ensures !OccursAt(t, "-", k)
    {
      if k < |t| {
        assert t[k] in t && t[k..k + 1] == [t[k]];
      }
    }
  }

  /** A pair of strings is scaled from the two components it reads. */
  lemma RadecToDegPair(ra: string, dec: string)
    ensures RadecToDeg([ra, dec]) == Scaled(Component(ra), Component(dec), Contains(dec, "-"))
  {
    assert [ra, dec][0] == ra && [ra, dec][1] == dec;
  }

  /** Two coordinates that read as numbers x and y give 15 x, and y with the
      sign the declination string asks for. */
  lemma RadecToDegOfReadings(ra: string, dec: string, x: real, y: real)
    requires Component(ra) == Ok(Some(x)) && Component(dec) == Ok(Some(y))
    ensures RadecToDeg([ra, dec]) == Ok([15.0 * x, if Contains(dec, "-") then -y else y])
  {
    RadecToDegPair(ra, dec);
  }

  /** Both coordinates written from whole numbers come back as degrees. */
  lemma RadecToDegOfHms(h: nat, m: nat, s: nat, d: nat, dm: nat, ds: nat)
    ensures RadecToDeg([HmsText(h, m, s), HmsText(d, dm, ds)])
      == Ok([15.0 * (h as real + m as real / 60.0 + s as real / 3600.0), d as real + dm as real / 60.0 + ds as real / 3600.0])
  {
    ComponentOfHms(h, m, s);
    ComponentOfHms(d, dm, ds);
    HmsUnsigned(d, dm, ds);
    RadecToDegOfReadings(HmsText(h, m, s), HmsText(d, dm, ds),
      h as real + m as real / 60.0 + s as real / 3600.0, d as real + dm as real / 60.0 + ds as real / 3600.0);
  }

  /** A string that starts with "-" contains a minus sign. */
  lemma LeadingMinus(t: string)
    ensures Contains("-" + t, "-")
  {
    assert OccursAt("-" + t, "-", 0);
  }

  /** "-h:m:s" written from whole numbers reads as h + m/60 + s/3600. */
  lemma ComponentOfSignedHms(h: nat, m: nat, s: nat)
    ensures Component("-" + HmsText(h, m, s)) == Ok(Some(h as real + m as real / 60.0 + s as real / 3600.0))
  {
    var t := HmsText(h, m, s);
    assert t[0] == NatToString(h)[0];
    SignedComponent(t);
    ComponentOfHms(h, m, s);
  }

  /** Written with a leading "-", the declination comes back negative. */
  lemma RadecToDegOfHmsSouth(h: nat, m: nat, s: nat, d: nat, dm: nat, ds: nat)
    ensures RadecToDeg([HmsText(h, m, s), "-" + HmsText(d, dm, ds)])
      == Ok([15.0 * (h as real + m as real / 60.0 + s as real / 3600.0), -(d as real + dm as real / 60.0 + ds as real / 3600.0)])
  {
    ComponentOfHms(h, m, s);
    ComponentOfSignedHms(d, dm, ds);
    LeadingMinus(HmsText(d, dm, ds));
    RadecToDegOfReadings(HmsText(h, m, s), "-" + HmsText(d, dm, ds),
      h as real + m as real / 60.0 + s as real / 3600.0, d as real + dm as real / 60.0 + ds as real / 3600.0);
  }

  // ---------------------------------------------------------------------
  // offset

  /** `co_ord.zip(ref).map { |e| e.first - e.last }`: past the end of a
      shorter reference `zip` gives nil, and `Float - nil` raises. */
  function Differences(co: seq<real>, ref: seq<real>): (r: Result<seq<real>>)
    ensures r.Ok? <==> |ref| >= |co|
    ensures r.Ok? ==> |r.value| == |co| && forall i | 0 <= i < |co| :: r.value[i] == co[i] - ref[i]
  {
    if co == [] then Ok([])
    else if ref == [] then Err("TypeError: nil can't be coerced into Float")
    else
      var rest :- Differences(co[1..], ref[1..]);
      Ok([co[0] - ref[0]] + rest)
  }

  /** `offset(co_ord, ref)`: each coordinate minus the reference read with
      `to_f`, written with six decimals. */
  function Offset(co: seq<real>, ref: seq<string>, fmt: Formatter): (r: Result<seq<string>>)
    ensures r.Ok? <==> |ref| >= |co|
    ensures r.Ok? ==> |r.value| == |co|
  {
    var ds :- Differences(co, Values(ref));
    Ok(FormatAll(ds, fmt))
  }

  /** `map { |c| sprintf("%.6f", c) }`. */
  function FormatAll(ds: seq<real>, fmt: Formatter): seq<string> {
    seq(|ds|, i requires 0 <= i < |ds| => fmt(ds[i], 6))
  }

  /** Entry `i` of the offset is coordinate `i` minus `to_f` of reference `i`. */
  lemma OffsetAt(co: seq<real>, ref: seq<string>, fmt: Formatter, i: nat)
    requires i < |co| <= |ref|
    ensures Offset(co, ref, fmt).Ok? && Offset(co, ref, fmt).value[i] == fmt(co[i] - ToF(ref[i]), 6)
  {
    var vs := Values(ref);
    assert vs[i] == ToF(ref[i]);
    var ds := Differences(co, vs).value;
    assert ds[i] == co[i] - vs[i];
  }

  /** Whole numbers written out, as a reference position read from text. */
  function IntTexts(ns: seq<int>): (ts: seq<string>)
    ensures |ts| == |ns| && forall i | 0 <= i < |ns| :: ts[i] == IntToString(ns[i])
  {
    seq(|ns|, i requires 0 <= i < |ns| => IntToString(ns[i]))
  }

  /** Entry `i` of the offset from a reference of whole numbers. */
  lemma OffsetOfIntegerAt(co: seq<real>, ns: seq<int>, fmt: Formatter, i: nat)
    requires i < |co| <= |ns|
    ensures Offset(co, IntTexts(ns), fmt).Ok? && Offset(co, IntTexts(ns), fmt).value[i] == fmt(co[i] - ns[i] as real, 6)
  {
    var ref := IntTexts(ns);
    OffsetAt(co, ref, fmt, i);
    ToFOfIntToString(ns[i]);
  }

  /** Against a reference given as whole numbers, the offset of each
      coordinate is its distance from that number; a position offset from
      itself is zero everywhere. */
  lemma OffsetOfIntegers(co: seq<real>, ns: seq<int>, fmt: Formatter)
    requires |ns| >= |co|
    ensures Offset(co, IntTexts(ns), fmt).Ok?
    ensures forall i | 0 <= i < |co| :: Offset(co, IntTexts(ns), fmt).value[i] == fmt(co[i] - ns[i] as real, 6)
    ensures (forall i | 0 <= i < |co| :: co[i] == ns[i] as real) ==>
      forall i | 0 <= i < |co| :: Offset(co, IntTexts(ns), fmt).value[i] == fmt(0.0, 6)
  {
    var o := Offset(co, IntTexts(ns), fmt);
    assert o.Ok?;
    forall i | 0 <= i < |co| ensures o.value[i] == fmt(co[i] - ns[i] as real, 6) {
      OffsetOfIntegerAt(co, ns, fmt, i);
    }
    if forall i | 0 <= i < |co| :: co[i] == ns[i] as real {
      forall i | 0 <= i < |co| ensures o.value[i] == fmt(0.0, 6) {
        assert co[i] - ns[i] as real == 0.0;
      }
    }
  }

  // ---------------------------------------------------------------------
  // gc_to_hms

  /** One coordinate as `gc_to_hms` writes it: `c.truncate`, then the whole
      minutes of `c.abs.remainder(1) * 60`, then their fraction in seconds
      with three decimals, joined with ":". */
  function HmsPart(c: real, fmt: Formatter): string {
    var minutes := Frac(Abs(c)) * 60.0;
    Pad2(Truncate(c)) + ":" + Pad2(Truncate(minutes)) + ":" + fmt(Frac(minutes) * 60.0, 3)
  }

  /** `gc_to_hms` as written: a "-" is put in front of the second string when
      `gc[1] < 0`, although `truncate` has already kept the sign when
      `gc[1] <= -1`. With fewer than two coordinates `gc[1]` is nil and
      `nil < 0` raises. */
  function GcToHmsAsWritten(gc: seq<real>, fmt: Formatter): (r: Result<seq<string>>)
    ensures r.Ok? <==> |gc| >= 2
    ensures r.Ok? ==> |r.value| == |gc| && forall i | 0 <= i < |gc| && i != 1 :: r.value[i] == HmsPart(gc[i], fmt)
    ensures r.Ok? ==> r.value[1] == (if gc[1] < 0.0 then "-" else "") + HmsPart(gc[1], fmt)
  {
    var output := seq(|gc|, i requires 0 <= i < |gc| => HmsPart(gc[i], fmt));
    if |gc| < 2 then Err("NoMethodError: undefined method `<' for nil:NilClass")
    else if gc[1] < 0.0 then Ok(output[1 := "-" + output[1]])
    else Ok(output)
  }

  /** The sign is doubled exactly when the latitude is -1 or less: [0, -2.5]
      gives a second string that starts "--2:30:". */
  lemma GcToHmsDoubledSign(gc: seq<real>, fmt: Formatter)
    requires |gc| >= 2
    ensures var s := GcToHmsAsWritten(gc, fmt).value[1];
      (|s| >= 2 && s[..2] == "--") <==> gc[1] <= -1.0
  {
    var h := HmsPart(gc[1], fmt);
    var s := GcToHmsAsWritten(gc, fmt).value[1];
    HmsPartHead(gc[1], fmt);
    if gc[1] < 0.0 {
      assert s == "-" + h;
      assert s[..2] == ['-', h[0]];
    } else {
      assert s == h;
    }
  }

  /** The hms text starts with a sign exactly from -1 down, and with a digit
      otherwise. */
  lemma HmsPartHead(c: real, fmt: Formatter)
    ensures |HmsPart(c, fmt)| >= 2
    ensures HmsPart(c, fmt)[0] == '-' <==> c <= -1.0
    ensures c > -1.0 ==> IsDigit(HmsPart(c, fmt)[0])
  {
    var p := Pad2(Truncate(c));
    assert HmsPart(c, fmt)[0] == p[0];
    if c <= -1.0 {
      assert Truncate(c) <= -1;
    } else {
      assert Truncate(c) >= 0;
    }
  }

  /** The example: a second coordinate of -2.5 is written with two signs. */
  lemma GcToHmsAsWrittenExample(fmt: Formatter)
    ensures GcToHmsAsWritten([0.0, -2.5], fmt).value[1][..6] == "--2:30"
  {
    assert Truncate(-2.5) == -2;
    assert Frac(Abs(-2.5)) == 0.5;
    assert Truncate(30.0) == 30;
    assert Pad2(-2) == "-2";
    PadThirty();
  }

  lemma PadThirty()
    ensures Pad2(30) == "30"
  {
    NatToStringRoundTrip(30);
  }

  /** The intended `gc_to_hms`: the second string is the magnitude written
      out, with one "-" in front exactly when `gc[1] < 0`. */
  function GcToHms(gc: seq<real>, fmt: Formatter): (r: Result<seq<string>>)
    ensures r.Ok? <==> |gc| >= 2
    ensures r.Ok? ==> |r.value| == |gc| && forall i | 0 <= i < |gc| && i != 1 :: r.value[i] == HmsPart(gc[i], fmt)
  {
    var output := seq(|gc|, i requires 0 <= i < |gc| => HmsPart(gc[i], fmt));
    if |gc| < 2 then Err("NoMethodError: undefined method `<' for nil:NilClass")
    else if gc[1] < 0.0 then Ok(output[1 := "-" + HmsPart(-gc[1], fmt)])
    else Ok(output)
  }

  /** The corrected second string carries exactly one sign, as the latitude
      calls for, and its digits are those of the magnitude. */
  lemma GcToHmsSign(gc: seq<real>, fmt: Formatter)
    requires |gc| >= 2
    ensures var s := GcToHms(gc, fmt).value[1];
      |s| >= 2 && (s[0] == '-' <==> gc[1] < 0.0) && s[|s| - |HmsPart(Abs(gc[1]), fmt)|..] == HmsPart(Abs(gc[1]), fmt)
      && IsDigit(s[if gc[1] < 0.0 then 1 else 0])
  {
    var s := GcToHms(gc, fmt).value[1];
    var p := Pad2(Truncate(Abs(gc[1])));
    assert HmsPart(Abs(gc[1]), fmt)[..|p|] == p;
    assert IsDigit(p[0]);
    if gc[1] < 0.0 {
      assert s == "-" + HmsPart(Abs(gc[1]), fmt);
      assert s[1] == p[0];
    } else {
      assert s == HmsPart(Abs(gc[1]), fmt);
      assert s[0] == p[0];
    }
  }

  /** Above -1 the two agree: the fault is only in the doubled sign. */
  lemma GcToHmsAgrees(gc: seq<real>, fmt: Formatter)
    requires |gc| >= 2 && gc[1] > -1.0
    ensures GcToHms(gc, fmt) == GcToHmsAsWritten(gc, fmt)
  {
    if gc[1] < 0.0 {
      assert Truncate(gc[1]) == 0 == Truncate(-gc[1]);
      assert Abs(-gc[1]) == Abs(gc[1]);
      assert HmsPart(-gc[1], fmt) == HmsPart(gc[1], fmt);
    }
  }

  // ---------------------------------------------------------------------
  // overwrite?

  /** What `overwrite?` did: its answer, whether it removed the path
      (`FileUtils.rm_rf`), and whether it asked the user. */
  datatype Decision = Decision(proceed: bool, removed: bool, prompted: bool)

  /** `overwrite?(file, force, ignore)`, with the file's existence and the
      line read from standard input (`None` at end of input, where `chomp`
      on nil raises) as parameters. */
  function Overwrite(force: bool, present: bool, ignore: bool, response: Option<string>): (r: Result<Decision>)
    ensures r.Err? <==> !force && present && !ignore && response.None?
    ensures r.Ok? ==> (r.value.prompted <==> !force && present && !ignore)
    ensures r.Ok? ==> (r.value.proceed <==> r.value.removed || !present)
    ensures r.Ok? && r.value.removed ==> force || r.value.prompted
    ensures force ==> r == Ok(Decision(true, true, false))
    ensures !force && !present ==> r == Ok(Decision(true, false, false))
    ensures !force && present && ignore ==> r == Ok(Decision(false, false, false))
    ensures !force && present && !ignore && response.Some? ==>
      r.Ok? && (r.value.proceed <==> Chomp(response.value) == "" || Chomp(response.value) == "y" || Chomp(response.value) == "Y")
  {
    if force then Ok(Decision(true, true, false))
    else if !present then Ok(Decision(true, false, false))
    else if ignore then Ok(Decision(false, false, false))
    else
      match response
      case None => Err("NoMethodError: undefined method `chomp' for nil:NilClass")
      case Some(line) =>
        var answer := Chomp(line);
        DowncaseY(answer);
        var yes := answer == "" || Downcase(answer) == "y";
        Ok(Decision(yes, yes, true))
  }

  /** The prompt's default is yes: an empty line overwrites, "n" keeps. */
  lemma OverwriteDefault()
    ensures Overwrite(false, true, false, Some("\n")) == Ok(Decision(true, true, true))
    ensures Overwrite(false, true, false, Some("Y\r\n")) == Ok(Decision(true, true, true))
    ensures Overwrite(false, true, false, Some("n\n")) == Ok(Decision(false, false, true))
  {
    assert EndsWith("\n", "\n") && "\n"[..0] == "";
    assert EndsWith("Y\r\n", "\r\n") && "Y\r\n"[..1] == "Y";
    assert !EndsWith("n\n", "\r\n") && EndsWith("n\n", "\n") && "n\n"[..1] == "n";
  }
}
