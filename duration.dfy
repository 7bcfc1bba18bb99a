/**
 * The human-readable rendering of a build's elapsed time in milliseconds:
 * whole minutes, then the seconds of the current minute, then the
 * milliseconds of the current second, each with its unit and only when
 * non-zero, separated by single spaces ("1m 20s 30ms").
 */
module Duration {
  import opened Wrappers
  import opened Strings

  /** Rust's `u128`. */
  newtype U128 = x: int | 0 <= x < 0x1_0000_0000_0000_0000_0000_0000_0000_0000


  datatype SelfDuration = SelfDuration(duration: U128)

  /** `SelfDuration::new`: the duration must not be zero. */
  function New(duration: U128): (r: SelfDuration)
    requires duration != 0
    ensures r.duration == duration
    ensures Format(r.duration as nat) != ""
  {
    FormatNonEmpty(duration as nat);
    SelfDuration(duration)
  }

  function Minutes(d: nat): nat { d / 60000 }
  function Seconds(d: nat): nat { d / 1000 % 60 }
  function Millis(d: nat): nat { d % 1000 }

  /** `value` followed by `unit` when the value is not zero; nothing otherwise. */
  function Part(value: nat, unit: string): seq<string> {
    if value > 0 then [NatToString(value) + unit] else []
  }

  /** The non-zero components, largest unit first. */
  function Parts(d: nat): seq<string> {
    Part(Minutes(d), "m") + Part(Seconds(d), "s") + Part(Millis(d), "ms")
  }

  /** What `Display::fmt` writes. */
  function Format(d: nat): string {
    Join(Parts(d), " ")
  }

  /** `Display::fmt`: push each non-zero component in turn, then join with spaces. */
  method Fmt(self: SelfDuration) returns (text: string)
    ensures text == Format(self.duration as nat)
  {
    var d := self.duration as nat;
    var res: seq<string> := [];
    var t := d / 60000;
    if t > 0 {
      res := res + [NatToString(t) + "m"];
    }
    assert res == Part(Minutes(d), "m");
    t := d / 1000 % 60;
    if t > 0 {
      res := res + [NatToString(t) + "s"];
    }
    assert res == Part(Minutes(d), "m") + Part(Seconds(d), "s");
    t := d % 1000;
    if t > 0 {
      res := res + [NatToString(t) + "ms"];
    }
    assert res == Parts(d);
    text := Join(res, " ");
  }

  // ---------------------------------------------------------------------
  // Reading a rendering back
  // ---------------------------------------------------------------------

  /** One component: digits and a unit, as milliseconds. */
  function ParsePart(p: string): Option<nat> {
    if |p| >= 2 && p[|p| - 2..] == "ms" then
      (match ParseNat(p[..|p| - 2]) case None => None case Some(v) => Some(v))
    else if |p| >= 1 && p[|p| - 1] == 's' then
      (match ParseNat(p[..|p| - 1]) case None => None case Some(v) => Some(v * 1000))
    else if |p| >= 1 && p[|p| - 1] == 'm' then
      (match ParseNat(p[..|p| - 1]) case None => None case Some(v) => Some(v * 60000))
    else None
  }

  /** The sum of what `part` reads from each component, or None when it reads
      nothing from one of them. */
  function SumParts(parts: seq<string>, part: string -> Option<nat>): Option<nat>
    decreases |parts|
  {
    if parts == [] then Some(0)
    else match (part(parts[0]), SumParts(parts[1..], part))
      case (Some(v), Some(rest)) => Some(v + rest)
      case _ => None
  }

  /** The components read back as milliseconds. */
  function ParseParts(parts: seq<string>): Option<nat> {
    SumParts(parts, ParsePart)
  }

  /** A space-separated rendering read back as milliseconds. */
  function Parse(text: string): Option<nat> {
    ParseParts(Split(text, ' '))
  }

  /** The three units and their length in milliseconds. */
  predicate UnitScale(unit: string, scale: nat) {
    (unit == "m" && scale == 60000) || (unit == "s" && scale == 1000) || (unit == "ms" && scale == 1)
  }

  /** A rendered component reads back as its milliseconds. */
  lemma ParseUnit(v: nat, unit: string, scale: nat)
    requires UnitScale(unit, scale)
    ensures ParsePart(NatToString(v) + unit) == Some(v * scale)
  {
    ParseNatToString(v);
    ParseDigitsUnit(NatToString(v), v, unit, scale);
  }

  /** Digits read as `v`, followed by a unit, read as `v` of that unit. */
  lemma ParseDigitsUnit(n: string, v: nat, unit: string, scale: nat)
    requires n != [] && IsDigit(n[|n| - 1]) && ParseNat(n) == Some(v) && UnitScale(unit, scale)
    ensures ParsePart(n + unit) == Some(v * scale)
  {
    var p := n + unit;
    if unit == "ms" {
      assert p[|p| - 2..] == "ms" && p[..|p| - 2] == n;
    } else {
      assert p[|p| - 2] == n[|n| - 1];
      assert p[|p| - 2..] != "ms";
      assert p[..|p| - 1] == n;
    }
  }

  /** Reading a concatenation adds what is read from either half. */
  lemma {:induction false} SumPartsAppend(a: seq<string>, b: seq<string>, x: nat, y: nat, part: string -> Option<nat>)
    requires SumParts(a, part) == Some(x) && SumParts(b, part) == Some(y)
    ensures SumParts(a + b, part) == Some(x + y)
    decreases |a|
  {
    if a != [] {
      var s := a + b;
      assert s[0] == a[0] && s[1..] == a[1..] + b;
      SumPartsAppend(a[1..], b, SumParts(a[1..], part).value, y, part);
    } else {
      assert a + b == b;
    }
  }

  /** A single component reads as what `part` reads from it. */
  lemma SumPartsOne(p: string, v: nat, part: string -> Option<nat>)
    requires part(p) == Some(v)
    ensures SumParts([p], part) == Some(v)
  {
    assert [p][1..] == [];
  }

  lemma PartHasNoSpace(value: nat, unit: string)
    requires unit == "m" || unit == "s" || unit == "ms"
    ensures forall k :: 0 <= k < |Part(value, unit)| ==> ' ' !in Part(value, unit)[k]
  {
    if value > 0 {
      var p := NatToString(value) + unit;
      assert Part(value, unit) == [p];
      forall k | 0 <= k < |p|
        ensures p[k] != ' '
      {
        if k < |NatToString(value)| {
          assert IsDigit(NatToString(value)[k]);
        }
      }
    }
  }

  /** Milliseconds are recovered from minutes, seconds of the minute and
      milliseconds of the second; minutes are not wrapped into hours. */
  lemma Decompose(d: nat)
    ensures d == Minutes(d) * 60000 + Seconds(d) * 1000 + Millis(d)
    ensures Seconds(d) < 60 && Millis(d) < 1000
  {
    var q := d / 1000;
    assert d == q * 1000 + d % 1000;
    assert q == (q / 60) * 60 + q % 60;
    assert q / 60 == d / 60000 by {
      var m := q / 60;
      assert m * 60000 <= q * 1000 <= d;
      assert d < (q + 1) * 1000 <= (m + 1) * 60000;
    }
  }

  /** The components read back give the duration. */
  lemma ParsePartsOf(d: nat)
    ensures ParseParts(Parts(d)) == Some(d)
  {
    ParseComponents(Minutes(d), Seconds(d), Millis(d));
    Decompose(d);
  }

  /** Minutes, seconds and milliseconds read back as their total. */
  lemma ParseComponents(m: nat, sec: nat, ms: nat)
    ensures ParseParts(Part(m, "m") + Part(sec, "s") + Part(ms, "ms")) == Some(m * 60000 + sec * 1000 + ms)
  {
    if m > 0 { ParseUnit(m, "m", 60000); }
    if sec > 0 { ParseUnit(sec, "s", 1000); }
    if ms > 0 { ParseUnit(ms, "ms", 1); }
    SumComponents(m, sec, ms, ParsePart);
  }

  /** Any reader of single components that reads each rendered component
      as its milliseconds reads the three together as their total. */
  lemma SumComponents(m: nat, sec: nat, ms: nat, part: string -> Option<nat>)
    requires m > 0 ==> part(NatToString(m) + "m") == Some(m * 60000)
    requires sec > 0 ==> part(NatToString(sec) + "s") == Some(sec * 1000)
    requires ms > 0 ==> part(NatToString(ms) + "ms") == Some(ms)
    ensures SumParts(Part(m, "m") + Part(sec, "s") + Part(ms, "ms"), part) == Some(m * 60000 + sec * 1000 + ms)
  {
    SumPart(m, "m", 60000, part);
    SumPart(sec, "s", 1000, part);
    SumPart(ms, "ms", 1, part);
    SumPartsThree(Part(m, "m"), Part(sec, "s"), Part(ms, "ms"), m * 60000, sec * 1000, ms * 1, part);
  }

  /** A component that is rendered only when non-zero reads as its value of the unit. */
  lemma SumPart(v: nat, unit: string, scale: nat, part: string -> Option<nat>)
    requires v > 0 ==> part(NatToString(v) + unit) == Some(v * scale)
    ensures SumParts(Part(v, unit), part) == Some(v * scale)
  {
    if v > 0 {
      SumPartsOne(NatToString(v) + unit, v * scale, part);
    }
  }

  lemma SumPartsThree(a: seq<string>, b: seq<string>, c: seq<string>, x: nat, y: nat, z: nat, part: string -> Option<nat>)
    requires SumParts(a, part) == Some(x) && SumParts(b, part) == Some(y) && SumParts(c, part) == Some(z)
    ensures SumParts(a + b + c, part) == Some(x + y + z)
  {
    SumPartsAppend(a, b, x, y, part);
    SumPartsAppend(a + b, c, x + y, z, part);
  }

  /** No component holds a space. */
  lemma PartsHaveNoSpace(d: nat)
    ensures forall k :: 0 <= k < |Parts(d)| ==> ' ' !in Parts(d)[k]
  {
    var a, b, c := Part(Minutes(d), "m"), Part(Seconds(d), "s"), Part(Millis(d), "ms");
    PartHasNoSpace(Minutes(d), "m");
    PartHasNoSpace(Seconds(d), "s");
    PartHasNoSpace(Millis(d), "ms");
    var parts := Parts(d);
    forall k | 0 <= k < |parts|
      ensures ' ' !in parts[k]
    {
      if k < |a| { assert parts[k] == a[k]; }
      else if k < |a| + |b| { assert parts[k] == b[k - |a|]; }
      else { assert parts[k] == c[k - |a| - |b|]; }
    }
  }

  /** Reading a rendering back gives the duration: the rendering loses nothing. */
  lemma ParseFormat(d: nat)
    requires d > 0
    ensures Parse(Format(d)) == Some(d)
  {
    FormatNonEmpty(d);
    PartsHaveNoSpace(d);
    SplitJoin(Parts(d), ' ');
    ParsePartsOf(d);
  }

  /** Distinct durations render differently. */
  lemma FormatInjective(d: nat, e: nat)
    requires d > 0 && e > 0 && Format(d) == Format(e)
    ensures d == e
  {
    ParseFormat(d);
    ParseFormat(e);
  }

  /** A non-zero duration has at least one non-zero component, so the rendering is
      never empty; zero renders as the empty string. */
  lemma FormatNonEmpty(d: nat)
    ensures d > 0 <==> Parts(d) != []
    ensures d > 0 ==> Format(d) != ""
    ensures d == 0 ==> Format(d) == ""
  {
    Decompose(d);
    var parts := Parts(d);
    if parts != [] {
      assert |parts[0]| > 0;
      if |parts| > 1 {
        assert Format(d) == parts[0] + " " + Join(parts[1..], " ");
      }
    }
  }

  /** Whole minutes only. */
  lemma ExampleOneMinute()
    ensures Format(60 * 1000) == "1m"
  {
    assert Minutes(60000) == 1 && Seconds(60000) == 0 && Millis(60000) == 0;
    OnePart(1, "m", "1m");
    assert Parts(60000) == ["1m"] + [] + [];
  }

  lemma ExampleMinuteAndSeconds()
    ensures Format(60 * 1000 + 20 * 1000) == "1m 20s"
  {
    assert Minutes(80000) == 1 && Seconds(80000) == 20 && Millis(80000) == 0;
    OnePart(1, "m", "1m");
    OnePart(20, "s", "20s");
    assert Parts(80000) == ["1m"] + ["20s"] + [];
    JoinTwo("1m", "20s");
  }

  lemma ExampleAllUnits()
    ensures Format(60 * 1000 + 20 * 1000 + 30) == "1m 20s 30ms"
  {
    assert Minutes(80030) == 1 && Seconds(80030) == 20 && Millis(80030) == 30;
    OnePart(1, "m", "1m");
    OnePart(20, "s", "20s");
    OnePart(30, "ms", "30ms");
    assert Parts(80030) == ["1m"] + ["20s"] + ["30ms"];
    JoinThree("1m", "20s", "30ms");
  }

  lemma ExampleSeconds()
    ensures Format(20 * 1000) == "20s"
  {
    assert Minutes(20000) == 0 && Seconds(20000) == 20 && Millis(20000) == 0;
    OnePart(20, "s", "20s");
    assert Parts(20000) == [] + ["20s"] + [];
  }

  lemma ExampleSecondsAndMillis()
    ensures Format(20 * 1000 + 30) == "20s 30ms"
  {
    assert Minutes(20030) == 0 && Seconds(20030) == 20 && Millis(20030) == 30;
    OnePart(20, "s", "20s");
    OnePart(30, "ms", "30ms");
    assert Parts(20030) == [] + ["20s"] + ["30ms"];
    JoinTwo("20s", "30ms");
  }

  lemma ExampleMillis()
    ensures Format(30) == "30ms"
  {
    assert Minutes(30) == 0 && Seconds(30) == 0 && Millis(30) == 30;
    OnePart(30, "ms", "30ms");
    assert Parts(30) == [] + [] + ["30ms"];
  }

  /** The component of a small value. */
  lemma OnePart(value: nat, unit: string, text: string)
    requires || (value == 1 && unit == "m" && text == "1m")
             || (value == 20 && unit == "s" && text == "20s")
             || (value == 30 && unit == "ms" && text == "30ms")
    ensures Part(value, unit) == [text]
  {
    assert DigitChar(0) == '0' && DigitChar(1) == '1' && DigitChar(2) == '2' && DigitChar(3) == '3';
    if value == 1 {
      assert NatToString(1) == "1";
      assert NatToString(1) + unit == text;
    } else if value == 20 {
      assert NatToString(20) == NatToString(2) + [DigitChar(0)];
      assert NatToString(20) == "20";
      assert NatToString(20) + unit == text;
    } else {
      assert NatToString(30) == NatToString(3) + [DigitChar(0)];
      assert NatToString(30) == "30";
      assert NatToString(30) + unit == text;
    }
  }

  lemma JoinTwo(x: string, y: string)
    ensures Join([x, y], " ") == x + " " + y
  {
    assert [x, y][1..] == [y];
  }

  lemma JoinThree(x: string, y: string, z: string)
    ensures Join([x, y, z], " ") == x + " " + y + " " + z
  {
    assert [x, y, z][1..] == [y, z];
    JoinTwo(y, z);
  }
}
