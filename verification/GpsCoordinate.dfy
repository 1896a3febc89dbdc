/**
 GPS coordinates between the capture app, which prints signed degrees as XMP text, and the
 verifier, which parses them. Degrees are real numbers here, so that what is lost is exactly what
 the printed digits lose. The main result bounds that loss for every point on Earth.
 */
module GpsCoordinate {
  import opened Numerals
  import opened Options
  import Texts

  // ---------------------------------------------------------------------------
  // Printing
  // ---------------------------------------------------------------------------

  function Abs(x: real): real {
    if x < 0.0 then -x else x
  }

  /** To the nearest integer, ties to the even one. */
  function Round(x: real): (n: int)
    requires x >= 0.0
    ensures n >= 0 && -0.5 <= n as real - x <= 0.5
  {
    var n := x.Floor;
    var rest := x - n as real;
    if rest < 0.5 || (rest == 0.5 && n % 2 == 0) then n else n + 1
  }

  function FourDigits(n: nat): (s: string)
    requires n < 10_000
    ensures |s| == 4 && AllDigits(s, 10)
  {
    [DigitChar(n / 1000), DigitChar(n / 100 % 10), DigitChar(n / 10 % 10), DigitChar(n % 10)]
  }

  /** `%.4f` of a number of ten-thousandths. */
  function Fixed4(n: nat): string {
    ToBase(n / 10_000, 10) + "." + FourDigits(n % 10_000)
  }

  /** What is printed is within half a unit of the last digit of what is meant, clamped to 999, and
      exceeds it only as a whole number of degrees. */
  predicate PrintsAs(value: real, degrees: nat, minutes: nat) {
    var absolute := if Abs(value) < 999.0 then Abs(value) else 999.0;
    && minutes < 600_000
    && Abs(degrees as real + minutes as real / 600_000.0 - absolute) <= 1.0 / 1_200_000.0
    && degrees as real <= absolute + 1.0 / 1_200_000.0
    && (degrees as real > absolute ==> minutes == 0)
  }

  /** Whole degrees, and ten-thousandths of minutes as they are printed. */
  method DegreesAndMinutes(value: real) returns (degrees: nat, minutes: nat)
    ensures PrintsAs(value, degrees, minutes)
  {
    var raw := Abs(value);
    var absolute := if raw < 999.0 then raw else 999.0;
    degrees := absolute.Floor;
    var m := (absolute - degrees as real) * 60.0;
    if m >= 59.99995 {
      degrees := degrees + 1;
      m := 0.0;
    }
    minutes := Round(m * 10_000.0);
  }

  function Printed(degrees: nat, minutes: nat, hemisphere: char): string {
    ToBase(degrees, 10) + "," + Fixed4(minutes) + [hemisphere]
  }

  /** Signed decimal degrees as `DD,MM.mmmmH`. */
  method ToXmpGpsCoordinate(value: real, hemisphere: char) returns (text: string, ghost degrees: nat, ghost minutes: nat)
    ensures PrintsAs(value, degrees, minutes) && text == Printed(degrees, minutes, hemisphere)
  {
    var d, m := DegreesAndMinutes(value);
    degrees, minutes := d, m;
    text := ToBase(d, 10) + "," + Fixed4(m) + [hemisphere];
  }

  // ---------------------------------------------------------------------------
  // Parsing
  // ---------------------------------------------------------------------------

  datatype Fixed = Fixed(whole: string, fraction: string)

  datatype Xmp = Xmp(degrees: string, minutes: Fixed, seconds: Option<Fixed>, hemisphere: char)

  /** A manifest value: a number, a text together with what `Number` makes of it (`None` for NaN and
      the infinities), or neither. */
  datatype Value = Numeric(n: real) | Text(s: string, asNumber: Option<real>) | Neither

  function TakeDigits(s: string): (d: string)
    ensures |d| <= |s| && d == s[..|d|] && AllDigits(d, 10)
  {
    if s == [] || !IsDigit(s[0], 10) then [] else [s[0]] + TakeDigits(s[1..])
  }

  /** `\d{1,2}(?:\.\d+)?` and what is left. */
  function ParseFixed(s: string): Option<(Fixed, string)> {
    var d := TakeDigits(s);
    var rest := s[|d|..];
    if |d| == 0 || |d| > 2 then None
    else if rest != [] && rest[0] == '.' && TakeDigits(rest[1..]) != [] then
      var f := TakeDigits(rest[1..]);
      Some((Fixed(d, f), rest[1 + |f|..]))
    else Some((Fixed(d, ""), rest))
  }

  predicate IsHemisphere(c: char) {
    c == 'N' || c == 'S' || c == 'E' || c == 'W'
  }

  function Hemisphere(s: string): Option<char> {
    if |s| == 1 && IsHemisphere(s[0]) then Some(s[0]) else None
  }

  /** `/^(\d{1,3}),(\d{1,2}(?:\.\d+)?)(?:,(\d{1,2}(?:\.\d+)?))?([NSEW])$/` */
  function ParseXmp(s: string): Option<Xmp> {
    var d := TakeDigits(s);
    var rest := s[|d|..];
    if |d| == 0 || |d| > 3 || rest == [] || rest[0] != ',' then None
    else
      match ParseFixed(rest[1..])
      case None => None
      case Some((minutes, after)) =>
        var tail := ParseTail(after);
        if tail.Some? then Some(Xmp(d, minutes, tail.value.0, tail.value.1)) else None
  }

  /** What comes after the minutes: seconds or none, and the letter. */
  function ParseTail(s: string): Option<(Option<Fixed>, char)> {
    if s != [] && s[0] == ',' then
      match ParseFixed(s[1..])
      case None => None
      case Some((seconds, after)) =>
        if Hemisphere(after).Some? then Some((Some(seconds), Hemisphere(after).value)) else None
    else if Hemisphere(s).Some? then Some((None, Hemisphere(s).value)) else None
  }

  function Pow10(n: nat): (p: nat)
    ensures p > 0
  {
    if n == 0 then 1 else 10 * Pow10(n - 1)
  }

  /** `Number` of a decimal. */
  function FixedValue(f: Fixed): real
    requires AllDigits(f.whole, 10) && AllDigits(f.fraction, 10)
  {
    ValueOf(f.whole, 10) as real + ValueOf(f.fraction, 10) as real / Pow10(|f.fraction|) as real
  }

  predicate DigitsOnly(x: Xmp) {
    && AllDigits(x.degrees, 10)
    && AllDigits(x.minutes.whole, 10) && AllDigits(x.minutes.fraction, 10)
    && (x.seconds.Some? ==> AllDigits(x.seconds.value.whole, 10) && AllDigits(x.seconds.value.fraction, 10))
  }

  lemma ParsedDigits(s: string)
    ensures ParseXmp(s).Some? ==> DigitsOnly(ParseXmp(s).value)
  {
  }

  function Trim(s: string): string {
    if s != [] && IsBlank(s[0]) then Trim(s[1..])
    else if s != [] && IsBlank(s[|s| - 1]) then Trim(s[..|s| - 1])
    else s
  }

  predicate IsBlank(c: char) {
    Texts.IsWhite(c as int)
  }

  /** The degrees an XMP text stands for, if its letter is of the axis and its parts are in range. */
  function XmpDegrees(x: Xmp, hemispheres: string): Option<real>
    requires DigitsOnly(x)
  {
    var min := FixedValue(x.minutes);
    var sec := if x.seconds.None? then 0.0 else FixedValue(x.seconds.value);
    if x.hemisphere !in hemispheres || min >= 60.0 || sec >= 60.0 then None
    else
      var n := ValueOf(x.degrees, 10) as real + min / 60.0 + sec / 3600.0;
      Some(if x.hemisphere == 'S' || x.hemisphere == 'W' then -n else n)
  }

  function ToCoord(v: Value, max: real, hemispheres: string): Option<real> {
    var n := match v
      case Numeric(x) => Some(x)
      case Neither => None
      case Text(s, asNumber) =>
        if Trim(s) == [] then None
        else if ParseXmp(Trim(s)).Some? then
          ParsedDigits(Trim(s));
          XmpDegrees(ParseXmp(Trim(s)).value, hemispheres)
        else asNumber;
    InRange(n, max)
  }

  function InRange(n: Option<real>, max: real): Option<real> {
    if n.None? || Abs(n.value) > max then None else n
  }

  // ---------------------------------------------------------------------------
  // Round trip
  // ---------------------------------------------------------------------------

  lemma {:induction false} TakeDigitsOf(d: string, rest: string)
    requires AllDigits(d, 10) && (rest == [] || !IsDigit(rest[0], 10))
    ensures TakeDigits(d + rest) == d
  {
    if d == [] {
      assert d + rest == rest;
    } else {
      TakeDigitsOf(d[1..], rest);
      assert (d + rest)[1..] == d[1..] + rest;
    }
  }

  lemma ShortNumeral(n: nat, k: nat)
    requires 1 <= k <= 3
    requires n < Pow10(k)
    ensures 1 <= |ToBase(n, 10)| <= k
  {
    assert Pow10(1) == 10 && Pow10(2) == 100 && Pow10(3) == 1000;
    if n >= 10 {
      assert ToBase(n, 10) == ToBase(n / 10, 10) + [DigitChar(n % 10)];
      if n >= 100 {
        assert ToBase(n / 10, 10) == ToBase(n / 100, 10) + [DigitChar(n / 10 % 10)];
      }
    }
  }

  lemma FourDigitsValue(n: nat)
    requires n < 10_000
    ensures ValueOf(FourDigits(n), 10) == n
  {
    var s := FourDigits(n);
    ValueOfSnoc([], s[0], 10);
    ValueOfSnoc([s[0]], s[1], 10);
    ValueOfSnoc([s[0], s[1]], s[2], 10);
    ValueOfSnoc([s[0], s[1], s[2]], s[3], 10);
    assert [] + [s[0]] == [s[0]] && [s[0]] + [s[1]] == [s[0], s[1]]
           && [s[0], s[1]] + [s[2]] == [s[0], s[1], s[2]] && [s[0], s[1], s[2]] + [s[3]] == s;
    assert n / 100 == n / 1000 * 10 + n / 100 % 10;
    assert n / 10 == n / 100 * 10 + n / 10 % 10;
  }

  lemma DotTail(d: string, f: string, rest: string)
    ensures d + "." + f + rest == d + ("." + (f + rest))
  {
  }

  lemma ParseFixedOf(d: string, f: string, rest: string)
    requires AllDigits(d, 10) && 1 <= |d| <= 2 && AllDigits(f, 10) && f != []
    requires rest == [] || !IsDigit(rest[0], 10)
    ensures ParseFixed(d + "." + f + rest) == Some((Fixed(d, f), rest))
  {
    var tail := "." + (f + rest);
    DotTail(d, f, rest);
    TakeDigitsOf(d, tail);
    TakeDigitsOf(f, rest);
    assert (d + tail)[|d|..] == tail;
    assert tail[1..] == f + rest && tail[0] == '.';
    assert (f + rest)[|f|..] == rest;
  }

  lemma Fixed4Parsed(n: nat, rest: string)
    requires n < 600_000 && (rest == [] || !IsDigit(rest[0], 10))
    ensures ParseFixed(Fixed4(n) + rest) == Some((Fixed(ToBase(n / 10_000, 10), FourDigits(n % 10_000)), rest))
  {
    ToBaseCanonical(n / 10_000, 10);
    TwoDigits(n / 10_000);
    ParseFixedOf(ToBase(n / 10_000, 10), FourDigits(n % 10_000), rest);
  }

  lemma TwoDigits(n: nat)
    requires n < 100
    ensures 1 <= |ToBase(n, 10)| <= 2
  {
    assert Pow10(1) == 10;
    assert Pow10(2) == 100;
    ShortNumeral(n, 2);
  }

  lemma Fixed4Value(n: nat)
    ensures AllDigits(ToBase(n / 10_000, 10), 10)
    ensures FixedValue(Fixed(ToBase(n / 10_000, 10), FourDigits(n % 10_000))) == n as real / 10_000.0
  {
    ToBaseCanonical(n / 10_000, 10);
    FourDigitsValue(n % 10_000);
    assert Pow10(4) == 10 * Pow10(3) && Pow10(3) == 10 * Pow10(2) && Pow10(2) == 10 * Pow10(1) && Pow10(1) == 10;
    assert n == n / 10_000 * 10_000 + n % 10_000;
  }

  lemma ParseXmpOf(d: string, rest: string, m: Fixed, hemisphere: char)
    requires AllDigits(d, 10) && 1 <= |d| <= 3 && IsHemisphere(hemisphere)
    requires ParseFixed(rest) == Some((m, [hemisphere]))
    ensures ParseXmp(d + ("," + rest)) == Some(Xmp(d, m, None, hemisphere))
  {
    var s := d + ("," + rest);
    TakeDigitsOf(d, "," + rest);
    assert s[|d|..] == "," + rest;
    assert ("," + rest)[1..] == rest;
    assert Hemisphere([hemisphere]) == Some(hemisphere);
  }

  lemma TrimNothing(s: string)
    requires s != [] && !IsBlank(s[0]) && !IsBlank(s[|s| - 1])
    ensures Trim(s) == s
  {
  }

  lemma TextShape(d: string, fixed: string, hemisphere: char)
    requires AllDigits(d, 10) && d != [] && IsHemisphere(hemisphere)
    ensures var text := d + "," + fixed + [hemisphere];
            text == d + ("," + (fixed + [hemisphere])) && Trim(text) == text && text != []
  {
    var text := d + "," + fixed + [hemisphere];
    assert text[0] == d[0] && text[|text| - 1] == hemisphere;
    TrimNothing(text);
  }

  /** The printed text parses to its own digits. */
  lemma PrintedParses(degrees: nat, minutes: nat, hemisphere: char)
    requires degrees < 1000 && minutes < 600_000 && IsHemisphere(hemisphere)
    ensures var text := Printed(degrees, minutes, hemisphere);
            && Trim(text) == text && text != []
            && ParseXmp(text) == Some(Xmp(ToBase(degrees, 10), Fixed(ToBase(minutes / 10_000, 10), FourDigits(minutes % 10_000)),
                                          None, hemisphere))
  {
    ToBaseCanonical(degrees, 10);
    ThreeDigits(degrees);
    Fixed4Parsed(minutes, [hemisphere]);
    var d := ToBase(degrees, 10);
    var rest := Fixed4(minutes) + [hemisphere];
    ParseXmpOf(d, rest, Fixed(ToBase(minutes / 10_000, 10), FourDigits(minutes % 10_000)), hemisphere);
    TextShape(d, Fixed4(minutes), hemisphere);
  }

  lemma ThreeDigits(n: nat)
    requires n < 1000
    ensures 1 <= |ToBase(n, 10)| <= 3
  {
    assert Pow10(1) == 10;
    assert Pow10(2) == 100;
    assert Pow10(3) == 1000;
    ShortNumeral(n, 3);
  }

  lemma DegreesOf(degrees: nat, minutes: nat, hemisphere: char, hemispheres: string)
    requires minutes < 600_000 && hemisphere in hemispheres
    ensures AllDigits(ToBase(degrees, 10), 10) && AllDigits(ToBase(minutes / 10_000, 10), 10)
    ensures var n := degrees as real + minutes as real / 600_000.0;
            XmpDegrees(Xmp(ToBase(degrees, 10), Fixed(ToBase(minutes / 10_000, 10), FourDigits(minutes % 10_000)),
                           None, hemisphere), hemispheres)
            == Some(if hemisphere == 'S' || hemisphere == 'W' then -n else n)
  {
    Fixed4Value(minutes);
    ToBaseCanonical(degrees, 10);
    var m := minutes as real / 10_000.0;
    assert m < 60.0;
    assert m / 60.0 == minutes as real / 600_000.0;
    assert 0.0 / 3600.0 == 0.0;
  }

  lemma FormRead(s: string, x: Xmp, asNumber: Option<real>, max: real, hemispheres: string)
    ensures ParseXmp(Trim(s)) == Some(x) ==>
              DigitsOnly(x) && ToCoord(Text(s, asNumber), max, hemispheres) == InRange(XmpDegrees(x, hemispheres), max)
  {
    if ParseXmp(Trim(s)) == Some(x) {
      ParsedDigits(Trim(s));
      assert Trim(s) != [];
    }
  }

  /** The text parses to what its digits say, with the sign of its letter. */
  lemma PrintedDegrees(degrees: nat, minutes: nat, hemisphere: char, hemispheres: string, max: real, asNumber: Option<real>)
    requires degrees < 1000 && minutes < 600_000 && IsHemisphere(hemisphere) && hemisphere in hemispheres
    requires degrees as real + minutes as real / 600_000.0 <= max
    ensures var n := degrees as real + minutes as real / 600_000.0;
            ToCoord(Text(Printed(degrees, minutes, hemisphere), asNumber), max, hemispheres)
            == Some(if hemisphere == 'S' || hemisphere == 'W' then -n else n)
  {
    PrintedParses(degrees, minutes, hemisphere);
    var x := Xmp(ToBase(degrees, 10), Fixed(ToBase(minutes / 10_000, 10), FourDigits(minutes % 10_000)), None, hemisphere);
    FormRead(Printed(degrees, minutes, hemisphere), x, asNumber, max, hemispheres);
    DegreesOf(degrees, minutes, hemisphere, hemispheres);
    assert minutes as real / 600_000.0 >= 0.0;
  }

  /** The letter `emitJsGpsToExif` passes: north and east for zero and up. */
  function LetterFor(value: real, north: char, south: char): char {
    if value >= 0.0 then north else south
  }

  /** Rounding never carries a printed coordinate past a whole-degree bound. */
  lemma PrintedInRange(degrees: nat, minutes: nat, value: real, bound: nat)
    requires bound <= 180 && Abs(value) <= bound as real && PrintsAs(value, degrees, minutes)
    ensures degrees < 1000
    ensures degrees as real + minutes as real / 600_000.0 <= bound as real
  {
    assert degrees <= bound;
    if degrees == bound {
      assert minutes as real / 600_000.0 <= 1.0 / 1_200_000.0;
      assert minutes == 0;
    } else {
      assert minutes as real / 600_000.0 <= 1.0;
    }
  }

  /**
   Main result: every latitude and every longitude, printed by the app and parsed by the verifier on
   the same axis, comes back within 1/1,200,000 of a degree, in range, and on the same side of zero.
   */
  method PrintAndParse(value: real, latitude: bool) returns (r: Option<real>)
    requires Abs(value) <= if latitude then 90.0 else 180.0
    ensures r.Some? && Abs(r.value - value) <= 1.0 / 1_200_000.0
    ensures Abs(r.value) <= if latitude then 90.0 else 180.0
    ensures if value >= 0.0 then r.value >= 0.0 else r.value <= 0.0
  {
    var letter := if latitude then LetterFor(value, 'N', 'S') else LetterFor(value, 'E', 'W');
    var text;
    ghost var degrees, minutes;
    text, degrees, minutes := ToXmpGpsCoordinate(value, letter);
    PrintedInRange(degrees, minutes, value, if latitude then 90 else 180);
    var max, hemispheres := if latitude then 90.0 else 180.0, if latitude then "NS" else "EW";
    PrintedDegrees(degrees, minutes, letter, hemispheres, max, None);
    r := ToCoord(Text(text, None), max, hemispheres);
  }

  /** What a text of the XMP form stands for, leaving range and axis aside. */
  function Unsigned(x: Xmp): real
    requires DigitsOnly(x)
  {
    ValueOf(x.degrees, 10) as real + (FixedValue(x.minutes) / 60.0) + (Seconds(x) / 3600.0)
  }

  function Seconds(x: Xmp): real
    requires DigitsOnly(x)
  {
    if x.seconds.None? then 0.0 else FixedValue(x.seconds.value)
  }

  /** Main result on parsing: a text of the XMP form is read as its degrees, minutes and seconds with the
      sign of its letter, exactly when the letter is of the axis, minutes and seconds are below 60, and the
      coordinate is in range. What the text would be as a plain number never matters. */
  lemma XmpAcceptedIff(s: string, x: Xmp, asNumber: Option<real>, max: real, hemispheres: string)
    ensures ParseXmp(Trim(s)) == Some(x) ==>
              && DigitsOnly(x)
              && ToCoord(Text(s, asNumber), max, hemispheres)
                 == if x.hemisphere in hemispheres && FixedValue(x.minutes) < 60.0 && Seconds(x) < 60.0 && Unsigned(x) <= max
                    then Some(if x.hemisphere == 'S' || x.hemisphere == 'W' then -Unsigned(x) else Unsigned(x))
                    else None
  {
    if ParseXmp(Trim(s)) == Some(x) {
      FormRead(s, x, asNumber, max, hemispheres);
      XmpInRange(x, max, hemispheres);
    }
  }

  lemma XmpInRange(x: Xmp, max: real, hemispheres: string)
    requires DigitsOnly(x)
    ensures InRange(XmpDegrees(x, hemispheres), max)
            == if x.hemisphere in hemispheres && FixedValue(x.minutes) < 60.0 && Seconds(x) < 60.0 && Unsigned(x) <= max
               then Some(if x.hemisphere == 'S' || x.hemisphere == 'W' then -Unsigned(x) else Unsigned(x))
               else None
  {
    FixedPositive(x.minutes);
    if x.seconds.Some? {
      FixedPositive(x.seconds.value);
    }
    Sixtieths(FixedValue(x.minutes), Seconds(x));
  }

  lemma Sixtieths(minutes: real, seconds: real)
    requires minutes >= 0.0 && seconds >= 0.0
    ensures minutes / 60.0 >= 0.0 && seconds / 3600.0 >= 0.0
  {
  }

  lemma FixedPositive(f: Fixed)
    requires AllDigits(f.whole, 10) && AllDigits(f.fraction, 10)
    ensures FixedValue(f) >= 0.0
  {
  }

  /** A text of the XMP form with the other axis's letter is never accepted. */
  lemma WrongAxisRejected(s: string, asNumber: Option<real>, max: real, hemispheres: string)
    ensures ParseXmp(Trim(s)).Some? && ParseXmp(Trim(s)).value.hemisphere !in hemispheres ==>
              ToCoord(Text(s, asNumber), max, hemispheres) == None
  {
    if ParseXmp(Trim(s)).Some? {
      XmpAcceptedIff(s, ParseXmp(Trim(s)).value, asNumber, max, hemispheres);
    }
  }
}
