/**
 Which texts the coordinate parser reads, and as what: the texts of one grammar, each as its own parts, and every
 value a coordinate may arrive as.
 */
module XmpGrammar {
  import opened GpsCoordinate
  import opened Numerals
  import opened Options

  /** A number with one or two digits before the point, and any number of them after it if there is one. */
  predicate FixedForm(f: Fixed) {
    1 <= |f.whole| <= 2 && AllDigits(f.whole, 10) && AllDigits(f.fraction, 10)
  }

  function FixedText(f: Fixed): string {
    if f.fraction == "" then f.whole else f.whole + "." + f.fraction
  }

  /** Up to three digits of degrees, minutes, seconds or none, and a letter of a direction. */
  predicate XmpForm(x: Xmp) {
    && 1 <= |x.degrees| <= 3 && AllDigits(x.degrees, 10)
    && FixedForm(x.minutes) && (x.seconds.Some? ==> FixedForm(x.seconds.value))
    && x.hemisphere in "NSEW"
  }

  function XmpText(x: Xmp): string {
    x.degrees + "," + FixedText(x.minutes) + (if x.seconds.Some? then "," + FixedText(x.seconds.value) else "")
    + [x.hemisphere]
  }

  /** After a number comes neither a digit nor a point. */
  predicate EndsNumber(rest: string) {
    rest != "" && !IsDigit(rest[0], 10) && rest[0] != '.'
  }

  lemma FixedReads(f: Fixed, rest: string)
    requires FixedForm(f) && EndsNumber(rest)
    ensures ParseFixed(FixedText(f) + rest) == Some((f, rest))
  {
    if f.fraction == "" {
      TakeDigitsOf(f.whole, rest);
      assert (f.whole + rest)[|f.whole|..] == rest;
    } else {
      ParseFixedOf(f.whole, f.fraction, rest);
    }
  }

  lemma FixedRead(s: string, f: Fixed, rest: string)
    requires ParseFixed(s) == Some((f, rest))
    ensures FixedForm(f) && s == FixedText(f) + rest
  {
    var d := TakeDigits(s);
    if f.fraction == "" {
      assert s == d + s[|d|..];
    } else {
      PointSplit(s, d, f.fraction);
    }
  }

  lemma PointSplit(s: string, d: string, f: string)
    requires d <= s && s[|d|..] != "" && s[|d|] == '.' && f <= s[|d|..][1..]
    ensures s == d + "." + f + s[|d|..][1 + |f|..]
  {
    var tail := s[|d|..];
    assert s == d + tail && tail == "." + tail[1..] && tail[1..] == f + tail[1..][|f|..];
    assert tail[1..][|f|..] == tail[1 + |f|..];
  }

  lemma LetterEnds(c: char)
    ensures Hemisphere([c]).Some? <==> c in "NSEW"
    ensures c in "NSEW" ==> EndsNumber([c])
  {
  }

  lemma LetterRead(s: string)
    requires Hemisphere(s).Some?
    ensures s == [Hemisphere(s).value] && Hemisphere(s).value in "NSEW"
  {
  }

  /** What follows the minutes. */
  function TailText(seconds: Option<Fixed>, hemisphere: char): string {
    if seconds.Some? then "," + (FixedText(seconds.value) + [hemisphere]) else [hemisphere]
  }

  predicate TailForm(seconds: Option<Fixed>, hemisphere: char) {
    hemisphere in "NSEW" && (seconds.Some? ==> FixedForm(seconds.value))
  }

  lemma TailReads(seconds: Option<Fixed>, hemisphere: char)
    requires TailForm(seconds, hemisphere)
    ensures ParseTail(TailText(seconds, hemisphere)) == Some((seconds, hemisphere))
    ensures EndsNumber(TailText(seconds, hemisphere))
  {
    LetterEnds(hemisphere);
    if seconds.Some? {
      var s := TailText(seconds, hemisphere);
      assert s[1..] == FixedText(seconds.value) + [hemisphere];
      FixedReads(seconds.value, [hemisphere]);
    }
  }

  lemma TailRead(s: string, seconds: Option<Fixed>, hemisphere: char)
    requires ParseTail(s) == Some((seconds, hemisphere))
    ensures TailForm(seconds, hemisphere) && s == TailText(seconds, hemisphere)
  {
    if seconds.Some? {
      var after := ParseFixed(s[1..]).value.1;
      FixedRead(s[1..], seconds.value, after);
      LetterRead(after);
      assert s == "," + s[1..];
    } else {
      LetterRead(s);
    }
  }

  lemma XmpSplit(x: Xmp)
    ensures XmpText(x) == x.degrees + ("," + (FixedText(x.minutes) + TailText(x.seconds, x.hemisphere)))
  {
    if x.seconds.Some? {
      assert XmpText(x) == x.degrees + ("," + (FixedText(x.minutes) + ("," + (FixedText(x.seconds.value) + [x.hemisphere]))));
    }
  }

  /** A text of the grammar is read as its own parts. */
  lemma XmpReads(x: Xmp)
    requires XmpForm(x)
    ensures ParseXmp(XmpText(x)) == Some(x)
  {
    XmpSplit(x);
    TailReads(x.seconds, x.hemisphere);
    PartsRead(x.degrees, FixedText(x.minutes), TailText(x.seconds, x.hemisphere));
    FixedReads(x.minutes, TailText(x.seconds, x.hemisphere));
  }

  lemma PartsRead(d: string, minutes: string, tail: string)
    requires AllDigits(d, 10)
    ensures var s := d + ("," + (minutes + tail));
            TakeDigits(s) == d && s[|d|..] == "," + (minutes + tail) && s[|d|..][1..] == minutes + tail
  {
    TakeDigitsOf(d, "," + (minutes + tail));
  }

  /** What is read is a text of the grammar. */
  lemma XmpRead(s: string, x: Xmp)
    requires ParseXmp(s) == Some(x)
    ensures XmpForm(x) && s == XmpText(x)
  {
    var rest := s[|TakeDigits(s)|..];
    var after := ParseFixed(rest[1..]).value.1;
    FixedRead(rest[1..], x.minutes, after);
    TailRead(after, x.seconds, x.hemisphere);
    Rejoined(s, x.degrees, rest);
    XmpSplit(x);
  }

  lemma Rejoined(s: string, d: string, rest: string)
    requires d <= s && rest == s[|d|..] && rest != "" && rest[0] == ','
    ensures s == d + ("," + rest[1..])
  {
  }

  /** Main result on the grammar: a text is parsed exactly when it is written in it, and as its own parts. */
  lemma ParsesIff(s: string, x: Xmp)
    ensures ParseXmp(s) == Some(x) <==> XmpForm(x) && s == XmpText(x)
  {
    if ParseXmp(s) == Some(x) {
      XmpRead(s, x);
    }
    if XmpForm(x) && s == XmpText(x) {
      XmpReads(x);
    }
  }

  /** `trim`: blanks taken off at both ends, and nothing else. */
  lemma {:induction false} TrimIs(s: string) returns (i: nat, j: nat)
    ensures i <= j <= |s| && IsTrimmed(s, i, j) && Trim(s) == s[i..j]
    decreases |s|
  {
    if s != [] && IsBlank(s[0]) {
      i, j := TrimIs(s[1..]);
      TrimmedAfter(s, i, j);
      i, j := i + 1, j + 1;
    } else if s != [] && IsBlank(s[|s| - 1]) {
      i, j := TrimIs(s[..|s| - 1]);
      TrimmedBefore(s, i, j);
    } else {
      i, j := 0, |s|;
      assert s[0..|s|] == s;
    }
  }

  lemma TrimmedAfter(s: string, i: nat, j: nat)
    requires s != [] && IsBlank(s[0]) && i <= j <= |s| - 1 && IsTrimmed(s[1..], i, j)
    ensures IsTrimmed(s, i + 1, j + 1) && s[1..][i..j] == s[i + 1..j + 1]
  {
    forall k | 0 <= k < i + 1 || j + 1 <= k < |s|
      ensures IsBlank(s[k])
    {
      assert k > 0 ==> s[1..][k - 1] == s[k];
    }
    if i < j {
      assert s[1..][i] == s[i + 1] && s[1..][j - 1] == s[j];
    }
  }

  lemma TrimmedBefore(s: string, i: nat, j: nat)
    requires s != [] && IsBlank(s[|s| - 1]) && i <= j <= |s| - 1 && IsTrimmed(s[..|s| - 1], i, j)
    ensures IsTrimmed(s, i, j) && s[..|s| - 1][i..j] == s[i..j]
  {
    forall k | 0 <= k < i || j <= k < |s|
      ensures IsBlank(s[k])
    {
      assert k < |s| - 1 ==> s[..|s| - 1][k] == s[k];
    }
  }

  /** Everything before `i` and from `j` on is blank, and what is between has no blank end. */
  predicate IsTrimmed(s: string, i: nat, j: nat)
    requires i <= j <= |s|
  {
    && (forall k | 0 <= k < i :: IsBlank(s[k])) && (forall k | j <= k < |s| :: IsBlank(s[k]))
    && (i < j ==> !IsBlank(s[i]) && !IsBlank(s[j - 1]))
  }

  predicate InReach(n: real, max: real) {
    -max <= n <= max
  }

  /** Every value a coordinate may arrive as. A number counts when it is in range; a text of the grammar counts as
      `XmpAcceptedIff` says; any other text that is not blank counts as the number it converts to; and nothing else
      counts. */
  lemma CoordinateIs(v: Value, max: real, hemispheres: string)
    ensures v.Neither? ==> ToCoord(v, max, hemispheres) == None
    ensures v.Numeric? ==> ToCoord(v, max, hemispheres) == if InReach(v.n, max) then Some(v.n) else None
    ensures v.Text? && Trim(v.s) == "" ==> ToCoord(v, max, hemispheres) == None
    ensures v.Text? && Trim(v.s) != "" && (forall x | XmpForm(x) :: Trim(v.s) != XmpText(x)) ==>
              ToCoord(v, max, hemispheres)
              == if v.asNumber.Some? && InReach(v.asNumber.value, max) then v.asNumber else None
  {
    if v.Text? && (forall x | XmpForm(x) :: Trim(v.s) != XmpText(x)) && ParseXmp(Trim(v.s)).Some? {
      XmpRead(Trim(v.s), ParseXmp(Trim(v.s)).value);
    }
  }

  /** A text of the grammar with seconds, without them, in every direction. */
  lemma GrammarAccepted(x: Xmp, asNumber: Option<real>, max: real, hemispheres: string)
    requires XmpForm(x)
    ensures DigitsOnly(x)
    ensures ToCoord(Text(XmpText(x), asNumber), max, hemispheres)
            == if x.hemisphere in hemispheres && FixedValue(x.minutes) < 60.0 && Seconds(x) < 60.0 && Unsigned(x) <= max
               then Some(if x.hemisphere == 'S' || x.hemisphere == 'W' then -Unsigned(x) else Unsigned(x))
               else None
  {
    XmpReads(x);
    XmpUntrimmed(x);
    XmpAcceptedIff(XmpText(x), x, asNumber, max, hemispheres);
  }

  lemma XmpUntrimmed(x: Xmp)
    requires XmpForm(x)
    ensures Trim(XmpText(x)) == XmpText(x)
  {
    var front := x.degrees + "," + FixedText(x.minutes) + (if x.seconds.Some? then "," + FixedText(x.seconds.value) else "");
    var s := XmpText(x);
    assert s == front + [x.hemisphere];
    assert s[0] == x.degrees[0] && IsDigit(x.degrees[0], 10);
    TrimNothing(s);
  }
}
