/**
 Certificates as PEM text: base64 (section 4 of RFC 4648) wrapped at 64 columns between two
 marker lines, and back. The results are that unwrapping undoes wrapping for every byte string,
 and that a chain of two certificates splits back into exactly those two.
 */
module CertificatePem {
  import opened Numerals
  import opened Options
  import Texts

  // ---------------------------------------------------------------------------
  // Base64
  // ---------------------------------------------------------------------------

  function Char64(i: nat): (c: char)
    requires i < 64
    ensures IsChar64(c) && Value64(c) == i
  {
    if i < 26 then ('A' as int + i) as char
    else if i < 52 then ('a' as int + (i - 26)) as char
    else if i < 62 then ('0' as int + (i - 52)) as char
    else if i == 62 then '+' else '/'
  }

  predicate IsChar64(c: char) {
    'A' <= c <= 'Z' || 'a' <= c <= 'z' || '0' <= c <= '9' || c == '+' || c == '/'
  }

  function Value64(c: char): (i: nat)
    requires IsChar64(c)
    ensures i < 64
  {
    if 'A' <= c <= 'Z' then c as int - 'A' as int
    else if 'a' <= c <= 'z' then c as int - 'a' as int + 26
    else if '0' <= c <= '9' then c as int - '0' as int + 52
    else if c == '+' then 62 else 63
  }

  /** Three bytes as four characters. */
  function Group(a: Byte, b: Byte, c: Byte): (s: string)
    ensures |s| == 4
  {
    [Char64(a / 4), Char64(a % 4 * 16 + b / 16), Char64(b % 16 * 4 + c / 64), Char64(c % 64)]
  }

  /** One byte as two characters, the last four bits zero. */
  function Pair(a: Byte): (s: string)
    ensures |s| == 2 && AllChar64(s)
  {
    [Char64(a / 4), Char64(a % 4 * 16)]
  }

  /** Two bytes as three characters, the last two bits zero. */
  function Triple(a: Byte, b: Byte): (s: string)
    ensures |s| == 3 && AllChar64(s)
  {
    [Char64(a / 4), Char64(a % 4 * 16 + b / 16), Char64(b % 16 * 4)]
  }

  /** `btoa` */
  function Encode(bytes: seq<Byte>): string {
    if |bytes| == 0 then []
    else if |bytes| == 1 then Pair(bytes[0]) + "=="
    else if |bytes| == 2 then Triple(bytes[0], bytes[1]) + "="
    else
      Group(bytes[0], bytes[1], bytes[2]) + Encode(bytes[3..])
  }

  predicate AllChar64(s: string) {
    forall i | 0 <= i < |s| :: IsChar64(s[i])
  }

  /** The bytes of unpadded base64 text; bits past the last whole byte are dropped. */
  function DecodeGroups(s: string): seq<Byte>
    requires AllChar64(s)
  {
    if |s| < 2 then []
    else if |s| == 2 then [Value64(s[0]) * 4 + Value64(s[1]) / 16]
    else if |s| == 3 then
      [Value64(s[0]) * 4 + Value64(s[1]) / 16, Value64(s[1]) % 16 * 16 + Value64(s[2]) / 4]
    else
      [Value64(s[0]) * 4 + Value64(s[1]) / 16, Value64(s[1]) % 16 * 16 + Value64(s[2]) / 4,
       Value64(s[2]) % 4 * 64 + Value64(s[3])] + DecodeGroups(s[4..])
  }

  function DropPadding(s: string): string {
    if |s| % 4 == 0 && |s| >= 4 && s[|s| - 1] == '=' then
      if s[|s| - 2] == '=' then s[..|s| - 2] else s[..|s| - 1]
    else s
  }

  /** `atob` of text without white space; `None` where it throws. */
  function Decode(s: string): Option<seq<Byte>> {
    var t := DropPadding(s);
    if |t| % 4 == 1 || !AllChar64(t) then None else Some(DecodeGroups(t))
  }

  /** The text of `Encode` without its padding. */
  function Unpadded(bytes: seq<Byte>): string {
    if |bytes| == 0 then []
    else if |bytes| == 1 then Pair(bytes[0])
    else if |bytes| == 2 then Triple(bytes[0], bytes[1])
    else Group(bytes[0], bytes[1], bytes[2]) + Unpadded(bytes[3..])
  }

  /** Three bytes survive being cut into four groups of six bits. */
  lemma Sextets(a: Byte, b: Byte, c: Byte)
    ensures a / 4 * 4 + (a % 4 * 16 + b / 16) / 16 == a
    ensures (a % 4 * 16 + b / 16) % 16 * 16 + (b % 16 * 4 + c / 64) / 4 == b
    ensures (b % 16 * 4 + c / 64) % 4 * 64 + c % 64 == c
  {
  }

  lemma GroupDecodes(a: Byte, b: Byte, c: Byte, rest: string)
    requires AllChar64(rest)
    ensures AllChar64(Group(a, b, c) + rest)
    ensures DecodeGroups(Group(a, b, c) + rest) == [a, b, c] + DecodeGroups(rest)
  {
    Sextets(a, b, c);
    assert (Group(a, b, c) + rest)[4..] == rest;
  }

  lemma PairDecodes(a: Byte)
    ensures DecodeGroups(Pair(a)) == [a]
  {
    Sextets(a, 0, 0);
  }

  lemma TripleDecodes(a: Byte, b: Byte)
    ensures DecodeGroups(Triple(a, b)) == [a, b]
  {
    Sextets(a, b, 0);
  }

  lemma LastGroupDecodes(bytes: seq<Byte>)
    requires |bytes| < 3
    ensures AllChar64(Unpadded(bytes)) && DecodeGroups(Unpadded(bytes)) == bytes
  {
    if |bytes| == 1 {
      assert bytes == [bytes[0]] && Unpadded(bytes) == Pair(bytes[0]);
      PairDecodes(bytes[0]);
    } else if |bytes| == 2 {
      assert bytes == [bytes[0], bytes[1]] && Unpadded(bytes) == Triple(bytes[0], bytes[1]);
      TripleDecodes(bytes[0], bytes[1]);
    }
  }

  lemma {:induction false} UnpaddedLength(bytes: seq<Byte>)
    ensures |Unpadded(bytes)| % 4 != 1
  {
    if |bytes| >= 3 {
      UnpaddedLength(bytes[3..]);
      assert |Unpadded(bytes)| == 4 + |Unpadded(bytes[3..])|;
    }
  }

  lemma {:induction false} UnpaddedDecodes(bytes: seq<Byte>)
    ensures AllChar64(Unpadded(bytes)) && DecodeGroups(Unpadded(bytes)) == bytes
  {
    if |bytes| < 3 {
      LastGroupDecodes(bytes);
    } else {
      var a, b, c, rest := bytes[0], bytes[1], bytes[2], bytes[3..];
      UnpaddedDecodes(rest);
      GroupDecodes(a, b, c, Unpadded(rest));
      assert Unpadded(bytes) == Group(a, b, c) + Unpadded(rest);
      assert bytes == [a, b, c] + rest;
    }
  }

  lemma DropPaddingAfter(g: string, rest: string)
    requires |g| == 4 && AllChar64(g) && |rest| % 4 == 0
    ensures DropPadding(g + rest) == g + DropPadding(rest)
  {
    var s := g + rest;
    if rest == [] {
      assert s == g && g + DropPadding(rest) == g;
      assert IsChar64(g[3]);
    } else {
      assert s[|s| - 1] == rest[|rest| - 1] && s[|s| - 2] == rest[|rest| - 2];
      assert s[..|s| - 2] == g + rest[..|rest| - 2] && s[..|s| - 1] == g + rest[..|rest| - 1];
    }
  }

  lemma PaddedPair(a: Byte)
    ensures DropPadding(Pair(a) + "==") == Pair(a)
  {
    assert (Pair(a) + "==")[..2] == Pair(a);
  }

  lemma PaddedTriple(a: Byte, b: Byte)
    ensures DropPadding(Triple(a, b) + "=") == Triple(a, b)
  {
    assert IsChar64(Triple(a, b)[2]);
    assert (Triple(a, b) + "=")[..3] == Triple(a, b);
  }

  predicate Padded(s: string) {
    forall i | 0 <= i < |s| :: IsChar64(s[i]) || s[i] == '='
  }

  lemma {:induction false} EncodeAlphabet(bytes: seq<Byte>)
    ensures |Encode(bytes)| % 4 == 0 && Padded(Encode(bytes))
  {
    if |bytes| >= 3 {
      EncodeAlphabet(bytes[3..]);
    }
  }

  lemma {:induction false} EncodeShape(bytes: seq<Byte>)
    ensures DropPadding(Encode(bytes)) == Unpadded(bytes)
  {
    if |bytes| == 1 {
      PaddedPair(bytes[0]);
    } else if |bytes| == 2 {
      PaddedTriple(bytes[0], bytes[1]);
    } else if |bytes| >= 3 {
      var rest := bytes[3..];
      EncodeAlphabet(rest);
      EncodeShape(rest);
      DropPaddingAfter(Group(bytes[0], bytes[1], bytes[2]), Encode(rest));
    }
  }

  /** The alphabet of section 4 of RFC 4648: its marks, and letters and digits in their order between them. */
  lemma AlphabetSpelled(i: nat)
    requires i < 63
    ensures Char64(0) == 'A' && Char64(25) == 'Z' && Char64(26) == 'a' && Char64(51) == 'z'
    ensures Char64(52) == '0' && Char64(61) == '9' && Char64(62) == '+' && Char64(63) == '/'
    ensures i !in {25, 51, 61, 62} ==> Char64(i + 1) as int == Char64(i) as int + 1
  {
  }

  /** Four characters are the 24 bits of three bytes, and shorter ends are their bits followed by zeros. */
  lemma GroupsSpelled(a: Byte, b: Byte, c: Byte)
    ensures var s := Group(a, b, c);
            ((Value64(s[0]) * 64 + Value64(s[1])) * 64 + Value64(s[2])) * 64 + Value64(s[3]) == (a * 256 + b) * 256 + c
    ensures var s := Triple(a, b);
            (Value64(s[0]) * 64 + Value64(s[1])) * 64 + Value64(s[2]) == (a * 256 + b) * 4
    ensures var s := Pair(a); Value64(s[0]) * 64 + Value64(s[1]) == a * 16
  {
  }

  /** Three bytes at a time; what is left over is padded to four characters. */
  lemma EncodeSpelled(a: Byte, b: Byte, c: Byte, rest: seq<Byte>)
    ensures Encode([]) == "" && Encode([a]) == Pair(a) + "==" && Encode([a, b]) == Triple(a, b) + "="
    ensures Encode([a, b, c] + rest) == Group(a, b, c) + Encode(rest)
  {
    assert ([a, b, c] + rest)[3..] == rest;
  }

  /** Decoding undoes encoding, for every byte string. */
  lemma DecodeEncode(bytes: seq<Byte>)
    ensures Decode(Encode(bytes)) == Some(bytes)
  {
    EncodeShape(bytes);
    UnpaddedDecodes(bytes);
    UnpaddedLength(bytes);
  }

  // ---------------------------------------------------------------------------
  // Wrapping
  // ---------------------------------------------------------------------------

  const BEGIN: string := "-----BEGIN CERTIFICATE-----"
  const END: string := "-----END CERTIFICATE-----"
  const COLUMNS: nat := 64

  /** The text in lines of 64, separated by newlines. */
  function Wrap(s: string): string {
    if |s| <= COLUMNS then s else s[..COLUMNS] + "\n" + Wrap(s[COLUMNS..])
  }

  function Pem(der: seq<Byte>): string {
    BEGIN + "\n" + Wrap(Encode(der)) + "\n" + END + "\n"
  }

  function JoinLines(lines: seq<string>): string {
    if |lines| == 0 then [] else if |lines| == 1 then lines[0] else lines[0] + "\n" + JoinLines(lines[1..])
  }

  lemma {:induction false} JoinLinesSnoc(lines: seq<string>, line: string)
    requires lines != []
    ensures JoinLines(lines + [line]) == JoinLines(lines) + "\n" + line
  {
    if |lines| == 1 {
      assert (lines + [line])[1..] == [line];
    } else {
      JoinLinesSnoc(lines[1..], line);
      assert (lines + [line])[1..] == lines[1..] + [line];
    }
  }

  /** Full lines in front do not change how the rest is wrapped. */
  lemma {:induction false} WrapSplit(s: string, i: nat)
    requires i % COLUMNS == 0 && 0 < i < |s|
    ensures Wrap(s) == Wrap(s[..i]) + "\n" + Wrap(s[i..])
    decreases i
  {
    var rest := s[COLUMNS..];
    if i == COLUMNS {
      assert Wrap(s[..i]) == s[..i];
    } else {
      assert i >= 2 * COLUMNS;
      WrapSplit(rest, i - COLUMNS);
      assert s[..i][COLUMNS..] == rest[..i - COLUMNS];
      assert s[..i][..COLUMNS] == s[..COLUMNS];
      assert rest[i - COLUMNS..] == s[i..];
    }
  }

  function Concatenated(lines: seq<string>): string {
    if lines == [] then "" else lines[0] + Concatenated(lines[1..])
  }

  /** Lines of 64 characters, the last one shorter or as long but not empty. */
  predicate LinesOf64(lines: seq<string>) {
    forall i | 0 <= i < |lines| :: 0 < |lines[i]| <= 64 && (i < |lines| - 1 ==> |lines[i]| == 64)
  }

  lemma {:induction false} WrapSpelled(s: string) returns (lines: seq<string>)
    ensures LinesOf64(lines) && Concatenated(lines) == s && JoinLines(lines) == Wrap(s)
    ensures lines == [] <==> s == ""
  {
    if s == "" {
      lines := [];
    } else if |s| <= 64 {
      lines := [s];
      assert [s][1..] == [];
    } else {
      var rest := WrapSpelled(s[64..]);
      lines := [s[..64]] + rest;
      assert lines[1..] == rest;
      assert s == s[..64] + s[64..];
    }
  }

  /** A certificate's PEM, spelled out: the marker lines, and between them the base64 text in lines of 64. */
  lemma PemSpelled(der: seq<Byte>)
    ensures exists lines ::
              && LinesOf64(lines) && Concatenated(lines) == Encode(der)
              && Pem(der) == "-----BEGIN CERTIFICATE-----\n" + JoinLines(lines) + "\n-----END CERTIFICATE-----\n"
  {
    var lines := WrapSpelled(Encode(der));
    MarkerLines(JoinLines(lines));
  }

  lemma MarkerLines(text: string)
    ensures BEGIN + "\n" + text + "\n" + END + "\n"
            == "-----BEGIN CERTIFICATE-----\n" + text + "\n-----END CERTIFICATE-----\n"
  {
    assert "-----BEGIN CERTIFICATE-----\n" == BEGIN + "\n";
    assert "\n-----END CERTIFICATE-----\n" == "\n" + END + "\n";
  }

  method DerToCertPem(der: seq<Byte>) returns (pem: string)
    ensures pem == Pem(der)
  {
    var b64 := Encode(der);
    var lines: seq<string> := [];
    var i := 0;
    while i < |b64|
      invariant i % COLUMNS == 0
      invariant i == 0 <==> lines == []
      invariant 0 < i ==> JoinLines(lines) == Wrap(if i <= |b64| then b64[..i] else b64)
    {
      var end := if i + COLUMNS < |b64| then i + COLUMNS else |b64|;
      var line := b64[i..end];
      ghost var upto := b64[..end];
      assert end == |b64| ==> upto == b64;
      assert end == i + COLUMNS || end == |b64|;
      if i == 0 {
        assert upto == line;
        assert JoinLines([line]) == line;
      } else {
        WrapSplit(upto, i);
        assert upto[..i] == b64[..i] && upto[i..] == line;
        JoinLinesSnoc(lines, line);
      }
      lines := lines + [line];
      i := i + COLUMNS;
    }
    if i > 0 && i <= |b64| {
      assert b64[..i] == b64;
    }
    pem := BEGIN + "\n" + JoinLines(lines) + "\n" + END + "\n";
  }

  // ---------------------------------------------------------------------------
  // Unwrapping
  // ---------------------------------------------------------------------------

  predicate IsSpace(c: char) {
    Texts.IsWhite(c as int)
  }

  /** `s.replace(/\s+/g, "")` */
  function Unspaced(s: string): string {
    if s == [] then [] else if IsSpace(s[0]) then Unspaced(s[1..]) else [s[0]] + Unspaced(s[1..])
  }

  /** `s.replace(/pattern/g, "")` for a literal pattern. */
  function RemoveAll(pattern: string, s: string): string
    requires pattern != []
    decreases |s|
  {
    if s == [] then []
    else if pattern <= s then RemoveAll(pattern, s[|pattern|..])
    else [s[0]] + RemoveAll(pattern, s[1..])
  }

  function PemToDer(pem: string): Option<seq<Byte>> {
    Decode(Unspaced(RemoveAll(END, RemoveAll(BEGIN, pem))))
  }

  lemma UnspacedCons(c: char, s: string)
    ensures Unspaced([c] + s) == (if IsSpace(c) then [] else [c]) + Unspaced(s)
  {
    assert ([c] + s)[1..] == s;
  }

  lemma {:induction false} UnspacedAppend(a: string, b: string)
    ensures Unspaced(a + b) == Unspaced(a) + Unspaced(b)
  {
    if a == [] {
      assert a + b == b;
    } else {
      var c, rest := a[0], a[1..];
      UnspacedAppend(rest, b);
      UnspacedCons(c, rest);
      UnspacedCons(c, rest + b);
      assert a == [c] + rest && a + b == [c] + (rest + b);
    }
  }

  lemma {:induction false} NothingToRemove(s: string)
    requires forall i | 0 <= i < |s| :: !IsSpace(s[i])
    ensures Unspaced(s) == s
  {
    if s != [] {
      NothingToRemove(s[1..]);
    }
  }

  lemma {:induction false} UnspacedWrap(s: string)
    requires forall i | 0 <= i < |s| :: !IsSpace(s[i])
    ensures Unspaced(Wrap(s)) == s
  {
    NothingToRemove(s);
    if |s| > COLUMNS {
      var line, rest := s[..COLUMNS], s[COLUMNS..];
      NothingToRemove(line);
      UnspacedWrap(rest);
      UnspacedAppend(line + "\n", Wrap(rest));
      UnspacedAppend(line, "\n");
      UnspacedNewline();
      assert s == line + rest;
    }
  }

  lemma UnspacedNewline()
    ensures Unspaced("\n") == []
  {
  }

  predicate Without(s: string, c: char) {
    forall i | 0 <= i < |s| :: s[i] != c
  }

  /** Text without the pattern's first character is passed over. */
  lemma {:induction false} RemoveAllSkips(pattern: string, s: string, rest: string)
    requires pattern != [] && Without(s, pattern[0])
    ensures RemoveAll(pattern, s + rest) == s + RemoveAll(pattern, rest)
  {
    if s == [] {
      assert s + rest == rest;
    } else {
      RemoveAllSkips(pattern, s[1..], rest);
      assert (s + rest)[0] == s[0] && (s + rest)[1..] == s[1..] + rest;
      assert s == [s[0]] + s[1..];
    }
  }

  /** A pattern does not occur where one of its characters does not. */
  lemma {:induction false} RemoveAllAbsent(pattern: string, k: nat, s: string)
    requires k < |pattern| && forall i | k <= i < |s| :: s[i] != pattern[k]
    ensures RemoveAll(pattern, s) == s
    decreases |s|
  {
    if s != [] {
      assert |s| > k ==> s[k] != pattern[k];
      RemoveAllAbsent(pattern, k, s[1..]);
      assert s == [s[0]] + s[1..];
    }
  }

  lemma RemoveAllFirst(pattern: string, rest: string)
    requires pattern != []
    ensures RemoveAll(pattern, pattern + rest) == RemoveAll(pattern, rest)
  {
    assert (pattern + rest)[|pattern|..] == rest;
  }

  lemma {:induction false} WrapPlain(s: string, c: char)
    requires Without(s, c) && c != '\n'
    ensures Without(Wrap(s), c)
  {
    if |s| > COLUMNS {
      WrapPlain(s[COLUMNS..], c);
    }
  }

  /** What stands between the markers. */
  function Body(der: seq<Byte>): string {
    "\n" + Wrap(Encode(der)) + "\n"
  }

  lemma EncodePlain(der: seq<Byte>)
    ensures Without(Encode(der), '-')
    ensures forall i | 0 <= i < |Encode(der)| :: !IsSpace(Encode(der)[i])
  {
    EncodeAlphabet(der);
  }

  lemma UnspacedLines(s: string)
    ensures Unspaced("\n" + s + "\n") == Unspaced(s)
  {
    UnspacedAppend("\n" + s, "\n");
    UnspacedAppend("\n", s);
    UnspacedNewline();
  }

  lemma BodyPlain(der: seq<Byte>)
    ensures Without(Body(der), '-')
    ensures Unspaced(Body(der)) == Encode(der)
  {
    EncodePlain(der);
    WrapPlain(Encode(der), '-');
    UnspacedWrap(Encode(der));
    UnspacedLines(Wrap(Encode(der)));
  }

  lemma Markers()
    ensures |BEGIN| == 27 && |END| == 25 && BEGIN[0] == '-' && END[0] == '-'
    ensures BEGIN[26] == '-'
  {
  }

  /** One block with text around it unwraps to what its body and the text around it decode to. */
  lemma BlockUnwraps(before: string, body: string, after: string)
    requires Without(before, '-') && Without(body, '-') && Without(after, '-')
    ensures PemToDer(before + (BEGIN + (body + (END + after))))
            == Decode(Unspaced(before) + (Unspaced(body) + Unspaced(after)))
  {
    Markers();
    MarkersRemoved(BEGIN, END, before, body, after);
    UnspacedAppend(before, body + after);
    UnspacedAppend(body, after);
  }

  /** Both markers are removed and nothing else; the end marker and what follows it hide no begin marker,
      because the last character of one would have to lie in text without dashes. */
  lemma MarkersRemoved(begin: string, end: string, before: string, body: string, after: string)
    requires 0 < |end| < |begin| && begin[0] == '-' && begin[|begin| - 1] == '-' && end[0] == '-'
    requires Without(before, '-') && Without(body, '-') && Without(after, '-')
    ensures RemoveAll(end, RemoveAll(begin, before + (begin + (body + (end + after))))) == before + (body + after)
  {
    var rest := end + after;
    RemoveAllSkips(begin, before, begin + (body + rest));
    RemoveAllFirst(begin, body + rest);
    RemoveAllSkips(begin, body, rest);
    RemoveAllAbsent(begin, |begin| - 1, rest);
    RemoveAllSkips(end, before, body + rest);
    RemoveAllSkips(end, body, rest);
    RemoveAllFirst(end, after);
    RemoveAllAbsent(end, 0, after);
  }

  /** A block, whatever white space follows it, unwraps to the bytes it was made from. */
  lemma BlockToDer(der: seq<Byte>, tail: string)
    requires tail == "\n" || tail == ""
    ensures PemToDer(BEGIN + Body(der) + END + tail) == Some(der)
  {
    BodyPlain(der);
    BlockUnwraps("", Body(der), tail);
    BlockParts(Body(der), tail);
    UnspacedNewline();
    assert [] + (Encode(der) + []) == Encode(der);
    DecodeEncode(der);
  }

  lemma BlockParts(body: string, tail: string)
    ensures BEGIN + body + END + tail == "" + (BEGIN + (body + (END + tail)))
  {
  }

  lemma PemIsBlock(der: seq<Byte>)
    ensures Pem(der) == BEGIN + Body(der) + END + "\n"
  {
  }

  /** Main result: unwrapping a certificate's PEM gives back its bytes, whatever they are. */
  lemma PemRoundTrip(der: seq<Byte>)
    ensures PemToDer(Pem(der)) == Some(der)
  {
    PemIsBlock(der);
    BlockToDer(der, "\n");
  }

  // ---------------------------------------------------------------------------
  // Chains
  // ---------------------------------------------------------------------------

  /** The first place the pattern occurs at. */
  function Find(pattern: string, s: string): Option<nat> {
    if pattern <= s then Some(0)
    else if s == [] then None
    else match Find(pattern, s[1..])
         case None => None
         case Some(i) => Some(i + 1)
  }

  lemma {:induction false} FindFits(pattern: string, s: string)
    ensures Find(pattern, s).Some? ==> Find(pattern, s).value + |pattern| <= |s|
  {
    if !(pattern <= s) && s != [] {
      FindFits(pattern, s[1..]);
    }
  }

  /** The matches of a begin marker, as little as possible, and an end marker. */
  function Blocks(s: string): seq<string>
    decreases |s|
  {
    var i := Find(BEGIN, s);
    if i.None? then []
    else
      FindFits(BEGIN, s);
      Markers();
      var rest := s[i.value + |BEGIN|..];
      var j := Find(END, rest);
      if j.None? then []
      else
        FindFits(END, rest);
        [s[i.value..i.value + |BEGIN| + j.value + |END|]] + Blocks(rest[j.value + |END|..])
  }

  /** The issued chain: the leaf's PEM and the intermediate's, given a newline if it has none. */
  function ChainPem(leafPem: string, intermediatePem: string): string {
    leafPem + if intermediatePem != [] && intermediatePem[|intermediatePem| - 1] == '\n' then intermediatePem
              else intermediatePem + "\n"
  }

  lemma {:induction false} FindSkips(pattern: string, s: string, rest: string)
    requires pattern != [] && Without(s, pattern[0]) && pattern <= rest
    ensures Find(pattern, s + rest) == Some(|s|)
  {
    if s == [] {
      assert s + rest == rest;
    } else {
      FindSkips(pattern, s[1..], rest);
      assert (s + rest)[0] == s[0] && (s + rest)[1..] == s[1..] + rest;
    }
  }

  lemma {:induction false} FindNothing(pattern: string, s: string)
    requires pattern != [] && Without(s, pattern[0])
    ensures Find(pattern, s) == None
  {
    if s != [] {
      FindNothing(pattern, s[1..]);
    }
  }

  /** The first block of a text is the one that starts at its first dash. */
  lemma FirstBlock(gap: string, body: string, tail: string)
    requires Without(gap, '-') && Without(body, '-')
    ensures Blocks(gap + (BEGIN + body + END) + tail) == [BEGIN + body + END] + Blocks(tail)
  {
    Markers();
    var block := BEGIN + body + END;
    var s := gap + block + tail;
    assert s == gap + (BEGIN + (body + (END + tail)));
    FindSkips(BEGIN, gap, BEGIN + (body + (END + tail)));
    var rest := s[|gap| + |BEGIN|..];
    assert rest == body + (END + tail);
    FindSkips(END, body, END + tail);
    assert s[|gap|..|gap| + |BEGIN| + |body| + |END|] == block;
    assert rest[|body| + |END|..] == tail;
  }

  /** A text with one block, and no dash outside its markers. */
  predicate OneBlock(stored: string, before: string, body: string, after: string) {
    && stored == before + (BEGIN + body + END) + after
    && Without(before, '-') && Without(body, '-') && Without(after, '-')
  }

  lemma ChainBlocks(leaf: seq<Byte>, stored: string, before: string, body: string, after: string)
    requires OneBlock(stored, before, body, after)
    ensures Blocks(ChainPem(Pem(leaf), stored)) == [BEGIN + Body(leaf) + END, BEGIN + body + END]
  {
    var first, second := BEGIN + Body(leaf) + END, BEGIN + body + END;
    var chain := ChainPem(Pem(leaf), stored);
    var end := chain[|first| + 1 + |stored|..];
    PemIsBlock(leaf);
    ChainConcat(first, before, second, after, chain, end);
    BodyPlain(leaf);
    FirstBlock([], Body(leaf), ("\n" + before) + second + (after + end));
    FirstBlock("\n" + before, body, after + end);
    Markers();
    FindNothing(BEGIN, after + end);
  }

  lemma ChainConcat(first: string, before: string, second: string, after: string, chain: string, end: string)
    requires var stored := before + second + after;
             chain == ChainPem(first + "\n", stored) && |chain| >= |first| + 1 + |stored|
             && end == chain[|first| + 1 + |stored|..]
    ensures end == "" || end == "\n"
    ensures chain == [] + first + (("\n" + before) + second + (after + end))
  {
    var stored := before + second + after;
    assert chain == (first + "\n") + (stored + end);
  }

  /**
   Main result on chains: a leaf's PEM followed by any text that holds one block, with or without a final
   newline, splits into exactly two blocks. The first unwraps to the leaf; the second is the stored text's
   own block and, when only white space is around it, unwraps to what the stored text does.
   */
  lemma ChainSplits(leaf: seq<Byte>, stored: string, before: string, body: string, after: string)
    requires OneBlock(stored, before, body, after)
    ensures var blocks := Blocks(ChainPem(Pem(leaf), stored));
            && |blocks| == 2
            && PemToDer(blocks[0]) == Some(leaf)
            && blocks[1] == BEGIN + body + END
            && PemToDer(blocks[1]) == Decode(Unspaced(body))
            && (Unspaced(before) == [] && Unspaced(after) == [] ==> PemToDer(blocks[1]) == PemToDer(stored))
  {
    ChainBlocks(leaf, stored, before, body, after);
    BareBlock(Body(leaf));
    BlockToDer(leaf, "");
    BareUnwraps(body);
    if Unspaced(before) == [] && Unspaced(after) == [] {
      StoredUnwraps(stored, before, body, after);
    }
  }

  lemma BareBlock(body: string)
    ensures BEGIN + body + END + "" == BEGIN + body + END
  {
  }

  lemma BareUnwraps(body: string)
    requires Without(body, '-')
    ensures PemToDer(BEGIN + body + END) == Decode(Unspaced(body))
  {
    BlockUnwraps("", body, "");
    BlockParts(body, "");
    BareBlock(body);
    assert [] + (Unspaced(body) + []) == Unspaced(body);
  }

  lemma StoredUnwraps(stored: string, before: string, body: string, after: string)
    requires OneBlock(stored, before, body, after) && Unspaced(before) == [] && Unspaced(after) == []
    ensures PemToDer(stored) == Decode(Unspaced(body))
  {
    BlockUnwraps(before, body, after);
    Around(BEGIN, END, before, body, after);
    assert [] + (Unspaced(body) + []) == Unspaced(body);
  }

  lemma Around(begin: string, end: string, before: string, body: string, after: string)
    ensures before + (begin + body + end) + after == before + (begin + (body + (end + after)))
  {
  }

  /** In particular an intermediate in the form certificates are written in, with or without its final
      newline, splits off as itself. */
  lemma IssuedChainSplits(leaf: seq<Byte>, intermediate: seq<Byte>, newline: bool)
    ensures var stored := BEGIN + Body(intermediate) + END + if newline then "\n" else "";
            var blocks := Blocks(ChainPem(Pem(leaf), stored));
            |blocks| == 2 && PemToDer(blocks[0]) == Some(leaf) && PemToDer(blocks[1]) == Some(intermediate)
  {
    var after := if newline then "\n" else "";
    var stored := BEGIN + Body(intermediate) + END + after;
    BodyPlain(intermediate);
    assert stored == [] + (BEGIN + Body(intermediate) + END) + after;
    ChainSplits(leaf, stored, [], Body(intermediate), after);
    DecodeEncode(intermediate);
  }
}
