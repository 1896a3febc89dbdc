/**
 Where a bar can stand in serialised JSON: only inside a string. A cursor reads text from left to
 right and knows whether it is inside a string and whether the last unit was an escaping backslash.
 Serialised values leave the cursor as they found it, and a cursor that starts on the wrong side of a
 quote stays on the wrong side, so text after a bar can never be serialised text of its own.
 */
module QuotedBars {
  import opened CanonicalJson
  import opened Texts

  const BAR: CodeUnit := 0x7C

  datatype Cursor = Cursor(inside: bool, escaped: bool)

  const OUT: Cursor := Cursor(false, false)
  const IN: Cursor := Cursor(true, false)

  function Next(c: Cursor, u: CodeUnit): Cursor {
    if c.escaped then Cursor(c.inside, false)
    else if u == BACKSLASH then Cursor(c.inside, true)
    else if u == QUOTE then Cursor(!c.inside, false)
    else c
  }

  function Scan(t: Text, c: Cursor): Cursor {
    if t == [] then c else Scan(t[1..], Next(c, t[0]))
  }

  predicate BarsInside(t: Text, c: Cursor) {
    t == [] || ((t[0] == BAR ==> c.inside) && BarsInside(t[1..], Next(c, t[0])))
  }

  /** Reading `t` from `c` ends at `c` again and meets every bar inside a string. */
  predicate Balanced(t: Text, c: Cursor) {
    Scan(t, c) == c && BarsInside(t, c)
  }

  lemma {:induction false} ScanAppend(s: Text, t: Text, c: Cursor)
    ensures Scan(s + t, c) == Scan(t, Scan(s, c))
    ensures BarsInside(s + t, c) <==> BarsInside(s, c) && BarsInside(t, Scan(s, c))
  {
    if s == [] {
      assert s + t == t;
    } else {
      ScanAppend(s[1..], t, Next(c, s[0]));
      assert (s + t)[1..] == s[1..] + t;
    }
  }

  lemma BalancedAppend(s: Text, t: Text, c: Cursor)
    requires Balanced(s, c) && Balanced(t, c)
    ensures Balanced(s + t, c)
  {
    ScanAppend(s, t, c);
  }

  function Flip(c: Cursor): Cursor {
    Cursor(!c.inside, c.escaped)
  }

  lemma {:induction false} ScanFlip(t: Text, c: Cursor)
    ensures Scan(t, Flip(c)) == Flip(Scan(t, c))
  {
    if t != [] {
      assert Next(Flip(c), t[0]) == Flip(Next(c, t[0]));
      ScanFlip(t[1..], Next(c, t[0]));
    }
  }

  predicate Plain(t: Text) {
    forall i | 0 <= i < |t| :: t[i] != QUOTE && t[i] != BACKSLASH && t[i] != BAR
  }

  lemma {:induction false} PlainBalanced(t: Text, c: Cursor)
    requires Plain(t) && !c.escaped
    ensures Balanced(t, c)
  {
    if t != [] {
      assert Next(c, t[0]) == c;
      PlainBalanced(t[1..], c);
    }
  }

  // ---------------------------------------------------------------------------
  // Strings
  // ---------------------------------------------------------------------------

  lemma OneBalanced(u: CodeUnit)
    requires u != QUOTE && u != BACKSLASH
    ensures Balanced([u], IN)
  {
    assert [u][1..] == [];
  }

  lemma EscapeBalanced(u: CodeUnit)
    ensures Balanced([BACKSLASH, u], IN)
  {
    var t, c := [BACKSLASH, u], Cursor(true, true);
    assert t[1..] == [u] && [u][1..] == [];
    assert Next(IN, BACKSLASH) == c && Next(c, u) == IN;
    assert Scan([u], c) == IN && BarsInside([u], c);
  }

  lemma HexPlain(d: nat)
    requires d < 16
    ensures HexUnit(d) != QUOTE && HexUnit(d) != BACKSLASH && HexUnit(d) != BAR
  {
  }

  lemma UnicodeBalanced(u: CodeUnit)
    ensures Balanced(UnicodeEscape(u), IN)
  {
    HexPlain(u / 0x1000);
    HexPlain(u / 0x100 % 16);
    HexPlain(u / 0x10 % 16);
    HexPlain(u % 16);
    var digits := [HexUnit(u / 0x1000), HexUnit(u / 0x100 % 16), HexUnit(u / 0x10 % 16), HexUnit(u % 16)];
    EscapeBalanced(0x75);
    PlainBalanced(digits, IN);
    BalancedAppend([BACKSLASH, 0x75], digits, IN);
    assert UnicodeEscape(u) == [BACKSLASH, 0x75] + digits;
  }

  lemma UnitBalanced(u: CodeUnit)
    ensures Balanced(EscapeUnit(u), IN)
  {
    var t := EscapeUnit(u);
    if t == UnicodeEscape(u) {
      UnicodeBalanced(u);
    } else if t == [u] {
      OneBalanced(u);
    } else {
      EscapeBalanced(t[1]);
      assert t == [BACKSLASH, t[1]];
    }
  }

  lemma ChunkBalanced(s: Text)
    requires s != []
    ensures Balanced(Chunk(s), IN)
  {
    if Width(s) == 2 {
      PlainBalanced(s[..2], IN);
    } else {
      UnitBalanced(s[0]);
    }
  }

  lemma {:induction false} TextBalanced(s: Text)
    ensures Balanced(Escape(s), IN)
    decreases |s|
  {
    if s != [] {
      var rest := s[Width(s)..];
      TextBalanced(rest);
      ChunkBalanced(s);
      BalancedAppend(Chunk(s), Escape(rest), IN);
    }
  }

  lemma QuoteBalanced(s: Text)
    ensures Balanced(Quote(s), OUT)
  {
    TextBalanced(s);
    QuoteTurns(OUT);
    QuoteTurns(IN);
    ScanAppend([QUOTE], Escape(s), OUT);
    ScanAppend([QUOTE] + Escape(s), [QUOTE], OUT);
  }

  lemma QuoteTurns(c: Cursor)
    requires !c.escaped
    ensures Scan([QUOTE], c) == Flip(c) && BarsInside([QUOTE], c)
  {
    assert [QUOTE][1..] == [];
  }

  // ---------------------------------------------------------------------------
  // Values
  // ---------------------------------------------------------------------------

  lemma {:induction false} TailBalanced(parts: seq<Text>, separator: CodeUnit)
    requires IsSeparator(separator) && forall i | 0 <= i < |parts| :: Balanced(parts[i], OUT)
    ensures Balanced(JoinTail(parts, separator), OUT)
  {
    if parts != [] {
      TailBalanced(parts[1..], separator);
      PlainBalanced([separator], OUT);
      BalancedAppend([separator], parts[0], OUT);
      BalancedAppend([separator] + parts[0], JoinTail(parts[1..], separator), OUT);
    }
  }

  lemma JoinBalanced(parts: seq<Text>, separator: CodeUnit)
    requires IsSeparator(separator) && forall i | 0 <= i < |parts| :: Balanced(parts[i], OUT)
    ensures Balanced(Join(parts, separator), OUT)
  {
    if parts != [] {
      TailBalanced(parts[1..], separator);
      BalancedAppend(parts[0], JoinTail(parts[1..], separator), OUT);
    }
  }

  lemma EnclosedBalanced(open: CodeUnit, t: Text, close: CodeUnit)
    requires Plain([open]) && Plain([close]) && Balanced(t, OUT)
    ensures Balanced([open] + t + [close], OUT)
  {
    PlainBalanced([open], OUT);
    PlainBalanced([close], OUT);
    BalancedAppend([open], t, OUT);
    BalancedAppend([open] + t, [close], OUT);
  }

  lemma FieldBalanced(fields: seq<Field>, key: Text)
    requires key in KeysOf(fields) && Balanced(Canonical(fields[IndexOf(fields, key)].value), OUT)
    ensures Balanced(FieldText(fields, key), OUT)
  {
    var value := Canonical(fields[IndexOf(fields, key)].value);
    QuoteBalanced(key);
    PlainBalanced([COLON], OUT);
    BalancedAppend(Quote(key), [COLON], OUT);
    BalancedAppend(Quote(key) + [COLON], value, OUT);
  }

  lemma LeafBalanced(v: Json)
    requires !v.Str? && !v.Arr? && !v.Obj?
    ensures Balanced(Canonical(v), OUT)
  {
    PlainBalanced(Canonical(v), OUT);
  }

  lemma ItemsBalanced(items: seq<Json>)
    requires forall i | 0 <= i < |items| :: Balanced(Canonical(items[i]), OUT)
    ensures Balanced(Canonical(Arr(items)), OUT)
  {
    JoinBalanced(ItemTexts(items), COMMA);
    EnclosedBalanced(0x5B, Join(ItemTexts(items), COMMA), 0x5D);
    CanonicalArr(items);
  }

  /** Every serialised value leaves the cursor outside, and has its bars inside strings. */
  lemma {:induction false} CanonicalBalanced(v: Json)
    ensures Balanced(Canonical(v), OUT)
  {
    match v
    case Str(text) => QuoteBalanced(text);
    case Arr(items) =>
      forall i | 0 <= i < |items|
        ensures Balanced(Canonical(items[i]), OUT)
      {
        CanonicalBalanced(items[i]);
      }
      ItemsBalanced(items);
    case Obj(fields) =>
      forall i | 0 <= i < |fields|
        ensures Balanced(Canonical(fields[i].value), OUT)
      {
        CanonicalBalanced(fields[i].value);
      }
      FieldsBalanced(fields);
    case _ => LeafBalanced(v);
  }

  lemma FieldsBalanced(fields: seq<Field>)
    requires forall i | 0 <= i < |fields| :: Balanced(Canonical(fields[i].value), OUT)
    ensures Balanced(Canonical(Obj(fields)), OUT)
  {
    var keys := Sort(KeysOf(fields));
    forall i | 0 <= i < |keys|
      ensures Balanced(FieldTexts(fields)[i], OUT)
    {
      assert FieldTexts(fields)[i] == FieldText(fields, keys[i]);
      FieldBalanced(fields, keys[i]);
    }
    JoinBalanced(FieldTexts(fields), COMMA);
    EnclosedBalanced(0x7B, Join(FieldTexts(fields), COMMA), 0x7D);
    CanonicalObj(fields);
  }

  /** Past a bar, balanced text is read from the wrong side. */
  lemma AfterBar(rest: Text, tail: Text)
    requires Balanced(tail, OUT) && BarsInside(rest + [BAR] + tail, OUT)
    ensures Scan(rest + [BAR] + tail, OUT) == IN
  {
    ScanAppend(rest + [BAR], tail, OUT);
    ScanAppend(rest, [BAR], OUT);
    var c := Scan(rest, OUT);
    assert c.inside;
    assert [BAR][1..] == [];
    assert Scan([BAR], c) == IN;
    ScanFlip(tail, OUT);
  }

  /** No balanced text ends in a bar followed by balanced text. */
  lemma NothingAfterBar(whole: Text, rest: Text, tail: Text)
    requires Balanced(whole, OUT) && Balanced(tail, OUT)
    ensures whole != rest + [BAR] + tail
  {
    if BarsInside(rest + [BAR] + tail, OUT) {
      AfterBar(rest, tail);
    }
  }
}
