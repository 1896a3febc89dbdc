/**
 Deterministic serialisation of JSON values: object keys sorted at every level, and
 everything that is not a finite number, a boolean, a string, an array or an object written
 as null. The main result is that two values are written alike exactly when they are equal up
 to key order and that collapse, for all values, by unique decodability of the text.
 */
module CanonicalJson {
  import opened Texts

  /** The text of a finite number. Numbers stand for their numerals: two are the same when they
      print the same. */
  predicate IsNumeral(t: Text) {
    t != [] && (t[0] == 0x2D || 0x30 <= t[0] <= 0x39) && forall i | 0 <= i < |t| :: IsNumeralUnit(t[i])
  }

  predicate IsNumeralUnit(u: CodeUnit) {
    0x30 <= u <= 0x39 || u == 0x2D || u == 0x2B || u == 0x2E || u == 0x65
  }

  type Numeral = t: Text | IsNumeral(t) witness [0x30]

  /** `Absent` is undefined, a function or a symbol; `NonFinite` is NaN or an infinity. */
  datatype Json =
    | Absent
    | Null
    | NonFinite
    | Number(numeral: Numeral)
    | Bool(value: bool)
    | Str(text: Text)
    | Arr(items: seq<Json>)
    | Obj(fields: seq<Field>)

  datatype Field = Field(key: Text, value: Json)

  const NULL: Text := [0x6E, 0x75, 0x6C, 0x6C]
  const TRUE: Text := [0x74, 0x72, 0x75, 0x65]
  const FALSE: Text := [0x66, 0x61, 0x6C, 0x73, 0x65]
  const QUOTE: CodeUnit := 0x22
  const BACKSLASH: CodeUnit := 0x5C
  const COMMA: CodeUnit := 0x2C
  const COLON: CodeUnit := 0x3A
  const SEMICOLON: CodeUnit := 0x3B

  // ---------------------------------------------------------------------------
  // Strings
  // ---------------------------------------------------------------------------

  function HexUnit(d: nat): CodeUnit
    requires d < 16
  {
    if d < 10 then 0x30 + d else 0x61 + (d - 10)
  }

  function UnicodeEscape(u: CodeUnit): Text {
    [BACKSLASH, 0x75, HexUnit(u / 0x1000), HexUnit(u / 0x100 % 16), HexUnit(u / 0x10 % 16), HexUnit(u % 16)]
  }

  function EscapeUnit(u: CodeUnit): Text {
    if u == 0x08 then [BACKSLASH, 0x62]
    else if u == 0x09 then [BACKSLASH, 0x74]
    else if u == 0x0A then [BACKSLASH, 0x6E]
    else if u == 0x0C then [BACKSLASH, 0x66]
    else if u == 0x0D then [BACKSLASH, 0x72]
    else if u == QUOTE || u == BACKSLASH then [BACKSLASH, u]
    else if u < 0x20 || IsHigh(u) || IsLow(u) then UnicodeEscape(u)
    else [u]
  }

  /** How many code units make up the first character. */
  function Width(s: Text): nat
    requires s != []
  {
    if IsHigh(s[0]) && |s| > 1 && IsLow(s[1]) then 2 else 1
  }

  function Chunk(s: Text): Text
    requires s != []
  {
    if Width(s) == 2 then s[..2] else EscapeUnit(s[0])
  }

  function Escape(s: Text): Text {
    if s == [] then [] else Chunk(s) + Escape(s[Width(s)..])
  }

  /** `JSON.stringify` of a string: surrogate pairs stay, lone surrogates are escaped. */
  function Quote(s: Text): Text {
    [QUOTE] + Escape(s) + [QUOTE]
  }

  lemma HexUnitInjective(a: nat, b: nat)
    requires a < 16 && b < 16 && HexUnit(a) == HexUnit(b)
    ensures a == b
  {
  }

  lemma FourHexDigits(u: CodeUnit)
    ensures u == u / 0x1000 * 0x1000 + u / 0x100 % 16 * 0x100 + u / 0x10 % 16 * 0x10 + u % 16
  {
    assert u / 0x100 == u / 0x1000 * 16 + u / 0x100 % 16;
    assert u / 0x10 == u / 0x100 * 16 + u / 0x10 % 16;
  }

  lemma UnicodeEscapeInjective(u: CodeUnit, v: CodeUnit)
    requires UnicodeEscape(u) == UnicodeEscape(v)
    ensures u == v
  {
    var e, f := UnicodeEscape(u), UnicodeEscape(v);
    assert e[2] == f[2] && e[3] == f[3] && e[4] == f[4] && e[5] == f[5];
    HexUnitInjective(u / 0x1000, v / 0x1000);
    HexUnitInjective(u / 0x100 % 16, v / 0x100 % 16);
    HexUnitInjective(u / 0x10 % 16, v / 0x10 % 16);
    HexUnitInjective(u % 16, v % 16);
    FourHexDigits(u);
    FourHexDigits(v);
  }

  /** No chunk starts like a closing quote, and chunks can be told apart reading onwards. */
  lemma ChunkUnique(s: Text, t: Text, x: Text, y: Text)
    requires s != [] && t != [] && Chunk(s) + x == Chunk(t) + y
    ensures Width(s) == Width(t) && s[..Width(s)] == t[..Width(t)] && x == y
  {
    var c, d := Chunk(s), Chunk(t);
    var whole := c + x;
    assert whole == d + y;
    assert whole[0] == c[0] == d[0];
    assert |c| >= 2 ==> whole[1] == c[1];
    assert |d| >= 2 ==> whole[1] == d[1];
    assert |c| == |d|;
    assert c == whole[..|c|] && d == whole[..|d|];
    assert x == whole[|c|..] && y == whole[|d|..];
    if Width(s) == 1 {
      if c[0] == BACKSLASH && c[1] == 0x75 {
        UnicodeEscapeInjective(s[0], t[0]);
      }
      assert s[..1] == [s[0]] && t[..1] == [t[0]];
    }
  }

  lemma EscapeHead(s: Text, x: Text)
    ensures var l := Escape(s) + [QUOTE] + x;
            && (l[0] == QUOTE <==> s == [])
            && (s == [] ==> l == [QUOTE] + x)
            && (s != [] ==> l == Chunk(s) + (Escape(s[Width(s)..]) + [QUOTE] + x))
  {
    if s == [] {
      assert Escape(s) + [QUOTE] + x == [QUOTE] + x;
    } else {
      ChunkSplit(Chunk(s), Escape(s[Width(s)..]), x);
    }
  }

  lemma ChunkSplit(chunk: Text, rest: Text, x: Text)
    requires chunk != []
    ensures chunk + rest + [QUOTE] + x == chunk + (rest + [QUOTE] + x)
    ensures (chunk + rest + [QUOTE] + x)[0] == chunk[0]
  {
  }

  lemma {:induction false} EscapeUnique(s: Text, t: Text, x: Text, y: Text)
    requires Escape(s) + [QUOTE] + x == Escape(t) + [QUOTE] + y
    ensures s == t && x == y
    decreases |s|
  {
    EscapeHead(s, x);
    EscapeHead(t, y);
    if s == [] {
      assert x == ([QUOTE] + x)[1..] && y == ([QUOTE] + y)[1..];
    } else {
      var s', t' := s[Width(s)..], t[Width(t)..];
      ChunkUnique(s, t, Escape(s') + [QUOTE] + x, Escape(t') + [QUOTE] + y);
      EscapeUnique(s', t', x, y);
      assert s == s[..Width(s)] + s' && t == t[..Width(t)] + t';
    }
  }

  lemma QuoteUnique(s: Text, t: Text, x: Text, y: Text)
    requires Quote(s) + x == Quote(t) + y
    ensures s == t && x == y
  {
    var l, r := Quote(s) + x, Quote(t) + y;
    assert l[1..] == Escape(s) + [QUOTE] + x && r[1..] == Escape(t) + [QUOTE] + y;
    EscapeUnique(s, t, x, y);
  }

  // ---------------------------------------------------------------------------
  // Values
  // ---------------------------------------------------------------------------

  function KeysOf(fields: seq<Field>): (r: seq<Text>)
    ensures |r| == |fields|
    ensures forall i | 0 <= i < |r| :: r[i] == fields[i].key
  {
    seq(|fields|, i requires 0 <= i < |fields| => fields[i].key)
  }

  function IndexOf(fields: seq<Field>, key: Text): (i: nat)
    requires key in KeysOf(fields)
    ensures i < |fields| && fields[i].key == key
  {
    if fields[0].key == key then 0
    else
      assert KeysOf(fields)[1..] == KeysOf(fields[1..]);
      1 + IndexOf(fields[1..], key)
  }

  predicate DistinctKeys(fields: seq<Field>) {
    forall i, j | 0 <= i < j < |fields| :: fields[i].key != fields[j].key
  }

  /** No object has the same key twice. */
  predicate WellFormed(v: Json) {
    match v
    case Arr(items) => forall i | 0 <= i < |items| :: WellFormed(items[i])
    case Obj(fields) => DistinctKeys(fields) && forall i | 0 <= i < |fields| :: WellFormed(fields[i].value)
    case _ => true
  }

  lemma SortedKeys(fields: seq<Field>)
    ensures forall i | 0 <= i < |Sort(KeysOf(fields))| :: Sort(KeysOf(fields))[i] in KeysOf(fields)
  {
    var keys := Sort(KeysOf(fields));
    forall i | 0 <= i < |keys|
      ensures keys[i] in KeysOf(fields)
    {
      assert keys[i] in multiset(keys);
    }
  }

  function Canonical(v: Json): Text {
    match v
    case Absent => NULL
    case Null => NULL
    case NonFinite => NULL
    case Number(numeral) => numeral
    case Bool(b) => if b then TRUE else FALSE
    case Str(text) => Quote(text)
    case Arr(items) =>
      [0x5B] + Join(seq(|items|, i requires 0 <= i < |items| => Canonical(items[i])), COMMA) + [0x5D]
    case Obj(fields) =>
      var keys := Sort(KeysOf(fields));
      SortedKeys(fields);
      [0x7B]
      + Join(seq(|keys|, i requires 0 <= i < |keys| =>
                   Quote(keys[i]) + [COLON] + Canonical(fields[IndexOf(fields, keys[i])].value)), COMMA)
      + [0x7D]
  }

  function ItemTexts(items: seq<Json>): (r: seq<Text>)
    ensures |r| == |items| && forall i | 0 <= i < |r| :: r[i] == Canonical(items[i])
  {
    seq(|items|, i requires 0 <= i < |items| => Canonical(items[i]))
  }

  function FieldText(fields: seq<Field>, key: Text): Text
    requires key in KeysOf(fields)
  {
    Quote(key) + [COLON] + Canonical(fields[IndexOf(fields, key)].value)
  }

  function FieldTexts(fields: seq<Field>): (r: seq<Text>)
    ensures var keys := Sort(KeysOf(fields));
            |r| == |keys| && forall i | 0 <= i < |r| :: keys[i] in KeysOf(fields) && r[i] == FieldText(fields, keys[i])
  {
    var keys := Sort(KeysOf(fields));
    SortedKeys(fields);
    seq(|keys|, i requires 0 <= i < |keys| => FieldText(fields, keys[i]))
  }

  lemma CanonicalArr(items: seq<Json>)
    ensures Canonical(Arr(items)) == [0x5B] + Join(ItemTexts(items), COMMA) + [0x5D]
  {
    assert ItemTexts(items) == seq(|items|, i requires 0 <= i < |items| => Canonical(items[i]));
  }

  lemma CanonicalObj(fields: seq<Field>)
    ensures Canonical(Obj(fields)) == [0x7B] + Join(FieldTexts(fields), COMMA) + [0x7D]
  {
    var keys := Sort(KeysOf(fields));
    SortedKeys(fields);
    assert FieldTexts(fields) == seq(|keys|, i requires 0 <= i < |keys| =>
      Quote(keys[i]) + [COLON] + Canonical(fields[IndexOf(fields, keys[i])].value));
  }

  // ---------------------------------------------------------------------------
  // Equality up to key order and collapse
  // ---------------------------------------------------------------------------

  predicate NullLike(v: Json) {
    v.Absent? || v.Null? || v.NonFinite?
  }

  predicate SameKeys(f: seq<Field>, g: seq<Field>) {
    (forall i | 0 <= i < |f| :: f[i].key in KeysOf(g)) && (forall j | 0 <= j < |g| :: g[j].key in KeysOf(f))
  }

  predicate Equivalent(v: Json, w: Json) {
    match v
    case Number(n) => w == v
    case Bool(b) => w == v
    case Str(t) => w == v
    case Arr(items) =>
      w.Arr? && |items| == |w.items| && forall i | 0 <= i < |items| :: Equivalent(items[i], w.items[i])
    case Obj(fields) =>
      w.Obj? && SameKeys(fields, w.fields)
      && forall i | 0 <= i < |fields| :: Equivalent(fields[i].value, w.fields[IndexOf(w.fields, fields[i].key)].value)
    case _ => NullLike(w)
  }

  // ---------------------------------------------------------------------------
  // Unique decodability
  // ---------------------------------------------------------------------------

  /** What can follow a value: nothing, or something that cannot continue a numeral. */
  predicate Ends(x: Text) {
    x == [] || !IsNumeralUnit(x[0])
  }

  predicate Closes(x: Text) {
    x == [] || x[0] == 0x5D || x[0] == 0x7D
  }

  predicate Opens(p: Text) {
    p != [] && p[0] != 0x5D && p[0] != 0x7D
  }

  predicate IsSeparator(u: CodeUnit) {
    u == COMMA || u == SEMICOLON
  }

  /** Whatever follows, the two parts can only be read alike when they are the same. */
  ghost predicate ReadApart(p: Text, q: Text) {
    forall x, y {:trigger p + x, q + y} | Ends(x) && Ends(y) && p + x == q + y :: p == q && x == y
  }

  lemma SplitsAlike(p: Text, q: Text, x: Text, y: Text)
    requires ReadApart(p, q) && Ends(x) && Ends(y) && p + x == q + y
    ensures p == q && x == y
  {
  }

  lemma TailHead(ps: seq<Text>, separator: CodeUnit, x: Text)
    requires IsSeparator(separator) && Closes(x)
    ensures var l := JoinTail(ps, separator) + x;
            && Ends(l)
            && (ps == [] ==> l == x)
            && (ps != [] ==> l == [separator] + (ps[0] + (JoinTail(ps[1..], separator) + x)))
  {
    if ps != [] {
      TailSplit(separator, ps[0], JoinTail(ps[1..], separator), x);
    } else {
      assert JoinTail(ps, separator) + x == x;
    }
  }

  lemma TailSplit(separator: CodeUnit, p: Text, rest: Text, x: Text)
    ensures [separator] + p + rest + x == [separator] + (p + (rest + x))
    ensures ([separator] + p + rest + x)[0] == separator
  {
  }

  lemma TailsApart(ps: seq<Text>, qs: seq<Text>)
    requires ps != [] && qs != []
    requires forall i | 0 <= i < |ps| && i < |qs| :: ReadApart(ps[i], qs[i])
    ensures forall i | 0 <= i < |ps[1..]| && i < |qs[1..]| :: ReadApart(ps[1..][i], qs[1..][i])
  {
    forall i | 0 <= i < |ps[1..]| && i < |qs[1..]|
      ensures ReadApart(ps[1..][i], qs[1..][i])
    {
      assert ReadApart(ps[i + 1], qs[i + 1]);
    }
  }

  lemma {:induction false} JoinTailUnique(ps: seq<Text>, qs: seq<Text>, separator: CodeUnit, x: Text, y: Text)
    requires IsSeparator(separator) && Closes(x) && Closes(y)
    requires JoinTail(ps, separator) + x == JoinTail(qs, separator) + y
    requires forall i | 0 <= i < |ps| && i < |qs| :: ReadApart(ps[i], qs[i])
    ensures ps == qs && x == y
  {
    TailHead(ps, separator, x);
    TailHead(qs, separator, y);
    if ps != [] && qs != [] {
      var l, r := ps[0] + (JoinTail(ps[1..], separator) + x), qs[0] + (JoinTail(qs[1..], separator) + y);
      assert l == ([separator] + l)[1..] && r == ([separator] + r)[1..];
      TailHead(ps[1..], separator, x);
      TailHead(qs[1..], separator, y);
      assert ReadApart(ps[0], qs[0]);
      SplitsAlike(ps[0], qs[0], JoinTail(ps[1..], separator) + x, JoinTail(qs[1..], separator) + y);
      TailsApart(ps, qs);
      JoinTailUnique(ps[1..], qs[1..], separator, x, y);
      assert ps == [ps[0]] + ps[1..] && qs == [qs[0]] + qs[1..];
    }
  }

  lemma JoinUnique(ps: seq<Text>, qs: seq<Text>, separator: CodeUnit, x: Text, y: Text)
    requires IsSeparator(separator) && Closes(x) && Closes(y)
    requires Join(ps, separator) + x == Join(qs, separator) + y
    requires forall i | 0 <= i < |ps| && i < |qs| :: ReadApart(ps[i], qs[i])
    requires (forall i | 0 <= i < |ps| :: Opens(ps[i])) && (forall i | 0 <= i < |qs| :: Opens(qs[i]))
    ensures ps == qs && x == y
  {
    JoinHead(ps, separator, x);
    JoinHead(qs, separator, y);
    if ps != [] && qs != [] {
      TailHead(ps[1..], separator, x);
      TailHead(qs[1..], separator, y);
      assert ReadApart(ps[0], qs[0]);
      SplitsAlike(ps[0], qs[0], JoinTail(ps[1..], separator) + x, JoinTail(qs[1..], separator) + y);
      TailsApart(ps, qs);
      JoinTailUnique(ps[1..], qs[1..], separator, x, y);
      assert ps == [ps[0]] + ps[1..] && qs == [qs[0]] + qs[1..];
    }
  }

  lemma JoinHead(ps: seq<Text>, separator: CodeUnit, x: Text)
    requires Closes(x) && forall i | 0 <= i < |ps| :: Opens(ps[i])
    ensures var l := Join(ps, separator) + x;
            && (ps == [] ==> l == x)
            && (ps != [] ==> l == ps[0] + (JoinTail(ps[1..], separator) + x) && Opens(l))
            && (ps != [] <==> Opens(l))
  {
    if ps == [] {
      assert Join(ps, separator) + x == x;
    } else {
      assert Join(ps, separator) + x == ps[0] + (JoinTail(ps[1..], separator) + x);
      assert Opens(ps[0]);
    }
  }

  /** The first code unit tells what kind of value was written. */
  lemma Lead(v: Json)
    ensures Canonical(v) != [] && Opens(Canonical(v))
    ensures var u := Canonical(v)[0];
            && (u == 0x6E <==> NullLike(v))
            && (u == 0x74 <==> v == Bool(true))
            && (u == 0x66 <==> v == Bool(false))
            && (u == QUOTE <==> v.Str?)
            && (u == 0x5B <==> v.Arr?)
            && (u == 0x7B <==> v.Obj?)
  {
    match v
    case Arr(items) => CanonicalArr(items);
    case Obj(fields) => CanonicalObj(fields);
    case _ =>
  }

  /** The length of the longest numeral-like start. */
  function NumeralRun(l: Text): nat {
    if l == [] || !IsNumeralUnit(l[0]) then 0 else 1 + NumeralRun(l[1..])
  }

  lemma {:induction false} NumeralIsRun(a: Text, x: Text)
    requires (forall i | 0 <= i < |a| :: IsNumeralUnit(a[i])) && Ends(x)
    ensures NumeralRun(a + x) == |a|
  {
    if a == [] {
      assert a + x == x;
    } else {
      NumeralIsRun(a[1..], x);
      assert (a + x)[1..] == a[1..] + x;
    }
  }

  lemma NumeralUnique(a: Numeral, b: Numeral, x: Text, y: Text)
    requires a + x == b + y && Ends(x) && Ends(y)
    ensures a == b && x == y
  {
    NumeralIsRun(a, x);
    NumeralIsRun(b, y);
    var l := a + x;
    assert a == l[..|a|] && b == (b + y)[..|b|] && x == l[|a|..] && y == (b + y)[|b|..];
  }

  lemma {:induction false} CanonicalUnique(v: Json, w: Json, x: Text, y: Text)
    requires WellFormed(v) && WellFormed(w)
    requires Ends(x) && Ends(y) && Canonical(v) + x == Canonical(w) + y
    ensures Equivalent(v, w) && Canonical(v) == Canonical(w) && x == y
    decreases v, 1
  {
    Lead(v);
    Lead(w);
    var l, r := Canonical(v) + x, Canonical(w) + y;
    assert l[0] == Canonical(v)[0] && r[0] == Canonical(w)[0];
    match v
    case Number(n) =>
      NumeralUnique(n, w.numeral, x, y);
    case Str(t) =>
      QuoteUnique(t, w.text, x, y);
    case Arr(items) =>
      ArrUnique(items, w.items, x, y);
    case Obj(fields) =>
      ObjUnique(fields, w.fields, x, y);
    case _ =>
      assert Canonical(v) == Canonical(w);
      assert x == l[|Canonical(v)|..] && y == r[|Canonical(w)|..];
  }

  lemma {:induction false} ReadApartValues(v: Json, w: Json)
    requires WellFormed(v) && WellFormed(w)
    ensures ReadApart(Canonical(v), Canonical(w))
    decreases v, 2
  {
    forall x, y | Ends(x) && Ends(y) && Canonical(v) + x == Canonical(w) + y
      ensures Canonical(v) == Canonical(w) && x == y
    {
      CanonicalUnique(v, w, x, y);
    }
  }

  lemma {:induction false} ArrUnique(items: seq<Json>, others: seq<Json>, x: Text, y: Text)
    requires WellFormed(Arr(items)) && WellFormed(Arr(others))
    requires Canonical(Arr(items)) + x == Canonical(Arr(others)) + y
    ensures Equivalent(Arr(items), Arr(others)) && Canonical(Arr(items)) == Canonical(Arr(others)) && x == y
    decreases items
  {
    var ps, qs := ItemTexts(items), ItemTexts(others);
    CanonicalArr(items);
    CanonicalArr(others);
    Unwrap(0x5B, Join(ps, COMMA), 0x5D, x, Join(qs, COMMA), y);
    forall i | 0 <= i < |items| && i < |others|
      ensures ReadApart(ps[i], qs[i])
    {
      ReadApartValues(items[i], others[i]);
    }
    PartsOpen(items);
    PartsOpen(others);
    JoinUnique(ps, qs, COMMA, [0x5D] + x, [0x5D] + y);
    assert x == ([0x5D] + x)[1..] && y == ([0x5D] + y)[1..];
    forall i | 0 <= i < |items|
      ensures Equivalent(items[i], others[i])
    {
      assert ps[i] == qs[i];
      assert Canonical(items[i]) + [] == Canonical(others[i]) + [];
      CanonicalUnique(items[i], others[i], [], []);
    }
  }

  lemma Unwrap(open: CodeUnit, a: Text, close: CodeUnit, x: Text, b: Text, y: Text)
    requires ([open] + a + [close]) + x == ([open] + b + [close]) + y
    ensures a + ([close] + x) == b + ([close] + y)
  {
    var l, r := ([open] + a + [close]) + x, ([open] + b + [close]) + y;
    assert l[1..] == a + ([close] + x) && r[1..] == b + ([close] + y);
  }

  lemma PartsOpen(items: seq<Json>)
    ensures forall i | 0 <= i < |items| :: Opens(ItemTexts(items)[i])
  {
    forall i | 0 <= i < |items|
      ensures Opens(ItemTexts(items)[i])
    {
      Lead(items[i]);
    }
  }

  lemma MemberSplit(k: Text, v: Text, x: Text, m: Text, w: Text, y: Text)
    requires (Quote(k) + [COLON] + v) + x == (Quote(m) + [COLON] + w) + y
    ensures k == m && v + x == w + y
  {
    var q, r := Quote(k), Quote(m);
    var l, n := [COLON] + (v + x), [COLON] + (w + y);
    assert (q + [COLON] + v) + x == q + l;
    assert (r + [COLON] + w) + y == r + n;
    QuoteUnique(k, m, l, n);
    assert l[1..] == v + x && n[1..] == w + y;
  }

  lemma {:induction false} ReadApartFields(f: seq<Field>, k: Text, g: seq<Field>, m: Text)
    requires WellFormed(Obj(f)) && WellFormed(Obj(g))
    requires k in KeysOf(f) && m in KeysOf(g)
    ensures ReadApart(FieldText(f, k), FieldText(g, m))
    decreases f, 0
  {
    var i, j := IndexOf(f, k), IndexOf(g, m);
    forall x, y | Ends(x) && Ends(y) && FieldText(f, k) + x == FieldText(g, m) + y
      ensures FieldText(f, k) == FieldText(g, m) && x == y
    {
      MemberSplit(k, Canonical(f[i].value), x, m, Canonical(g[j].value), y);
      CanonicalUnique(f[i].value, g[j].value, x, y);
    }
  }

  lemma FieldsOpen(fields: seq<Field>)
    ensures forall i | 0 <= i < |FieldTexts(fields)| :: Opens(FieldTexts(fields)[i])
  {
    assert forall i | 0 <= i < |FieldTexts(fields)| :: FieldTexts(fields)[i][0] == QUOTE;
  }

  lemma {:induction false} ObjUnique(fields: seq<Field>, others: seq<Field>, x: Text, y: Text)
    requires WellFormed(Obj(fields)) && WellFormed(Obj(others))
    requires Canonical(Obj(fields)) + x == Canonical(Obj(others)) + y
    ensures Equivalent(Obj(fields), Obj(others)) && Canonical(Obj(fields)) == Canonical(Obj(others)) && x == y
    decreases fields, 1
  {
    var ps, qs := FieldTexts(fields), FieldTexts(others);
    CanonicalObj(fields);
    CanonicalObj(others);
    Unwrap(0x7B, Join(ps, COMMA), 0x7D, x, Join(qs, COMMA), y);
    var ks, ms := Sort(KeysOf(fields)), Sort(KeysOf(others));
    forall i | 0 <= i < |ps| && i < |qs|
      ensures ReadApart(ps[i], qs[i])
    {
      ReadApartFields(fields, ks[i], others, ms[i]);
    }
    FieldsOpen(fields);
    FieldsOpen(others);
    JoinUnique(ps, qs, COMMA, [0x7D] + x, [0x7D] + y);
    assert x == ([0x7D] + x)[1..] && y == ([0x7D] + y)[1..];
    FieldsEquivalent(fields, others);
  }

  lemma {:induction false} FieldsEquivalent(fields: seq<Field>, others: seq<Field>)
    requires WellFormed(Obj(fields)) && WellFormed(Obj(others))
    requires FieldTexts(fields) == FieldTexts(others)
    ensures Equivalent(Obj(fields), Obj(others))
    decreases fields, 0
  {
    SameKeysWritten(fields, others);
    forall i | 0 <= i < |fields|
      ensures Equivalent(fields[i].value, others[IndexOf(others, fields[i].key)].value)
    {
      SameValueWritten(fields, others, i);
      var v, w := fields[i].value, others[IndexOf(others, fields[i].key)].value;
      assert Canonical(v) + [] == Canonical(w) + [];
      CanonicalUnique(v, w, [], []);
    }
  }

  lemma TextAt(fields: seq<Field>, i: nat)
    requires i < |fields|
    ensures Sort(KeysOf(fields))[i] in KeysOf(fields)
    ensures FieldTexts(fields)[i] == FieldText(fields, Sort(KeysOf(fields))[i])
  {
    var r, keys := FieldTexts(fields), Sort(KeysOf(fields));
    assert |r| == |keys| == |fields|;
    assert keys[i] in KeysOf(fields) && r[i] == FieldText(fields, keys[i]);
  }

  lemma SortedAlike(a: seq<Text>, b: seq<Text>, t: Text)
    requires Sort(a) == Sort(b)
    ensures t in a <==> t in b
  {
    assert t in a <==> t in multiset(Sort(a));
    assert t in b <==> t in multiset(Sort(b));
  }

  lemma SameKeysWritten(fields: seq<Field>, others: seq<Field>)
    requires FieldTexts(fields) == FieldTexts(others)
    ensures SameKeys(fields, others)
  {
    SameSortWritten(fields, others);
    forall i | 0 <= i < |fields|
      ensures fields[i].key in KeysOf(others)
    {
      assert KeysOf(fields)[i] in KeysOf(fields);
      SortedAlike(KeysOf(fields), KeysOf(others), fields[i].key);
    }
    forall j | 0 <= j < |others|
      ensures others[j].key in KeysOf(fields)
    {
      assert KeysOf(others)[j] in KeysOf(others);
      SortedAlike(KeysOf(fields), KeysOf(others), others[j].key);
    }
  }

  lemma SameSortWritten(fields: seq<Field>, others: seq<Field>)
    requires FieldTexts(fields) == FieldTexts(others)
    ensures Sort(KeysOf(fields)) == Sort(KeysOf(others))
  {
    var ks, ms := Sort(KeysOf(fields)), Sort(KeysOf(others));
    assert |ks| == |FieldTexts(fields)| && |ms| == |FieldTexts(others)|;
    forall i | 0 <= i < |ks|
      ensures ks[i] == ms[i]
    {
      TextAt(fields, i);
      TextAt(others, i);
      SameFieldText(fields, ks[i], others, ms[i]);
    }
  }

  lemma KeyPosition(fields: seq<Field>, i: nat)
    requires DistinctKeys(fields) && i < |fields|
    ensures fields[i].key in KeysOf(fields) && IndexOf(fields, fields[i].key) == i
  {
    assert KeysOf(fields)[i] == fields[i].key;
  }

  lemma SameValueWritten(fields: seq<Field>, others: seq<Field>, i: nat)
    requires DistinctKeys(fields) && FieldTexts(fields) == FieldTexts(others) && i < |fields|
    ensures fields[i].key in KeysOf(others)
    ensures Canonical(fields[i].value) == Canonical(others[IndexOf(others, fields[i].key)].value)
  {
    KeyPosition(fields, i);
    SameSortWritten(fields, others);
    var key, ks := fields[i].key, Sort(KeysOf(fields));
    assert key in multiset(ks);
    var j :| 0 <= j < |ks| && ks[j] == key;
    TextAt(fields, j);
    TextAt(others, j);
    SameFieldText(fields, key, others, key);
  }

  lemma SameFieldText(f: seq<Field>, k: Text, g: seq<Field>, m: Text)
    requires k in KeysOf(f) && m in KeysOf(g) && FieldText(f, k) == FieldText(g, m)
    ensures k == m && Canonical(f[IndexOf(f, k)].value) == Canonical(g[IndexOf(g, k)].value)
  {
    var v, w := Canonical(f[IndexOf(f, k)].value), Canonical(g[IndexOf(g, m)].value);
    MemberSplit(k, v, [], m, w, []);
    assert v + [] == v && w + [] == w;
  }

  // ---------------------------------------------------------------------------
  // The converse
  // ---------------------------------------------------------------------------

  lemma OneMore(rest: seq<Text>, first: Text, key: Text)
    ensures multiset([first] + rest)[key] == multiset(rest)[key] + if key == first then 1 else 0
    ensures key in [first] + rest <==> key == first || key in rest
  {
  }

  lemma DistinctMultiset(f: seq<Field>, key: Text)
    requires DistinctKeys(f)
    ensures multiset(KeysOf(f))[key] == if key in KeysOf(f) then 1 else 0
  {
    if f == [] {
    } else {
      var rest := KeysOf(f)[1..];
      assert rest == KeysOf(f[1..]);
      assert KeysOf(f) == [f[0].key] + rest;
      DistinctMultiset(f[1..], key);
      OneMore(rest, f[0].key, key);
      if key == f[0].key {
        assert forall i | 0 <= i < |rest| :: rest[i] == f[i + 1].key;
      }
    }
  }

  lemma SameKeysSameSort(f: seq<Field>, g: seq<Field>)
    requires DistinctKeys(f) && DistinctKeys(g) && SameKeys(f, g)
    ensures Sort(KeysOf(f)) == Sort(KeysOf(g))
  {
    forall key
      ensures multiset(KeysOf(f))[key] == multiset(KeysOf(g))[key]
    {
      DistinctMultiset(f, key);
      DistinctMultiset(g, key);
      if key in KeysOf(f) {
        var i :| 0 <= i < |f| && KeysOf(f)[i] == key;
        assert f[i].key in KeysOf(g);
      }
      if key in KeysOf(g) {
        var j :| 0 <= j < |g| && KeysOf(g)[j] == key;
        assert g[j].key in KeysOf(f);
      }
    }
    assert multiset(KeysOf(f)) == multiset(KeysOf(g));
    SortEqualIff(KeysOf(f), KeysOf(g));
  }

  lemma {:induction false} EquivalentCanonical(v: Json, w: Json)
    requires WellFormed(v) && WellFormed(w) && Equivalent(v, w)
    ensures Canonical(v) == Canonical(w)
    decreases v
  {
    match v
    case Arr(items) =>
      forall i | 0 <= i < |items|
        ensures Canonical(items[i]) == Canonical(w.items[i])
      {
        EquivalentCanonical(items[i], w.items[i]);
      }
      assert ItemTexts(items) == ItemTexts(w.items);
      CanonicalArr(items);
      CanonicalArr(w.items);
    case Obj(fields) =>
      SameKeysSameSort(fields, w.fields);
      SortedKeys(fields);
      var keys := Sort(KeysOf(fields));
      forall i | 0 <= i < |keys|
        ensures FieldTexts(fields)[i] == FieldTexts(w.fields)[i]
      {
        var j := IndexOf(fields, keys[i]);
        EquivalentCanonical(fields[j].value, w.fields[IndexOf(w.fields, fields[j].key)].value);
      }
      assert FieldTexts(fields) == FieldTexts(w.fields);
      CanonicalObj(fields);
      CanonicalObj(w.fields);
    case _ =>
  }

  /**
   Main result: two values are serialised to the same text exactly when they are equal up to the
   order of object keys, with everything that has no JSON form counted as null.
   */
  lemma CanonicalEqualIff(v: Json, w: Json)
    requires WellFormed(v) && WellFormed(w)
    ensures Canonical(v) == Canonical(w) <==> Equivalent(v, w)
  {
    if Canonical(v) == Canonical(w) {
      assert Canonical(v) + [] == Canonical(w) + [];
      CanonicalUnique(v, w, [], []);
    }
    if Equivalent(v, w) {
      EquivalentCanonical(v, w);
    }
  }
}
