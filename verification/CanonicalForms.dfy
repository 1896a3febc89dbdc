/**
 The serialised text itself, spelled out: literals, escapes, separators and brackets, and members in ascending
 order of their keys.
 */
module CanonicalForms {
  import opened CanonicalJson
  import opened Texts

  lemma LiteralsSpelled()
    ensures Canonical(Null) == Units("null") && Canonical(Absent) == Units("null") && Canonical(NonFinite) == Units("null")
    ensures Canonical(Bool(true)) == Units("true") && Canonical(Bool(false)) == Units("false")
  {
    assert "null" == ['n', 'u', 'l', 'l'] && "true" == ['t', 'r', 'u', 'e'] && "false" == ['f', 'a', 'l', 's', 'e'];
  }

  /** The escapes with a letter of their own, and a unit below a blank or without its partner as four hex digits. */
  lemma EscapesSpelled()
    ensures EscapeUnit(0x22) == Units("\\\"") && EscapeUnit(0x5C) == Units("\\\\")
    ensures EscapeUnit(0x08) == Units("\\b") && EscapeUnit(0x0C) == Units("\\f")
    ensures EscapeUnit(0x0A) == Units("\\n") && EscapeUnit(0x0D) == Units("\\r") && EscapeUnit(0x09) == Units("\\t")
  {
    assert "\\\"" == ['\\', '\"'] && "\\\\" == ['\\', '\\'];
    assert "\\b" == ['\\', 'b'] && "\\f" == ['\\', 'f'];
    assert "\\n" == ['\\', 'n'] && "\\r" == ['\\', 'r'] && "\\t" == ['\\', 't'];
  }

  /** A hex digit in lower case. */
  predicate IsHexOf(u: CodeUnit, d: nat) {
    (d < 10 && u as int == '0' as int + d) || (10 <= d < 16 && u as int == 'a' as int + (d - 10))
  }

  /** Every other unit stands for itself, or, below a blank and for half a pair, for `\u` and its four digits. */
  lemma UnitsSpelled(u: CodeUnit)
    requires u != 0x22 && u != 0x5C && !(0x08 <= u <= 0x0A) && !(0x0C <= u <= 0x0D)
    ensures 0x20 <= u < 0xD800 || 0xE000 <= u ==> EscapeUnit(u) == [u]
    ensures u < 0x20 || 0xD800 <= u < 0xE000 ==>
              var e := EscapeUnit(u);
              && |e| == 6 && e[..2] == Units("\\u")
              && IsHexOf(e[2], u / 0x1000) && IsHexOf(e[3], u / 0x100 % 16)
              && IsHexOf(e[4], u / 0x10 % 16) && IsHexOf(e[5], u % 16)
  {
    assert "\\u" == ['\\', 'u'];
  }

  /** A string: quotes around its units, each as it is escaped, and the two halves of a pair as they are. */
  lemma StringSpelled(s: Text)
    ensures Canonical(Str(s)) == Units("\"") + Escape(s) + Units("\"")
  {
    assert "\"" == ['\"'];
  }

  /** Does the text start with a whole pair? */
  predicate StartsPair(s: Text) {
    |s| > 1 && 0xD800 <= s[0] <= 0xDBFF && 0xDC00 <= s[1] <= 0xDFFF
  }

  lemma EscapeStep(s: Text)
    ensures s == [] ==> Escape(s) == []
    ensures StartsPair(s) ==> Escape(s) == s[..2] + Escape(s[2..])
    ensures s != [] && !StartsPair(s) ==> Escape(s) == EscapeUnit(s[0]) + Escape(s[1..])
  {
    if s != [] {
      assert Width(s) == if StartsPair(s) then 2 else 1;
      assert Escape(s) == Chunk(s) + Escape(s[Width(s)..]);
    }
  }

  /** Joining: nothing for no parts, the part itself for one, and a separator before each further one. */
  lemma {:induction false} JoinSpelled(parts: seq<Text>, last: Text, separator: CodeUnit)
    ensures Join([], separator) == [] && Join([last], separator) == last
    ensures parts != [] ==> Join(parts + [last], separator) == Join(parts, separator) + [separator] + last
  {
    assert [last][1..] == [];
    if parts != [] {
      TailSpelled(parts[1..], last, separator);
      assert (parts + [last])[1..] == parts[1..] + [last];
    }
  }

  lemma {:induction false} TailSpelled(parts: seq<Text>, last: Text, separator: CodeUnit)
    ensures JoinTail(parts + [last], separator) == JoinTail(parts, separator) + [separator] + last
  {
    if parts == [] {
      assert [] + [last] == [last] && [last][1..] == [];
    } else {
      TailSpelled(parts[1..], last, separator);
      assert (parts + [last])[1..] == parts[1..] + [last];
    }
  }

  lemma BracketsSpelled()
    ensures Units("[") == [0x5B] && Units("]") == [0x5D] && Units("{") == [0x7B] && Units("}") == [0x7D]
    ensures Units(",") == [COMMA] && Units(":") == [COLON] && Units(";") == [SEMICOLON]
  {
  }

  /** An array: its items in order, with commas, in brackets. */
  lemma ArraySpelled(items: seq<Json>)
    ensures Canonical(Arr(items)) == Units("[") + Join(ItemTexts(items), Units(",")[0]) + Units("]")
  {
    BracketsSpelled();
    CanonicalArr(items);
  }

  /** The member with this key: the key as a string, a colon and the value. */
  predicate IsMember(fields: seq<Field>, key: Text, member: Text) {
    exists i | 0 <= i < |fields| ::
      fields[i].key == key && member == Canonical(Str(key)) + Units(":") + Canonical(fields[i].value)
  }

  /** An object: its members in ascending order of their keys, with commas, in braces. */
  lemma ObjectSpelled(fields: seq<Field>)
    ensures var keys := Sort(KeysOf(fields));
            && Sorted(keys) && multiset(keys) == multiset(KeysOf(fields))
            && |FieldTexts(fields)| == |keys|
            && (forall i | 0 <= i < |keys| :: IsMember(fields, keys[i], FieldTexts(fields)[i]))
            && Canonical(Obj(fields)) == Units("{") + Join(FieldTexts(fields), Units(",")[0]) + Units("}")
  {
    var keys := Sort(KeysOf(fields));
    BracketsSpelled();
    CanonicalObj(fields);
    SortSorted(KeysOf(fields));
    forall i | 0 <= i < |keys|
      ensures IsMember(fields, keys[i], FieldTexts(fields)[i])
    {
      MemberIs(fields, keys[i]);
    }
  }

  lemma MemberIs(fields: seq<Field>, key: Text)
    requires key in KeysOf(fields)
    ensures IsMember(fields, key, FieldText(fields, key))
  {
    BracketsSpelled();
    var i := IndexOf(fields, key);
    assert fields[i].key == key;
  }

  /** The order of texts: code unit by code unit, and a text before those it starts. */
  lemma {:induction false} OrderSpelled(a: Text, b: Text)
    ensures AtMost(a, b) <==> a <= b || exists i :: SmallerAt(a, b, i)
  {
    if a != [] && b != [] && a[0] == b[0] {
      OrderSpelled(a[1..], b[1..]);
      assert a == [a[0]] + a[1..] && b == [b[0]] + b[1..];
      assert a <= b <==> a[1..] <= b[1..];
      if exists i :: SmallerAt(a[1..], b[1..], i) {
        var i :| SmallerAt(a[1..], b[1..], i);
        assert SmallerAt(a, b, i + 1);
      }
      if exists i :: SmallerAt(a, b, i) {
        var i :| SmallerAt(a, b, i);
        assert a[1..][..i - 1] == a[..i][1..] && b[1..][..i - 1] == b[..i][1..];
        assert SmallerAt(a[1..], b[1..], i - 1);
      }
    } else if a != [] && b != [] {
      if a[0] < b[0] {
        assert SmallerAt(a, b, 0);
      }
      forall i
        ensures SmallerAt(a, b, i) ==> i == 0
      {
        HeadsDecide(a, b, i);
      }
    }
  }

  lemma HeadsDecide(a: Text, b: Text, i: int)
    ensures SmallerAt(a, b, i) && i > 0 ==> a[0] == b[0]
  {
    if SmallerAt(a, b, i) && i > 0 {
      assert a[..i][0] == a[0] && b[..i][0] == b[0];
    }
  }

  /** Alike up to `i`, and smaller there. */
  predicate SmallerAt(a: Text, b: Text, i: int) {
    0 <= i < |a| && i < |b| && a[..i] == b[..i] && a[i] < b[i]
  }
}
