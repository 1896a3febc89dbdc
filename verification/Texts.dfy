/**
 Text as the sources see it: sequences of UTF-16 code units, with the order and the sort that
 `Array.prototype.sort` uses by default, and joining with a separator.
 */
module Texts {
  type CodeUnit = u: nat | u < 0x1_0000

  type Text = seq<CodeUnit>

  /** The code units of a literal. */
  function Units(s: string): (t: Text)
    ensures |t| == |s|
  {
    seq(|s|, i requires 0 <= i < |s| => s[i] as int % 0x1_0000)
  }

  predicate IsHigh(u: CodeUnit) {
    0xD800 <= u <= 0xDBFF
  }

  predicate IsLow(u: CodeUnit) {
    0xDC00 <= u <= 0xDFFF
  }

  /** White space and line ends, as `trim` and `\s` count them. */
  predicate IsWhite(u: nat) {
    0x09 <= u <= 0x0D || u == 0x20 || u == 0xA0 || u == 0x1680 || 0x2000 <= u <= 0x200A
    || u == 0x2028 || u == 0x2029 || u == 0x202F || u == 0x205F || u == 0x3000 || u == 0xFEFF
  }

  /** Code unit by code unit; a proper prefix comes first. */
  predicate AtMost(a: Text, b: Text) {
    a == [] || (b != [] && (a[0] < b[0] || (a[0] == b[0] && AtMost(a[1..], b[1..]))))
  }

  lemma {:induction false} AtMostTotal(a: Text, b: Text)
    ensures AtMost(a, b) || AtMost(b, a)
  {
    if a != [] && b != [] {
      AtMostTotal(a[1..], b[1..]);
    }
  }

  lemma {:induction false} AtMostTransitive(a: Text, b: Text, c: Text)
    requires AtMost(a, b) && AtMost(b, c)
    ensures AtMost(a, c)
  {
    if a != [] && a[0] == b[0] && b[0] == c[0] {
      AtMostTransitive(a[1..], b[1..], c[1..]);
    }
  }

  lemma {:induction false} AtMostAntisymmetric(a: Text, b: Text)
    requires AtMost(a, b) && AtMost(b, a)
    ensures a == b
  {
    if a != [] {
      AtMostAntisymmetric(a[1..], b[1..]);
      assert a == [a[0]] + a[1..] && b == [b[0]] + b[1..];
    }
  }

  predicate Sorted(s: seq<Text>) {
    forall i, j | 0 <= i < j < |s| :: AtMost(s[i], s[j])
  }

  function Insert(s: seq<Text>, t: Text): (r: seq<Text>)
    ensures multiset(r) == multiset(s) + multiset{t}
    ensures |r| == |s| + 1
  {
    if s == [] then [t]
    else if AtMost(t, s[0]) then [t] + s
    else
      assert s == [s[0]] + s[1..];
      [s[0]] + Insert(s[1..], t)
  }

  /** `s.sort()` */
  function Sort(s: seq<Text>): (r: seq<Text>)
    ensures multiset(r) == multiset(s)
    ensures |r| == |s|
  {
    if s == [] then []
    else
      assert s == s[..|s| - 1] + [s[|s| - 1]];
      Insert(Sort(s[..|s| - 1]), s[|s| - 1])
  }

  lemma {:induction false} InsertSorted(s: seq<Text>, t: Text)
    requires Sorted(s)
    ensures Sorted(Insert(s, t))
  {
    if s != [] {
      var r := Insert(s[1..], t);
      if AtMost(t, s[0]) {
        forall j | 0 <= j < |s|
          ensures AtMost(t, s[j])
        {
          if j > 0 {
            AtMostTransitive(t, s[0], s[j]);
          }
        }
      } else {
        InsertSorted(s[1..], t);
        AtMostTotal(t, s[0]);
        forall j | 0 <= j < |r|
          ensures AtMost(s[0], r[j])
        {
          assert r[j] in multiset(r);
          assert r[j] == t || r[j] in s[1..];
        }
      }
    }
  }

  lemma {:induction false} SortSorted(s: seq<Text>)
    ensures Sorted(Sort(s))
  {
    if s != [] {
      SortSorted(s[..|s| - 1]);
      InsertSorted(Sort(s[..|s| - 1]), s[|s| - 1]);
    }
  }

  lemma FirstIsLeast(a: seq<Text>, t: Text)
    requires Sorted(a) && t in a
    ensures AtMost(a[0], t)
  {
    AtMostTotal(t, t);
  }

  lemma SameFirst(a: seq<Text>, b: seq<Text>)
    requires Sorted(a) && Sorted(b) && multiset(a) == multiset(b) && a != []
    ensures b != [] && a[0] == b[0]
  {
    assert a[0] in multiset(b);
    assert b[0] in multiset(a);
    FirstIsLeast(a, b[0]);
    FirstIsLeast(b, a[0]);
    AtMostAntisymmetric(a[0], b[0]);
  }

  /** A multiset of texts has one sorted listing. */
  lemma {:induction false} SortedUnique(a: seq<Text>, b: seq<Text>)
    requires Sorted(a) && Sorted(b) && multiset(a) == multiset(b)
    ensures a == b
  {
    if a == [] {
      assert |multiset(b)| == 0;
    } else {
      SameFirst(a, b);
      assert a == [a[0]] + a[1..] && b == [b[0]] + b[1..];
      assert multiset(a[1..]) == multiset(a) - multiset{a[0]};
      assert multiset(b[1..]) == multiset(b) - multiset{b[0]};
      SortedUnique(a[1..], b[1..]);
    }
  }

  /** Sorting forgets exactly the order. */
  lemma SortEqualIff(a: seq<Text>, b: seq<Text>)
    ensures Sort(a) == Sort(b) <==> multiset(a) == multiset(b)
  {
    SortSorted(a);
    SortSorted(b);
    if multiset(a) == multiset(b) {
      SortedUnique(Sort(a), Sort(b));
    }
  }

  // ---------------------------------------------------------------------------
  // Joining
  // ---------------------------------------------------------------------------

  function JoinTail(parts: seq<Text>, separator: CodeUnit): Text {
    if parts == [] then [] else [separator] + parts[0] + JoinTail(parts[1..], separator)
  }

  /** `parts.join(separator)` */
  function Join(parts: seq<Text>, separator: CodeUnit): Text {
    if parts == [] then [] else parts[0] + JoinTail(parts[1..], separator)
  }
}
