/**
 Reading a scalar of an AuthorizationList: the field with a given context tag, in either of its two
 wire shapes, and the unsigned big-endian number in its octets.
 */
module TaggedFields {
  import opened Numerals
  import opened Options

  /** A parsed ASN.1 node. The parser shows octets as a view or as a plain buffer, and either may be
      missing; children are those of a constructed node. */
  datatype Node = Node(
    tagClass: nat, tagNumber: nat, constructed: bool, children: seq<Node>,
    hexView: Option<seq<Byte>>, hex: Option<seq<Byte>>)

  const UNIVERSAL: nat := 1
  const CONTEXT: nat := 3
  const INTEGER: nat := 2
  const ENUMERATED: nat := 10

  predicate HasTag(n: Node, tagClass: nat, tagNumber: nat) {
    n.tagClass == tagClass && n.tagNumber == tagNumber
  }

  /** The octets as the code takes them: from the view unless that is missing or empty. */
  function Octets(n: Node): seq<Byte> {
    if n.hexView.Some? && n.hexView.value != [] then n.hexView.value else n.hex.GetOr([])
  }

  /** The first field of the list with this context tag. */
  ghost predicate IsFirst(fields: seq<Node>, tagNumber: nat, n: Node) {
    exists i | 0 <= i < |fields| ::
      && fields[i] == n && HasTag(n, 3, tagNumber)
      && forall j | 0 <= j < i :: !HasTag(fields[j], 3, tagNumber)
  }

  method FindTaggedField(fields: seq<Node>, tagNumber: nat) returns (r: Option<Node>)
    ensures r.None? <==> forall n | n in fields :: !HasTag(n, 3, tagNumber)
    ensures r.Some? ==> IsFirst(fields, tagNumber, r.value)
  {
    var i := 0;
    while i < |fields|
      invariant 0 <= i <= |fields|
      invariant forall j | 0 <= j < i :: !HasTag(fields[j], CONTEXT, tagNumber)
    {
      if HasTag(fields[i], CONTEXT, tagNumber) {
        assert fields[i] in fields;
        return Some(fields[i]);
      }
      i := i + 1;
    }
    r := None;
  }

  /** A list has at most one first field with a tag. */
  lemma FirstIsUnique(fields: seq<Node>, tagNumber: nat, m: Node, n: Node)
    requires IsFirst(fields, tagNumber, m) && IsFirst(fields, tagNumber, n)
    ensures m == n
  {
    var i :| 0 <= i < |fields| && fields[i] == m && HasTag(m, 3, tagNumber)
             && forall j | 0 <= j < i :: !HasTag(fields[j], 3, tagNumber);
    var k :| 0 <= k < |fields| && fields[k] == n && HasTag(n, 3, tagNumber)
             && forall j | 0 <= j < k :: !HasTag(fields[j], 3, tagNumber);
    assert !(i < k) && !(k < i);
  }

  /** Big-endian unsigned decode. */
  method DecodeUint(raw: seq<Byte>) returns (value: nat)
    ensures value == BytesValue(raw)
  {
    value := 0;
    var i := 0;
    assert raw[..0] == [];
    while i < |raw|
      invariant 0 <= i <= |raw|
      invariant value == BytesValue(raw[..i])
    {
      assert raw[..i + 1][..i] == raw[..i];
      value := value * 256 + raw[i];
      i := i + 1;
    }
    assert raw[..i] == raw;
  }

  /** The number a field holds: of its first child when it is constructed, which must have one of these
      universal tags, and of its own octets when it is primitive. */
  function ScalarOf(n: Node, tags: set<nat>): Option<nat> {
    if n.constructed then
      if n.children == [] || n.children[0].tagClass != 1 || n.children[0].tagNumber !in tags then None
      else UintOf(n.children[0])
    else UintOf(n)
  }

  /** The number in a node's octets: those of the view when it has any, and else those of the buffer. */
  function UintOf(n: Node): Option<nat> {
    match (n.hexView, n.hex)
    case (Some(view), hex) =>
      if view != [] then Some(BytesValue(view))
      else if hex.Some? && hex.value != [] then Some(BytesValue(hex.value)) else None
    case (None, Some(buffer)) => if buffer != [] then Some(BytesValue(buffer)) else None
    case (None, None) => None
  }

  method ReadNodeUint(n: Node) returns (r: Option<nat>)
    ensures r == UintOf(n)
  {
    var raw := Octets(n);
    if |raw| == 0 {
      return None;
    }
    var value := DecodeUint(raw);
    r := Some(value);
  }

  /** What the list's first field with this tag reads as; nothing without one. */
  ghost predicate ReadsAs(fields: Option<seq<Node>>, tagNumber: nat, tags: set<nat>, r: Option<nat>) {
    if fields.None? || forall n | n in fields.value :: !HasTag(n, 3, tagNumber) then r.None?
    else exists n :: IsFirst(fields.value, tagNumber, n) && r == ScalarOf(n, tags)
  }

  method ReadScalar(fields: Option<seq<Node>>, tagNumber: nat, tags: set<nat>) returns (r: Option<nat>)
    ensures ReadsAs(fields, tagNumber, tags, r)
  {
    if fields.None? {
      return None;
    }
    var field := FindTaggedField(fields.value, tagNumber);
    if field.None? {
      return None;
    }
    var n := field.value;
    if n.constructed {
      if |n.children| == 0 || n.children[0].tagClass != UNIVERSAL || n.children[0].tagNumber !in tags {
        r := None;
      } else {
        r := ReadNodeUint(n.children[0]);
      }
    } else {
      r := ReadNodeUint(n);
    }
    assert IsFirst(fields.value, tagNumber, n) && r == ScalarOf(n, tags);
    assert !(forall n | n in fields.value :: !HasTag(n, 3, tagNumber));
  }

  /** A reading is determined by the list. */
  lemma ReadingIsUnique(fields: Option<seq<Node>>, tagNumber: nat, tags: set<nat>, r: Option<nat>, other: Option<nat>)
    requires ReadsAs(fields, tagNumber, tags, r) && ReadsAs(fields, tagNumber, tags, other)
    ensures r == other
  {
    if fields.Some? && !(forall n | n in fields.value :: !HasTag(n, 3, tagNumber)) {
      var m :| IsFirst(fields.value, tagNumber, m) && r == ScalarOf(m, tags);
      var n :| IsFirst(fields.value, tagNumber, n) && other == ScalarOf(n, tags);
      FirstIsUnique(fields.value, tagNumber, m, n);
    }
  }

  /** The two wire shapes of the same octets read alike: a constructed field around a universal node, whatever
      else it holds, and a primitive field. */
  lemma ShapesAgree(explicit: Node, implicit: Node, tags: set<nat>)
    requires explicit.constructed && explicit.children != []
    requires explicit.children[0].tagClass == 1 && explicit.children[0].tagNumber in tags
    requires !implicit.constructed && Octets(implicit) == Octets(explicit.children[0])
    ensures ScalarOf(explicit, tags) == ScalarOf(implicit, tags)
  {
  }

  /** Accepting more universal tags only adds readings. */
  lemma MoreTags(fields: Option<seq<Node>>, tagNumber: nat, tags: set<nat>, more: set<nat>, r: Option<nat>, other: Option<nat>)
    requires tags <= more && ReadsAs(fields, tagNumber, tags, r) && ReadsAs(fields, tagNumber, more, other)
    ensures r.Some? ==> other == r
  {
    if r.Some? {
      var m :| IsFirst(fields.value, tagNumber, m) && r == ScalarOf(m, tags);
      var n :| IsFirst(fields.value, tagNumber, n) && other == ScalarOf(n, more);
      FirstIsUnique(fields.value, tagNumber, m, n);
    }
  }
}
