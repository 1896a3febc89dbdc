/**
 Google's attestation revocation list: which entries a response lists, and when a
 certificate's serial is one of them, in hex or in decimal.
 */
module RevocationList {
  import opened Numerals
  import opened Options

  datatype Entry = Entry(status: string, reason: Option<string>)

  /** One property of the `entries` object; a status or reason that is not a string is `None`. */
  datatype Listed = Listed(serial: string, status: Option<string>, reason: Option<string>)

  /** The response: `entries` missing or not an object, or its properties in order. */
  datatype Response = NoEntries | Entries(listed: seq<Listed>)

  type List = map<string, Entry>

  function Lower(s: string): (r: string)
    ensures |r| == |s|
  {
    seq(|s|, i requires 0 <= i < |s| => if 'A' <= s[i] <= 'Z' then (s[i] as int + 32) as char else s[i])
  }

  // ---------------------------------------------------------------------------
  // Keys as they are written
  // ---------------------------------------------------------------------------

  predicate IsHexDigit(c: char) {
    '0' <= c <= '9' || 'a' <= c <= 'f' || 'A' <= c <= 'F'
  }

  /** What a digit is worth, in either case. */
  function Worth(c: char): nat
    requires IsHexDigit(c)
  {
    if c <= '9' then c as int - '0' as int
    else if c <= 'F' then c as int - 'A' as int + 10
    else c as int - 'a' as int + 10
  }

  /** A key of hexadecimal digits, in any case. */
  predicate IsKey(serial: string) {
    serial != "" && forall i | 0 <= i < |serial| :: IsHexDigit(serial[i])
  }

  /** The number a key is in some base. */
  function KeyValue(serial: string, base: nat): nat
    requires forall i | 0 <= i < |serial| :: IsHexDigit(serial[i])
  {
    if serial == "" then 0 else KeyValue(serial[..|serial| - 1], base) * base + Worth(serial[|serial| - 1])
  }

  /** The key is the number in base 16, or has decimal digits only and is the number in base 10. */
  predicate IsWrittenAs(serial: string, v: nat)
    requires IsKey(serial)
  {
    || KeyValue(serial, 16) == v
    || ((forall i | 0 <= i < |serial| :: '0' <= serial[i] <= '9') && KeyValue(serial, 10) == v)
  }

  lemma KeyIsNumeric(serial: string)
    ensures IsKey(serial) <==> Numeric(serial)
    ensures IsKey(serial) ==>
              (AllDigits(Lower(serial), 10) <==> forall i | 0 <= i < |serial| :: '0' <= serial[i] <= '9')
  {
    var s := Lower(serial);
    forall i | 0 <= i < |serial|
      ensures IsHexDigit(serial[i]) <==> IsDigit(s[i], 16)
      ensures '0' <= serial[i] <= '9' <==> IsDigit(s[i], 10)
    {
    }
  }

  lemma {:induction false} KeyValueIs(serial: string, base: nat)
    requires base <= 16 && forall i | 0 <= i < |serial| :: IsHexDigit(serial[i])
    requires AllDigits(Lower(serial), base)
    ensures ValueOf(Lower(serial), base) == KeyValue(serial, base)
  {
    if serial != "" {
      var n := |serial| - 1;
      LowerFront(serial);
      KeyValueIs(serial[..n], base);
      var s := Lower(serial);
      assert s == s[..n] + [s[n]];
      ValueOfSnoc(s[..n], s[n], base);
      assert DigitValue(s[n]) == Worth(serial[n]);
    }
  }

  lemma LowerFront(s: string)
    requires s != ""
    ensures Lower(s[..|s| - 1]) == Lower(s)[..|s| - 1]
  {
  }

  /** A key as it is written and the same key lowercased read alike. */
  lemma WrittenIff(serial: string, v: nat)
    requires IsKey(serial)
    ensures Numeric(serial) && (ReadsAs(serial, v) <==> IsWrittenAs(serial, v))
  {
    KeyIsNumeric(serial);
    KeyValueIs(serial, 16);
    if AllDigits(Lower(serial), 10) {
      KeyValueIs(serial, 10);
    }
  }

  /** `/^[0-9a-f]+$/` of the lowercased key. */
  predicate Numeric(serial: string) {
    serial != [] && AllDigits(Lower(serial), 16)
  }

  function Normal(serial: string): string {
    StripZeros(Lower(serial))
  }

  function EntryOf(l: Listed): Entry {
    Entry(l.status.GetOr("UNKNOWN"), l.reason)
  }

  /** The last property whose key has this normal form. */
  function LastListed(listed: seq<Listed>, key: string): Option<Entry> {
    if listed == [] then None
    else if Normal(listed[|listed| - 1].serial) == key then Some(EntryOf(listed[|listed| - 1]))
    else LastListed(listed[..|listed| - 1], key)
  }

  ghost predicate Represents(list: List, listed: seq<Listed>) {
    forall key :: (if key in list then Some(list[key]) else None) == LastListed(listed, key)
  }

  /** Fails on anything but a non-empty object of numeric serials. */
  method ParseAndroidRevocationList(response: Response) returns (list: Option<List>)
    ensures list.Some? <==> response.Entries? && response.listed != [] && forall l | l in response.listed :: IsKey(l.serial)
    ensures list.Some? ==> Represents(list.value, response.listed) && list.value != map[]
  {
    if response.NoEntries? {
      return None;
    }
    var out: List := map[];
    var i := 0;
    while i < |response.listed|
      invariant 0 <= i <= |response.listed|
      invariant forall j | 0 <= j < i :: Numeric(response.listed[j].serial)
      invariant Represents(out, response.listed[..i])
      invariant i > 0 ==> out != map[]
    {
      var l := response.listed[i];
      KeyIsNumeric(l.serial);
      var key := Lower(l.serial);
      if |key| == 0 || !AllDigits(key, 16) {
        assert l in response.listed && !Numeric(l.serial);
        return None;
      }
      assert response.listed[..i + 1][..i] == response.listed[..i];
      out := out[StripZeros(key) := EntryOf(l)];
      assert StripZeros(key) in out;
      i := i + 1;
    }
    assert response.listed[..i] == response.listed;
    if |response.listed| == 0 {
      return None;
    }
    forall l | l in response.listed
      ensures IsKey(l.serial)
    {
      KeyIsNumeric(l.serial);
    }
    list := Some(out);
  }

  /** Big-endian content octets as the two numerals a list may use. */
  method SerialForms(der: seq<Byte>) returns (hex: string, dec: string)
    ensures hex == ToBase(BytesValue(der), 16) && dec == ToBase(BytesValue(der), 10)
  {
    var v: nat := 0;
    var i := 0;
    assert der[..0] == [];
    while i < |der|
      invariant 0 <= i <= |der|
      invariant v == BytesValue(der[..i])
    {
      assert der[..i + 1][..i] == der[..i];
      v := v * 256 + der[i];
      i := i + 1;
    }
    assert der[..i] == der;
    hex, dec := ToBase(v, 16), ToBase(v, 10);
  }

  /** Does this listed key read as `v`, in base 16 or, having decimal digits only, in base 10? */
  predicate ReadsAs(serial: string, v: nat)
    requires Numeric(serial)
  {
    ValueOf(Lower(serial), 16) == v || (AllDigits(Lower(serial), 10) && ValueOf(Lower(serial), 10) == v)
  }

  lemma {:induction false} StripKeepsDigits(s: string, base: nat)
    requires 2 <= base <= 16 && AllDigits(StripZeros(s), base)
    ensures AllDigits(s, base)
  {
    if |s| > 1 && s[0] == '0' {
      StripKeepsDigits(s[1..], base);
      assert forall i | 1 <= i < |s| :: s[i] == s[1..][i - 1];
    }
  }

  /** A key's normal form is the canonical numeral of a number exactly when the key reads as it. */
  lemma NormalIsNumeral(serial: string, v: nat, base: nat)
    requires Numeric(serial) && 2 <= base <= 16
    ensures Normal(serial) == ToBase(v, base) <==> AllDigits(Lower(serial), base) && ValueOf(Lower(serial), base) == v
  {
    var s := Lower(serial);
    ToBaseCanonical(v, base);
    if Normal(serial) == ToBase(v, base) {
      StripKeepsDigits(s, base);
      StripZerosCanonical(s, base);
    }
    if AllDigits(s, base) && ValueOf(s, base) == v {
      StripZerosCanonical(s, base);
      CanonicalUnique(StripZeros(s), base);
    }
  }

  /** Position `i` holds the last key with this normal form. */
  predicate LastAt(listed: seq<Listed>, key: string, i: nat) {
    && i < |listed| && Normal(listed[i].serial) == key
    && forall j | i < j < |listed| :: Normal(listed[j].serial) != key
  }

  lemma {:induction false} LastListedSome(listed: seq<Listed>, key: string)
    ensures LastListed(listed, key).Some? <==> exists l | l in listed :: Normal(l.serial) == key
    ensures LastListed(listed, key).Some? ==>
              exists i: nat :: LastAt(listed, key, i) && LastListed(listed, key) == Some(EntryOf(listed[i]))
  {
    if listed != [] && Normal(listed[|listed| - 1].serial) != key {
      var front := listed[..|listed| - 1];
      LastListedSome(front, key);
      assert listed == front + [listed[|listed| - 1]];
      if LastListed(front, key).Some? {
        var i: nat :| LastAt(front, key, i) && LastListed(front, key) == Some(EntryOf(front[i]));
        assert LastAt(listed, key, i);
      }
    } else if listed != [] {
      assert LastAt(listed, key, |listed| - 1);
    }
  }

  lemma HitIffReads(listed: seq<Listed>, v: nat, base: nat)
    requires base == 10 || base == 16
    requires forall l | l in listed :: Numeric(l.serial)
    ensures LastListed(listed, ToBase(v, base)).Some?
            <==> exists l | l in listed :: AllDigits(Lower(l.serial), base) && ValueOf(Lower(l.serial), base) == v
  {
    LastListedSome(listed, ToBase(v, base));
    forall l | l in listed {
      NormalIsNumeral(l.serial, v, base);
    }
  }

  predicate ReadsInBase(serial: string, v: nat, base: nat)
    requires base == 10 || base == 16
  {
    AllDigits(Lower(serial), base) && ValueOf(Lower(serial), base) == v
  }

  /** Looking up the numeral of `v` in one base. */
  lemma LookUp(list: List, listed: seq<Listed>, v: nat, base: nat)
    requires base == 10 || base == 16
    requires Represents(list, listed) && forall l | l in listed :: Numeric(l.serial)
    ensures ToBase(v, base) in list <==> exists l | l in listed :: ReadsInBase(l.serial, v, base)
    ensures ToBase(v, base) in list ==>
              exists l | l in listed :: ReadsInBase(l.serial, v, base) && Normal(l.serial) == ToBase(v, base)
                                        && EntryOf(l) == list[ToBase(v, base)]
  {
    var key := ToBase(v, base);
    HitIffReads(listed, v, base);
    LastListedSome(listed, key);
    assert (if key in list then Some(list[key]) else None) == LastListed(listed, key);
    if key in list {
      var i: nat :| LastAt(listed, key, i) && LastListed(listed, key) == Some(EntryOf(listed[i]));
      assert listed[i] in listed;
      NormalIsNumeral(listed[i].serial, v, base);
    }
    if exists l | l in listed :: ReadsInBase(l.serial, v, base) {
      var l :| l in listed && ReadsInBase(l.serial, v, base);
      assert AllDigits(Lower(l.serial), base) && ValueOf(Lower(l.serial), base) == v;
    }
  }

  lemma ReadsInEither(serial: string, v: nat)
    requires Numeric(serial)
    ensures ReadsAs(serial, v) <==> ReadsInBase(serial, v, 16) || ReadsInBase(serial, v, 10)
  {
  }

  /**
   Main result: on a parsed list, a certificate is found revoked exactly when some listed key, in
   whatever case and with however many leading zeros, is written as its serial in base 16 or base 10;
   and what is returned is that numeral and the status and reason of a listed property whose key is.
   */
  method FindRevoked(der: seq<Byte>, list: List, ghost listed: seq<Listed>)
    returns (found: Option<(string, Entry)>)
    requires Represents(list, listed) && forall l | l in listed :: IsKey(l.serial)
    ensures found.Some? <==> exists l | l in listed :: IsWrittenAs(l.serial, BytesValue(der))
    ensures found.Some? ==>
              && (found.value.0 == ToBase(BytesValue(der), 16) || found.value.0 == ToBase(BytesValue(der), 10))
              && exists l | l in listed ::
                   && IsWrittenAs(l.serial, BytesValue(der))
                   && found.value.1.reason == l.reason
                   && (if l.status.Some? then found.value.1.status == l.status.value else found.value.1.status == "UNKNOWN")
  {
    ghost var v := BytesValue(der);
    forall l | l in listed
      ensures Numeric(l.serial) && (ReadsAs(l.serial, v) <==> IsWrittenAs(l.serial, v))
    {
      WrittenIff(l.serial, v);
    }
    var hex, dec := SerialForms(der);
    LookUp(list, listed, v, 16);
    LookUp(list, listed, v, 10);
    forall l | l in listed
      ensures ReadsAs(l.serial, v) <==> ReadsInBase(l.serial, v, 16) || ReadsInBase(l.serial, v, 10)
    {
      ReadsInEither(l.serial, v);
    }
    if hex in list {
      return Some((hex, list[hex]));
    }
    if dec in list {
      return Some((dec, list[dec]));
    }
    found := None;
  }

  /** Padding the DER integer with zero bytes changes nothing a listed key is compared with. */
  lemma PaddingIrrelevant(zeros: seq<Byte>, der: seq<Byte>, serial: string)
    requires (forall i | 0 <= i < |zeros| :: zeros[i] == 0) && IsKey(serial)
    ensures IsWrittenAs(serial, BytesValue(zeros + der)) <==> IsWrittenAs(serial, BytesValue(der))
  {
    ZeroPadding(zeros, der);
  }
}
