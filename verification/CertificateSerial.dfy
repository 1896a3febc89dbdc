/**
 Certificate serials: how a random draw becomes the serial in the certificate, the decimal the
 ledger stores and the decimal the status responder looks up, and that these are one number.
 */
module CertificateSerial {
  import opened Numerals
  import opened Options
  import Ocsp = OcspMachine

  const MAX_SERIAL_BYTES: nat := 20

  /** The serial that is written: the high bit cleared, and a zero first byte made one. */
  function Written(draw: seq<Byte>): (r: seq<Byte>)
    requires draw != []
    ensures |r| == |draw|
  {
    var first := draw[0] % 128;
    draw[0 := if first == 0 then 1 else first]
  }

  /** The first byte keeps its low seven bits, unless they are all zero; every other byte is as it was drawn. */
  lemma WrittenSpelled(draw: seq<Byte>)
    requires draw != []
    ensures 1 <= Written(draw)[0] <= 127
    ensures Written(draw)[0] == draw[0] || Written(draw)[0] + 128 == draw[0] || draw[0] == 0 || draw[0] == 128
    ensures (draw[0] == 0 || draw[0] == 128) ==> Written(draw)[0] == 1
    ensures forall i | 1 <= i < |draw| :: Written(draw)[i] == draw[i]
  {
  }

  /** The two byte edits, in place. */
  method Normalize(serial: array<Byte>)
    requires serial.Length > 0
    modifies serial
    ensures serial[..] == Written(old(serial[..]))
  {
    serial[0] := serial[0] % 128;
    if serial[0] == 0 {
      serial[0] := 1;
    }
  }

  method CopyOf(bytes: array<Byte>) returns (copy: array<Byte>)
    ensures fresh(copy) && copy[..] == bytes[..]
  {
    copy := new Byte[bytes.Length];
    var i := 0;
    while i < bytes.Length
      invariant 0 <= i <= bytes.Length
      invariant forall j | 0 <= j < i :: copy[j] == bytes[j]
    {
      copy[i] := bytes[i];
      i := i + 1;
    }
  }

  /** The serial part of building a leaf: `None` for a template whose serial is empty or too long.
      The template's own bytes are left alone. */
  method BuildLeafSerial(serialNumber: array<Byte>) returns (serial: Option<array<Byte>>)
    ensures serial.None? <==> serialNumber.Length == 0 || serialNumber.Length > 20
    ensures serial.Some? ==> fresh(serial.value) && serial.value[..] == Written(serialNumber[..])
  {
    if serialNumber.Length == 0 || serialNumber.Length > MAX_SERIAL_BYTES {
      return None;
    }
    var copy := CopyOf(serialNumber);
    Normalize(copy);
    serial := Some(copy);
  }

  method BytesToBigIntDecimal(bytes: array<Byte>) returns (decimal: string)
    ensures decimal == ToBase(BytesValue(bytes[..]), 10)
  {
    var hex := "";
    var i := 0;
    assert bytes[..0] == [];
    while i < bytes.Length
      invariant 0 <= i <= bytes.Length
      invariant hex == HexBytes(bytes[..i])
    {
      assert bytes[..i + 1][..i] == bytes[..i];
      hex := hex + HexByte(bytes[i]);
      i := i + 1;
    }
    assert bytes[..i] == bytes[..];
    HexBytesValue(bytes[..]);
    decimal := ToBase(ValueOf(hex, 16), 10);
  }

  datatype Issued = Issued(certificate: seq<Byte>, serialDecimal: string, serialBytes: seq<Byte>)

  /** Issuance from a 20-byte draw: the serial built into the leaf, and the serial and its decimal
      that issuance derives on its own. */
  method IssueSerial(draw: array<Byte>) returns (issued: Issued)
    requires draw.Length == 20
    ensures issued.certificate == Written(draw[..])
    ensures issued.serialBytes == issued.certificate
    ensures issued.serialDecimal == ToBase(BytesValue(issued.certificate), 10)
  {
    var built := BuildLeafSerial(draw);
    var canonical := CopyOf(draw);
    Normalize(canonical);
    var decimal := BytesToBigIntDecimal(canonical);
    issued := Issued(built.value[..], decimal, canonical[..]);
  }

  // ---------------------------------------------------------------------------
  // One positive, minimal number
  // ---------------------------------------------------------------------------

  /** A DER INTEGER's content octets for a positive number (section 8.3 of X.690): at least one, the
      sign bit clear, and the first nine bits not all zero. */
  predicate PositiveDer(bytes: seq<Byte>) {
    bytes != [] && bytes[0] < 0x80 && (|bytes| > 1 ==> !(bytes[0] == 0 && bytes[1] < 0x80))
    && BytesValue(bytes) > 0
  }

  /** Every draw gives a valid positive serial. */
  lemma WrittenIsPositiveDer(draw: seq<Byte>)
    requires draw != []
    ensures PositiveDer(Written(draw))
  {
    LeadingByte(Written(draw));
  }

  /** What the responder makes of the issued serial, however many zero bytes a request pads it with,
      is the decimal issuance stored. */
  lemma ResponderFindsIssued(draw: seq<Byte>, zeros: seq<Byte>)
    requires draw != [] && forall i | 0 <= i < |zeros| :: zeros[i] == 0
    ensures Ocsp.SerialDecimal(zeros + Written(draw)) == ToBase(BytesValue(Written(draw)), 10)
    ensures Canonical(Ocsp.SerialDecimal(zeros + Written(draw)), 10)
    ensures ValueOf(Ocsp.SerialDecimal(zeros + Written(draw)), 10) == BytesValue(Written(draw))
  {
    ZeroPadding(zeros, Written(draw));
    ToBaseCanonical(BytesValue(Written(draw)), 10);
  }

  /** No serial answers for another, of whatever lengths: two padded request serials have the same ledger key exactly
      when they pad the same issued serial. */
  lemma LedgerKeysDistinct(a: seq<Byte>, b: seq<Byte>, zerosA: seq<Byte>, zerosB: seq<Byte>)
    requires a != [] && b != []
    requires (forall i | 0 <= i < |zerosA| :: zerosA[i] == 0) && (forall i | 0 <= i < |zerosB| :: zerosB[i] == 0)
    ensures Ocsp.SerialDecimal(zerosA + Written(a)) == Ocsp.SerialDecimal(zerosB + Written(b))
            <==> Written(a) == Written(b)
  {
    ZeroPadding(zerosA, Written(a));
    ZeroPadding(zerosB, Written(b));
    if Ocsp.SerialDecimal(zerosA + Written(a)) == Ocsp.SerialDecimal(zerosB + Written(b)) {
      ToBaseInjective(BytesValue(Written(a)), BytesValue(Written(b)), 10);
      MinimalInjective(Written(a), Written(b));
    }
  }

  /** Which draws collide: those that agree after the first byte and whose first bytes agree in the
      low seven bits, zero and one counting as the same. */
  lemma DrawsCollideIff(a: seq<Byte>, b: seq<Byte>)
    requires |a| == |b| && a != []
    ensures Written(a) == Written(b) <==>
              a[1..] == b[1..] && (a[0] % 128 == b[0] % 128 || (a[0] % 128 <= 1 && b[0] % 128 <= 1))
  {
    var x, y := Written(a), Written(b);
    assert x == [x[0]] + a[1..] && y == [y[0]] + b[1..];
    assert x[1..] == a[1..] && y[1..] == b[1..];
  }
}
