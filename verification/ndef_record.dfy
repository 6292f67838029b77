/**
 * One unchunked NDEF record (NFC Forum NDEF 1.0, section 3.2) and the
 * payload of the URI record type (NFC Forum URI RTD 1.0, section 3.2).
 * A record is a flags byte (MB, ME, CF, SR, IL and the 3-bit TNF), a type
 * length, a payload length of one byte (SR set) or four big-endian bytes,
 * an identifier length when IL is set, then the type, identifier and
 * payload.
 */
module NdefRecord {
  import opened Wrappers
  import opened Rfal
  import opened Bytes

  /** Flag bits of the first byte. */
  const FlagMb: nat := 0x80
  const FlagMe: nat := 0x40
  const FlagCf: nat := 0x20
  const FlagSr: nat := 0x10
  const FlagIl: nat := 0x08

  /** The NFC Forum well-known type name format. */
  const TnfWellKnown: nat := 1

  /** The well-known type "U" of a URI record. */
  const UriType: seq<uint8> := [0x55]

  /** A record. `sr` and `il` are the layout flags: a one-byte payload
      length, and the presence of the identifier length. */
  datatype Record = Record(
    mb: bool, me: bool, sr: bool, il: bool, tnf: nat,
    recType: seq<uint8>, id: seq<uint8>, payload: seq<uint8>)

  /** The fields fit their length fields and the layout flags agree with
      the contents. */
  predicate Valid(r: Record) {
    && r.tnf < 8 && |r.recType| < 0x100 && |r.id| < 0x100
    && |r.payload| < (if r.sr then 0x100 else Max32)
    && (!r.il ==> r.id == [])
  }

  function Bit(b: bool, mask: nat): nat {
    if b then mask else 0
  }

  /** The flags byte. */
  function Flags(r: Record): (f: uint8)
    requires r.tnf < 8
  {
    (Bit(r.mb, FlagMb) + Bit(r.me, FlagMe) + Bit(r.sr, FlagSr) + Bit(r.il, FlagIl) + r.tnf) as uint8
  }

  /** Whether bit `mask` (a power of two) is set in `b`. */
  predicate Has(b: uint8, mask: nat)
    requires mask > 0
  {
    (b as int / mask) % 2 == 1
  }

  /** The flags byte encodes each flag in its own bit and the TNF in the
      low three. */
  lemma FlagsDecode(r: Record)
    requires r.tnf < 8
    ensures var f := Flags(r);
      && Has(f, FlagMb) == r.mb && Has(f, FlagMe) == r.me && !Has(f, FlagCf)
      && Has(f, FlagSr) == r.sr && Has(f, FlagIl) == r.il && f as int % 8 == r.tnf
  {
  }

  /** A flags byte without the CF bit is the encoding of the flags it holds. */
  lemma FlagsEncode(b: uint8)
    requires !Has(b, FlagCf)
    ensures b as int == Bit(Has(b, FlagMb), FlagMb) + Bit(Has(b, FlagMe), FlagMe)
      + Bit(Has(b, FlagSr), FlagSr) + Bit(Has(b, FlagIl), FlagIl) + b as int % 8
  {
    var n := b as int;
    assert n == 128 * (n / 128) + n % 128;
    assert n % 128 == 64 * ((n / 64) % 2) + n % 64;
    assert n % 64 == 32 * ((n / 32) % 2) + n % 32;
    assert n % 32 == 16 * ((n / 16) % 2) + n % 16;
    assert n % 16 == 8 * ((n / 8) % 2) + n % 8;
  }

  /** The length fields after the type length. */
  function PayloadLenField(r: Record): (f: seq<uint8>)
    requires Valid(r)
    ensures |f| == if r.sr then 1 else 4
  {
    if r.sr then [|r.payload| as uint8] else Be32(|r.payload|)
  }

  function IdLenField(r: Record): (f: seq<uint8>)
    requires Valid(r)
    ensures |f| == if r.il then 1 else 0
  {
    if r.il then [|r.id| as uint8] else []
  }

  function Encode(r: Record): (b: seq<uint8>)
    requires Valid(r)
  {
    [Flags(r), |r.recType| as uint8] + PayloadLenField(r) + IdLenField(r) + r.recType + r.id + r.payload
  }

  /** Where the type starts: after the flags, the type length and the
      length fields the flags announce. */
  function TypeStart(b: seq<uint8>): (n: nat)
    requires |b| > 0
    ensures 3 <= n <= 7
  {
    2 + (if Has(b[0], FlagSr) then 1 else 4) + (if Has(b[0], FlagIl) then 1 else 0)
  }

  /** The payload length the header announces. */
  function PayloadLen(b: seq<uint8>): nat
    requires |b| > 0 && |b| >= TypeStart(b)
  {
    if Has(b[0], FlagSr) then b[2] as int else FromBe32(b[2..6])
  }

  /** The identifier length the header announces. */
  function IdLen(b: seq<uint8>): nat
    requires |b| > 0 && |b| >= TypeStart(b)
  {
    if Has(b[0], FlagIl) then b[TypeStart(b) - 1] as int else 0
  }

  /** The record the bytes hold; `None` for a chunk (CF set), a header cut
      short, or lengths that do not add up to exactly the bytes given. */
  function Decode(b: seq<uint8>): (r: Option<Record>)
    ensures r.Some? ==> Valid(r.value)
  {
    if |b| == 0 || Has(b[0], FlagCf) || |b| < TypeStart(b) then None
    else
      var t := TypeStart(b);
      var typeEnd := t + b[1] as int;
      var idEnd := typeEnd + IdLen(b);
      if |b| != idEnd + PayloadLen(b) then None
      else Some(Record(Has(b[0], FlagMb), Has(b[0], FlagMe), Has(b[0], FlagSr), Has(b[0], FlagIl),
        b[0] as int % 8, b[t..typeEnd], b[typeEnd..idEnd], b[idEnd..]))
  }

  /** Decoding an encoded record gives it back. */
  lemma DecodeEncode(r: Record)
    requires Valid(r)
    ensures Decode(Encode(r)) == Some(r)
  {
    var b := Encode(r);
    FlagsDecode(r);
    var head := [Flags(r), |r.recType| as uint8] + PayloadLenField(r) + IdLenField(r);
    assert b == head + r.recType + r.id + r.payload;
    assert b[0] == Flags(r) && b[1] as int == |r.recType|;
    assert TypeStart(b) == |head|;
    if r.sr {
      assert b[2] == PayloadLenField(r)[0];
    } else {
      assert b[2..6] == Be32(|r.payload|);
      Be32RoundTrip(|r.payload|);
    }
    if r.il {
      assert b[TypeStart(b) - 1] == IdLenField(r)[0];
    }
    var t := |head|;
    assert b[t..t + |r.recType|] == r.recType;
    assert b[t + |r.recType|..t + |r.recType| + |r.id|] == r.id;
    assert b[t + |r.recType| + |r.id|..] == r.payload;
  }

  /** Bytes that decode are the encoding of their record. */
  lemma EncodeDecode(b: seq<uint8>)
    requires Decode(b).Some?
    ensures Encode(Decode(b).value) == b
  {
    var r := Decode(b).value;
    FlagsEncode(b[0]);
    assert Flags(r) == b[0];
    var t := TypeStart(b);
    var head := [Flags(r), |r.recType| as uint8] + PayloadLenField(r) + IdLenField(r);
    if r.sr {
      assert PayloadLenField(r) == b[2..3];
    } else {
      FromBe32RoundTrip(b[2..6]);
      assert PayloadLenField(r) == b[2..6];
    }
    assert head == b[..t];
    assert b == b[..t] + r.recType + r.id + r.payload;
  }

  /** URI identifier codes and the prefixes they abbreviate; code 0x00
      abbreviates nothing. Codes from 0x24 on are reserved. */
  const UriPrefixes: seq<string> := [
    "", "http://www.", "https://www.", "http://", "https://", "tel:", "mailto:",
    "ftp://anonymous:anonymous@", "ftp://ftp.", "ftps://", "sftp://", "smb://",
    "nfs://", "ftp://", "dav://", "news:", "telnet://", "imap:", "rtsp://", "urn:",
    "pop:", "sip:", "sips:", "tftp:", "btspp://", "btl2cap://", "btgoep://",
    "tcpobex://", "irdaobex://", "file://", "urn:epc:id:", "urn:epc:tag:",
    "urn:epc:pat:", "urn:epc:raw:", "urn:epc:", "urn:nfc:"]

  /** The URI a URI-record payload stands for: the prefix its first byte
      names followed by the rest as text; `None` for an empty payload or a
      reserved code. */
  function Uri(payload: seq<uint8>): (u: Option<string>)
    ensures u.Some? <==> |payload| > 0 && payload[0] as int < |UriPrefixes|
  {
    if |payload| == 0 || payload[0] as int >= |UriPrefixes| then None
    else Some(UriPrefixes[payload[0]] + Chars(payload[1..]))
  }

  /** With identifier code 0x00 the payload after it is the whole URI. */
  lemma UriUnabbreviated(payload: seq<uint8>)
    requires |payload| > 0 && payload[0] == 0
    ensures Uri(payload) == Some(Chars(payload[1..]))
  {
    var text := Chars(payload[1..]);
    assert UriPrefixes[0] == "";
    assert "" + text == text;
  }
}
