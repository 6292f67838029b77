/**
 * Simple NDEF Exchange Protocol (NFC Forum SNEP 1.0, section 2): a request
 * is a version byte, a request code, a 32-bit big-endian length and that
 * many bytes of information — for a PUT, the NDEF message to deliver.
 */
module Snep {
  import opened Wrappers
  import opened Rfal
  import opened Bytes

  /** Protocol version 1.0: major number in the high nibble, minor in the low. */
  const Version10: uint8 := 0x10

  /** Request codes. */
  const RequestContinue: uint8 := 0x00
  const RequestGet: uint8 := 0x01
  const RequestPut: uint8 := 0x02
  const RequestReject: uint8 := 0x7F

  /** The fixed part of a message: version, code and length. */
  const HeaderLen: nat := 6

  /** A SNEP request or response. */
  datatype Message = Message(version: uint8, code: uint8, info: seq<uint8>)

  predicate Encodable(m: Message) {
    |m.info| < Max32
  }

  function Encode(m: Message): (r: seq<uint8>)
    requires Encodable(m)
    ensures |r| == HeaderLen + |m.info|
  {
    [m.version, m.code] + Be32(|m.info|) + m.info
  }

  /** The message a byte string holds; `None` when the header is cut short
      or the length field disagrees with the bytes that follow it. */
  function Decode(b: seq<uint8>): (r: Option<Message>)
    ensures r.Some? <==> |b| >= HeaderLen && FromBe32(b[2..HeaderLen]) == |b| - HeaderLen
    ensures r.Some? ==> Encodable(r.value) && r.value.info == b[HeaderLen..]
  {
    if |b| < HeaderLen || FromBe32(b[2..HeaderLen]) != |b| - HeaderLen then None
    else Some(Message(b[0], b[1], b[HeaderLen..]))
  }

  /** Decoding an encoded message gives it back. */
  lemma DecodeEncode(m: Message)
    requires Encodable(m)
    ensures Decode(Encode(m)) == Some(m)
  {
    var b := Encode(m);
    assert b[2..HeaderLen] == Be32(|m.info|);
    Be32RoundTrip(|m.info|);
    assert b[HeaderLen..] == m.info;
  }

  /** Bytes that decode are the encoding of their message. */
  lemma EncodeDecode(b: seq<uint8>)
    requires Decode(b).Some?
    ensures Encode(Decode(b).value) == b
  {
    FromBe32RoundTrip(b[2..HeaderLen]);
    assert b == [b[0], b[1]] + b[2..HeaderLen] + b[HeaderLen..];
  }
}
