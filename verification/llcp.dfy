/**
 * The parts of the NFC Forum Logical Link Control Protocol (LLCP 1.1) that
 * the peer-to-peer demo's static frames use: the two-byte PDU header
 * (destination SAP, PDU type, source SAP, section 4 of LLCP 1.1), the
 * type-length-value parameters of section 4.5, and the magic number that
 * opens the general bytes of an NFC-DEP activation (section 6.2.3.1).
 */
module Llcp {
  import opened Wrappers
  import opened Rfal

  /** PDU types (the 4-bit PTYPE field). */
  const PtypeSymm: nat := 0
  const PtypeConnect: nat := 4
  const PtypeInformation: nat := 12

  /** Well-known service access points: the service discovery protocol and
      the Simple NDEF Exchange Protocol. */
  const SapSdp: nat := 1
  const SapSnep: nat := 4

  /** The LLCP magic number 0x46 0x66 0x6D. */
  const Magic: seq<uint8> := [0x46, 0x66, 0x6D]

  /** Parameter types. */
  const ParamVersion: uint8 := 1
  const ParamMiux: uint8 := 2
  const ParamWks: uint8 := 3
  const ParamLto: uint8 := 4
  const ParamRw: uint8 := 5
  const ParamSn: uint8 := 6
  const ParamOpt: uint8 := 7

  /** The default maximum information unit; MIUX extends it. */
  const DefaultMiu: nat := 128

  /** A PDU header: a 6-bit DSAP, a 4-bit PTYPE and a 6-bit SSAP. */
  datatype Header = Header(dsap: nat, ptype: nat, ssap: nat)

  predicate ValidHeader(h: Header) {
    h.dsap < 64 && h.ptype < 16 && h.ssap < 64
  }

  /** DSAP in the top six bits of the first byte, PTYPE across the byte
      boundary, SSAP in the low six bits of the second byte. */
  function EncodeHeader(h: Header): (r: seq<uint8>)
    requires ValidHeader(h)
    ensures |r| == 2
  {
    [(h.dsap * 4 + h.ptype / 4) as uint8, ((h.ptype % 4) * 64 + h.ssap) as uint8]
  }

  /** The header at the start of a PDU; `None` when fewer than two bytes. */
  function DecodeHeader(b: seq<uint8>): (r: Option<Header>)
    ensures r.Some? <==> |b| >= 2
    ensures r.Some? ==> ValidHeader(r.value)
  {
    if |b| < 2 then None
    else Some(Header(b[0] as int / 4, (b[0] as int % 4) * 4 + b[1] as int / 64, b[1] as int % 64))
  }

  /** Decoding an encoded header gives the header back. */
  lemma HeaderRoundTrip(h: Header)
    requires ValidHeader(h)
    ensures DecodeHeader(EncodeHeader(h)) == Some(h)
  {
    var b := EncodeHeader(h);
    assert b[0] as int / 4 == h.dsap && b[0] as int % 4 == h.ptype / 4;
    assert b[1] as int / 64 == h.ptype % 4 && b[1] as int % 64 == h.ssap;
  }

  /** Every two bytes are the encoding of the header they decode to. */
  lemma HeaderBytesRoundTrip(b: seq<uint8>)
    requires |b| >= 2
    ensures EncodeHeader(DecodeHeader(b).value) == b[..2]
  {
    var h := DecodeHeader(b).value;
    assert h.ptype / 4 == b[0] as int % 4 && h.ptype % 4 == b[1] as int / 64;
  }

  /** A type-length-value parameter. */
  datatype Param = Param(tag: uint8, value: seq<uint8>)

  /** The one-byte length field can hold the value's length. */
  predicate Encodable(p: Param) {
    |p.value| < 256
  }

  /** A parameter whose value has the size its type prescribes: one byte
      for VERSION, LTO, RW (4 bits) and OPT, two for MIUX (11 bits) and WKS,
      any for SN. Other types are ignored by a receiver and so always pass. */
  predicate WellFormed(p: Param) {
    if p.tag == ParamVersion || p.tag == ParamLto || p.tag == ParamOpt then |p.value| == 1
    else if p.tag == ParamRw then |p.value| == 1 && p.value[0] < 16
    else if p.tag == ParamMiux then |p.value| == 2 && p.value[0] < 8
    else if p.tag == ParamWks then |p.value| == 2
    else Encodable(p)
  }

  /** The maximum information unit a well-formed MIUX parameter announces. */
  function Miu(p: Param): (r: nat)
    requires p.tag == ParamMiux && WellFormed(p)
    ensures DefaultMiu <= r < DefaultMiu + 2048
  {
    DefaultMiu + p.value[0] as int * 256 + p.value[1] as int
  }

  function EncodeParam(p: Param): (r: seq<uint8>)
    requires Encodable(p)
    ensures |r| == 2 + |p.value|
  {
    [p.tag, |p.value| as uint8] + p.value
  }

  function EncodeParams(ps: seq<Param>): seq<uint8>
    requires forall i :: 0 <= i < |ps| ==> Encodable(ps[i])
  {
    if ps == [] then [] else EncodeParam(ps[0]) + EncodeParams(ps[1..])
  }

  /** Reads parameters until the bytes run out; `None` when a length field
      runs past the end. */
  function ParseParams(b: seq<uint8>): (r: Option<seq<Param>>)
    ensures r.Some? ==> forall i :: 0 <= i < |r.value| ==> Encodable(r.value[i])
    decreases |b|
  {
    if b == [] then Some([])
    else if |b| < 2 || |b| < 2 + b[1] as int then None
    else match ParseParams(b[2 + b[1] as int..])
      case None => None
      case Some(rest) => Some([Param(b[0], b[2..2 + b[1] as int])] + rest)
  }

  /** One parsing step: a parameter followed by bytes that parse. */
  lemma ParseCons(p: Param, rest: seq<uint8>)
    requires Encodable(p)
    ensures ParseParams(EncodeParam(p) + rest) ==
      match ParseParams(rest)
      case None => None
      case Some(ps) => Some([p] + ps)
  {
    var b := EncodeParam(p) + rest;
    assert b[2 + |p.value|..] == rest;
    assert b[2..2 + |p.value|] == p.value;
  }

  /** Parsing the encoding of parameters gives them back. */
  lemma {:induction false} ParseEncode(ps: seq<Param>)
    requires forall i :: 0 <= i < |ps| ==> Encodable(ps[i])
    ensures ParseParams(EncodeParams(ps)) == Some(ps)
  {
    if ps != [] {
      ParseEncode(ps[1..]);
      ParseCons(ps[0], EncodeParams(ps[1..]));
      assert [ps[0]] + ps[1..] == ps;
    }
  }

  /** The first parameter of bytes that parse, and what follows it. */
  lemma ParseHead(b: seq<uint8>)
    requires b != [] && ParseParams(b).Some?
    ensures |b| >= 2 + b[1] as int
    ensures ParseParams(b[2 + b[1] as int..]).Some?
    ensures ParseParams(b).value == [Param(b[0], b[2..2 + b[1] as int])] + ParseParams(b[2 + b[1] as int..]).value
  {
  }

  /** Bytes that parse are exactly the encoding of what they parse to. */
  lemma {:induction false} EncodeParse(b: seq<uint8>)
    requires ParseParams(b).Some?
    ensures EncodeParams(ParseParams(b).value) == b
    decreases |b|
  {
    if b != [] {
      ParseHead(b);
      var n := b[1] as int;
      var rest := b[2 + n..];
      EncodeParse(rest);
      var ps := ParseParams(b).value;
      var p := Param(b[0], b[2..2 + n]);
      assert EncodeParam(p) == b[..2 + n] by {
        assert |p.value| as uint8 == b[1];
      }
      assert ps[1..] == ParseParams(rest).value;
      assert b == b[..2 + n] + rest;
    }
  }
}
