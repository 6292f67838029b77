/**
 * The static byte strings of the peer-to-peer demo (example 520) and what
 * they hold when read by the NFC Forum formats: the NFC-DEP identifier and
 * general bytes handed to discovery, and the three LLCP PDUs the demo
 * sends — a CONNECT to the SNEP server, an information PDU carrying a SNEP
 * PUT of a one-record NDEF message with the URI "http://www.st.com", and
 * the SYMM PDU that keeps the link alive.
 */
module P2pFrames {
  import opened Wrappers
  import opened Rfal
  import opened Bytes
  import opened Llcp
  import Snep
  import NdefRecord

  /** `NFCID3`: the NFC-DEP identifier offered during activation. */
  const Nfcid3: seq<uint8> := [0x01, 0xFE, 0x03, 0x04, 0x05, 0x06, 0x07, 0x08, 0x09, 0x0A]

  /** `RFAL_NFCDEP_NFCID3_LEN`. */
  const Nfcid3Len: nat := 10

  /** `GB`: the general bytes of the activation, announcing LLCP. */
  const Gb: seq<uint8> := [
    0x46, 0x66, 0x6d, 0x01, 0x01, 0x11, 0x02, 0x02, 0x07, 0x80,
    0x03, 0x02, 0x00, 0x03, 0x04, 0x01, 0x32, 0x07, 0x01, 0x03]

  /** `discParam.GBLen = sizeof(GB)`. */
  const GbLen: nat := 20

  /** `ndefLLCPSYMM`. */
  const LlcpSymm: seq<uint8> := [0x00, 0x00]

  /** `ndefInit`. */
  const NdefInit: seq<uint8> := [
    0x05, 0x20, 0x06, 0x0F, 0x75, 0x72, 0x6E, 0x3A, 0x6E, 0x66, 0x63, 0x3A, 0x73,
    0x6E, 0x3A, 0x73, 0x6E, 0x65, 0x70, 0x02, 0x02, 0x07, 0x80, 0x05, 0x01, 0x02]

  /** `ndefUriSTcom`. */
  const NdefUriStCom: seq<uint8> := [
    0x13, 0x20, 0x00, 0x10, 0x02, 0x00, 0x00, 0x00, 0x19, 0xc1, 0x01, 0x00,
    0x00, 0x00, 0x12, 0x55, 0x00, 0x68, 0x74, 0x74, 0x70, 0x3a, 0x2f, 0x2f,
    0x77, 0x77, 0x77, 0x2e, 0x73, 0x74, 0x2e, 0x63, 0x6f, 0x6d]

  /** The source SAP the demo uses for its side of the link. */
  const LocalSap: nat := 0x20

  /** The parameters the general bytes announce: LLCP version 1.1, an MIU
      extension of 1920, the well-known services 0 and 1, a link timeout of
      0x32 (times 10 ms) and link service classes 1 and 2. */
  const GbParams: seq<Param> := [
    Param(ParamVersion, [0x11]), Param(ParamMiux, [0x07, 0x80]), Param(ParamWks, [0x00, 0x03]),
    Param(ParamLto, [0x32]), Param(ParamOpt, [0x03])]

  /** The service name the CONNECT asks for. */
  const SnepServiceName: string := "urn:nfc:sn:snep"

  /** The bytes of the service name inside `ndefInit`. */
  const SnepNameBytes: seq<uint8> := [
    0x75, 0x72, 0x6E, 0x3A, 0x6E, 0x66, 0x63, 0x3A, 0x73, 0x6E, 0x3A, 0x73, 0x6E, 0x65, 0x70]

  /** The parameters of the CONNECT: service name, MIU extension, receive
      window. */
  const ConnectParams: seq<Param> := [
    Param(ParamSn, SnepNameBytes), Param(ParamMiux, [0x07, 0x80]), Param(ParamRw, [0x02])]

  /** The URI the demo pushes. */
  const PushedUri: string := "http://www.st.com"

  /** The NDEF record inside the SNEP PUT. */
  const UriRecordBytes: seq<uint8> := NdefUriStCom[9..]

  /** The URI-record payload: code 0x00, then the URI. */
  const UriPayload: seq<uint8> := NdefUriStCom[16..]

  lemma Nfcid3Length()
    ensures |Nfcid3| == Nfcid3Len
  {
  }

  /** The last three parameters of the general bytes. */
  lemma GbTailEncoding()
    ensures EncodeParams(GbParams[2..]) == Gb[10..]
  {
    var ps := GbParams;
    assert EncodeParams(ps[4..]) == Gb[17..] by {
      assert ps[4..][1..] == [];
    }
    assert EncodeParams(ps[3..]) == Gb[14..] by {
      assert ps[3..][1..] == ps[4..];
    }
    assert ps[2..][1..] == ps[3..];
  }

  /** The general bytes after the magic number encode `GbParams`. */
  lemma GbEncoding()
    ensures EncodeParams(GbParams) == Gb[3..]
  {
    var ps := GbParams;
    GbTailEncoding();
    assert EncodeParams(ps[1..]) == Gb[6..] by {
      assert ps[1..][1..] == ps[2..];
    }
  }

  /** The general bytes are the LLCP magic number followed by parameters
      that consume them exactly, each of the size its type prescribes; the
      length handed to discovery is their size. */
  lemma GbLayout()
    ensures |Gb| == GbLen && Gb[..3] == Magic
    ensures ParseParams(Gb[3..]) == Some(GbParams)
    ensures forall i :: 0 <= i < |GbParams| ==> WellFormed(GbParams[i])
    ensures Miu(GbParams[1]) == 2048
  {
    GbEncoding();
    ParseEncode(GbParams);
    GbParamsWellFormed();
  }

  lemma GbParamsWellFormed()
    ensures forall i :: 0 <= i < |GbParams| ==> WellFormed(GbParams[i])
    ensures Miu(GbParams[1]) == 2048
  {
    assert WellFormed(GbParams[0]) && WellFormed(GbParams[1]) && WellFormed(GbParams[2]);
    assert WellFormed(GbParams[3]) && WellFormed(GbParams[4]);
  }

  /** The SYMM PDU is a bare header: SYMM between the link-management SAPs. */
  lemma SymmLayout()
    ensures |LlcpSymm| == 2 && DecodeHeader(LlcpSymm) == Some(Header(0, PtypeSymm, 0))
  {
  }

  /** `ndefInit` is its header, the service-name parameter and two short
      parameters. */
  lemma ConnectPieces()
    ensures NdefInit[2..] == [0x06, 0x0F] + SnepNameBytes + [0x02, 0x02, 0x07, 0x80, 0x05, 0x01, 0x02]
  {
    var x: seq<uint8> := [0x06, 0x0F] + SnepNameBytes + [0x02, 0x02, 0x07, 0x80, 0x05, 0x01, 0x02];
    assert NdefInit == [0x05, 0x20] + x;
  }

  /** The parameters of `ndefInit` after its header encode `ConnectParams`. */
  lemma ConnectEncoding()
    ensures EncodeParams(ConnectParams) == NdefInit[2..]
  {
    var ps := ConnectParams;
    ConnectPieces();
    assert EncodeParams(ps[2..]) == [0x05, 0x01, 0x02] by {
      assert ps[2..][1..] == [];
    }
    assert EncodeParams(ps[1..]) == [0x02, 0x02, 0x07, 0x80, 0x05, 0x01, 0x02] by {
      assert ps[1..][1..] == ps[2..];
    }
    assert EncodeParam(ps[0]) == [0x06, 0x0F] + SnepNameBytes;
  }

  /** The two header bytes of `ndefInit`. */
  lemma ConnectHeader()
    ensures |NdefInit| == 26
    ensures DecodeHeader(NdefInit) == Some(Header(SapSdp, PtypeConnect, LocalSap))
  {
    assert NdefInit[0] == 0x05 && NdefInit[1] == 0x20;
  }

  /** The service-name bytes spell "urn:nfc:sn:snep". */
  lemma SnepNameSpelling()
    ensures Chars(SnepNameBytes) == SnepServiceName
  {
    var c := Chars(SnepNameBytes);
    assert forall i :: 0 <= i < |c| ==> c[i] == SnepServiceName[i];
  }

  /** `ndefInit` is a CONNECT from the demo's SAP to the service discovery
      SAP, which connects by name; its parameters after the two-byte header
      consume it exactly and name the SNEP service. */
  lemma ConnectLayout()
    ensures |NdefInit| == 26
    ensures DecodeHeader(NdefInit) == Some(Header(SapSdp, PtypeConnect, LocalSap))
    ensures ParseParams(NdefInit[2..]) == Some(ConnectParams)
    ensures forall i :: 0 <= i < |ConnectParams| ==> WellFormed(ConnectParams[i])
    ensures ConnectParams[0].tag == ParamSn && Chars(ConnectParams[0].value) == SnepServiceName
    ensures Miu(ConnectParams[1]) == 2048
  {
    ConnectHeader();
    ConnectEncoding();
    ParseEncode(ConnectParams);
    SnepNameSpelling();
    ConnectParamsWellFormed();
  }

  lemma ConnectParamsWellFormed()
    ensures forall i :: 0 <= i < |ConnectParams| ==> WellFormed(ConnectParams[i])
    ensures Miu(ConnectParams[1]) == 2048
  {
    assert WellFormed(ConnectParams[0]) && WellFormed(ConnectParams[1]) && WellFormed(ConnectParams[2]);
  }

  /** The SNEP part of `ndefUriSTcom`: version, request code, the length 25
      in four big-endian bytes, then the record. */
  lemma UriFramePieces()
    ensures NdefUriStCom[3..] == [0x10, 0x02] + Be32(25) + UriRecordBytes
  {
    var snepHead: seq<uint8> := [0x10, 0x02, 0x00, 0x00, 0x00, 0x19];
    UriRecordRest();
    assert NdefUriStCom == [0x13, 0x20, 0x00] + (snepHead + UriRecordBytes);
    DropPrefix([0x13, 0x20, 0x00], snepHead + UriRecordBytes);
    assert Be32(25) == [0, 0, 0, 25];
    assert [0x10, 0x02] + Be32(25) == snepHead;
  }

  /** `ndefUriSTcom` is an information PDU from the demo's SAP to the SNEP
      SAP with both sequence numbers zero. */
  lemma UriFrameHeader()
    ensures |NdefUriStCom| == 34
    ensures DecodeHeader(NdefUriStCom) == Some(Header(SapSnep, PtypeInformation, LocalSap))
    ensures NdefUriStCom[2] == 0
  {
  }

  /** After the LLCP header and sequence byte, `ndefUriSTcom` is a SNEP 1.0
      PUT whose length field (0x19 = 25) is exactly the size of the record
      after it. */
  lemma UriFramePut()
    ensures Snep.Decode(NdefUriStCom[3..]) == Some(Snep.Message(Snep.Version10, Snep.RequestPut, UriRecordBytes))
    ensures |UriRecordBytes| == 25
  {
    var m := Snep.Message(Snep.Version10, Snep.RequestPut, UriRecordBytes);
    UriFramePieces();
    Snep.DecodeEncode(m);
  }

  /** The bytes of the URI inside `ndefUriSTcom`. */
  const UriBytes: seq<uint8> := [
    0x68, 0x74, 0x74, 0x70, 0x3a, 0x2f, 0x2f, 0x77, 0x77, 0x77, 0x2e, 0x73, 0x74, 0x2e, 0x63, 0x6f, 0x6d]

  /** `ndefUriSTcom` cut after the SNEP header and after the record header. */
  lemma UriFrameSplit()
    ensures NdefUriStCom == [0x13, 0x20, 0x00, 0x10, 0x02, 0x00, 0x00, 0x00, 0x19]
      + ([0xc1, 0x01, 0x00, 0x00, 0x00, 0x12, 0x55] + ([0x00] + UriBytes))
  {
  }

  /** The bytes after a prefix. */
  lemma DropPrefix(a: seq<uint8>, b: seq<uint8>)
    ensures (a + b)[|a|..] == b
  {
  }

  /** `ndefUriSTcom` is its nine header bytes followed by the record. */
  lemma UriRecordRest()
    ensures NdefUriStCom == [0x13, 0x20, 0x00, 0x10, 0x02, 0x00, 0x00, 0x00, 0x19] + UriRecordBytes
  {
    var head: seq<uint8> := [0x13, 0x20, 0x00, 0x10, 0x02, 0x00, 0x00, 0x00, 0x19];
    UriFrameSplit();
    DropPrefix(head, [0xc1, 0x01, 0x00, 0x00, 0x00, 0x12, 0x55] + ([0x00] + UriBytes));
  }

  /** The URI payload: the identifier code 0x00, then the URI bytes. */
  lemma UriPayloadBytes()
    ensures UriPayload == [0x00] + UriBytes
  {
    var head: seq<uint8> := [0x13, 0x20, 0x00, 0x10, 0x02, 0x00, 0x00, 0x00, 0x19];
    var recHead: seq<uint8> := [0xc1, 0x01, 0x00, 0x00, 0x00, 0x12, 0x55];
    UriFrameSplit();
    assert NdefUriStCom == (head + recHead) + ([0x00] + UriBytes);
    DropPrefix(head + recHead, [0x00] + UriBytes);
  }

  /** The record: its seven header bytes, then the payload. */
  lemma UriRecordSplit()
    ensures UriRecordBytes == [0xc1, 0x01, 0x00, 0x00, 0x00, 0x12, 0x55] + UriPayload
  {
    var head: seq<uint8> := [0x13, 0x20, 0x00, 0x10, 0x02, 0x00, 0x00, 0x00, 0x19];
    var recHead: seq<uint8> := [0xc1, 0x01, 0x00, 0x00, 0x00, 0x12, 0x55];
    UriFrameSplit();
    DropPrefix(head, recHead + ([0x00] + UriBytes));
    UriPayloadBytes();
  }

  /** The record is a flags byte, the type length 1, the payload length 18
      in four big-endian bytes, the type "U", then the identifier code 0x00
      and the URI bytes. */
  lemma UriRecordPieces()
    ensures UriRecordBytes == [0xc1, 0x01] + Be32(18) + NdefRecord.UriType + UriPayload
    ensures UriPayload == [0x00] + UriBytes
  {
    UriRecordSplit();
    UriPayloadBytes();
    assert Be32(18) == [0, 0, 0, 18];
    assert [0xc1, 0x01] + Be32(18) + NdefRecord.UriType == [0xc1, 0x01, 0x00, 0x00, 0x00, 0x12, 0x55];
  }

  /** The URI bytes spell "http://www.st.com". */
  lemma UriSpelling()
    ensures Chars(UriBytes) == PushedUri
  {
    var c := Chars(UriBytes);
    assert forall i :: 0 <= i < |c| ==> c[i] == PushedUri[i];
  }

  /** The single well-known "U" record inside the PUT. */
  const UriRecord := NdefRecord.Record(true, true, false, false, NdefRecord.TnfWellKnown, NdefRecord.UriType, [], UriPayload)

  /** The record is a single well-known "U" record (MB and ME set, a
      four-byte payload length, no identifier) whose payload length field
      (0x12 = 18) is the identifier code 0x00 plus the 17 characters of the
      URI, and whose URI is "http://www.st.com". */
  lemma UriRecordLayout()
    ensures NdefRecord.Decode(UriRecordBytes) == Some(UriRecord)
    ensures |UriPayload| == 18 == 1 + |PushedUri| && UriPayload[0] == 0
    ensures NdefRecord.Uri(UriPayload) == Some(PushedUri)
  {
    UriRecordEncoding();
    NdefRecord.DecodeEncode(UriRecord);
    UriPayloadUri();
  }

  /** The record bytes are the encoding of the record. */
  lemma UriRecordEncoding()
    ensures NdefRecord.Valid(UriRecord) && NdefRecord.Encode(UriRecord) == UriRecordBytes
  {
    assert NdefRecord.Valid(UriRecord) by {
      UriPayloadBytes();
    }
    assert NdefRecord.Flags(UriRecord) == 0xc1;
    assert NdefRecord.PayloadLenField(UriRecord) == Be32(18) by {
      UriPayloadBytes();
    }
    assert NdefRecord.Encode(UriRecord)
      == [0xc1, 0x01] + Be32(18) + [] + NdefRecord.UriType + [] + UriPayload;
    UriRecordPieces();
  }

  /** The payload: the code 0x00, then the 17 characters of the URI. */
  lemma UriPayloadUri()
    ensures |UriPayload| == 18 == 1 + |PushedUri| && UriPayload[0] == 0
    ensures NdefRecord.Uri(UriPayload) == Some(PushedUri)
  {
    UriPayloadBytes();
    NdefRecord.UriUnabbreviated(UriPayload);
    assert UriPayload[1..] == UriBytes;
    UriSpelling();
  }
}
