/**
 * The AAR write demo (example 508): discovery polls for NFC-V; an activated
 * tag has its UID printed and its NDEF context initialised and detected. A
 * tag without NDEF is formatted and detected again. Then a message holding
 * one Android Application Record for "com.st.st25nfc" is built, encoded
 * into the 8192-byte buffer and written. The demo then waits, by
 * re-issuing an inventory every 130 ms, until the tag leaves the field.
 */
module NdefAar {
  import opened Wrappers
  import opened Rfal
  import opened Trace
  import opened DemoCycle
  import opened TagSession

  /** Bitwise or of the codes, folded from the left as the `err |= ...`
      chain does. */
  function OrAll(codes: seq<ReturnCode>): ReturnCode {
    if codes == [] then ErrNone else OrAll(codes[..|codes| - 1]) | codes[|codes| - 1]
  }

  lemma OrNone(x: ReturnCode, y: ReturnCode)
    ensures x | y == ErrNone <==> x == ErrNone && y == ErrNone
  {
  }

  /** Every bit set in `c` is set in `x`. */
  predicate Covers(x: ReturnCode, c: ReturnCode) {
    x & c == c
  }

  lemma OrKeepsBits(x: ReturnCode, y: ReturnCode, c: ReturnCode)
    requires Covers(x, c)
    ensures Covers(x | y, c) && Covers(y | x, c)
  {
  }

  lemma SelfBits(x: ReturnCode)
    ensures Covers(x, x)
  {
  }

  /** The accumulated code is `ERR_NONE` exactly when every code is. */
  lemma {:induction false} OrAllNone(codes: seq<ReturnCode>)
    ensures OrAll(codes) == ErrNone <==> forall i :: 0 <= i < |codes| ==> codes[i] == ErrNone
  {
    if codes != [] {
      var init := codes[..|codes| - 1];
      var last := codes[|codes| - 1];
      OrAllNone(init);
      OrNone(OrAll(init), last);
      assert forall i :: 0 <= i < |init| ==> init[i] == codes[i];
    }
  }

  /** Every error bit of every code survives in the accumulated code. */
  lemma {:induction false} OrAllKeepsBits(codes: seq<ReturnCode>, i: nat)
    requires i < |codes|
    ensures Covers(OrAll(codes), codes[i])
  {
    var init := codes[..|codes| - 1];
    var last := codes[|codes| - 1];
    if i < |codes| - 1 {
      OrAllKeepsBits(init, i);
      assert init[i] == codes[i];
      OrKeepsBits(OrAll(init), last, codes[i]);
    } else {
      SelfBits(last);
      OrKeepsBits(last, OrAll(init), last);
    }
  }

  /** The Android package the record names. */
  const PackageName: string := "com.st.st25nfc"

  /** `ndefAndroidPackName`: the bytes of "com.st.st25nfc" followed by the
      NUL that ends the string literal. */
  const PackNameArray: seq<uint8> :=
    [0x63, 0x6F, 0x6D, 0x2E, 0x73, 0x74, 0x2E, 0x73, 0x74, 0x32, 0x35, 0x6E, 0x66, 0x63, 0x00]

  /** The buffer handed to `ndefRtdAar`: `sizeof(ndefAndroidPackName) - 1`
      bytes of the array. */
  const PackageArg: seq<uint8> := PackNameArray[..|PackNameArray| - 1]

  /** The package name passed is the 14 characters of "com.st.st25nfc",
      byte for byte: the length leaves out exactly the terminating NUL. */
  lemma PackageArgIsName()
    ensures |PackNameArray| == 15 && PackNameArray[14] == 0
    ensures |PackageArg| == |PackageName| == 14
    ensures forall i :: 0 <= i < 14 ==> PackageArg[i] as int == PackageName[i] as int && PackageArg[i] != 0
  {
  }

  /** What the NDEF library answers to one AAR flow. `format` is the answer
      of the format call, `redetect` of the detect after it; `encodedLen`
      is the length the encoder reports. */
  datatype AarAnswers = AarAnswers(
    contextInit: ReturnCode,
    detect: ReturnCode,
    format: ReturnCode,
    redetect: ReturnCode,
    messageInit: ReturnCode,
    aar: ReturnCode,
    aarToRecord: ReturnCode,
    append: ReturnCode,
    encode: ReturnCode,
    encodedLen: nat,
    write: ReturnCode)

  /** The codes of the five message-building calls, in call order. */
  function BuildCodes(a: AarAnswers): seq<ReturnCode> {
    [a.messageInit, a.aar, a.aarToRecord, a.append, a.encode]
  }

  /** The tag holds an NDEF area after detection, possibly after formatting. */
  predicate Writable(a: AarAnswers) {
    a.detect == ErrNone || a.redetect == ErrNone
  }

  /** Detection, and on failure the format and second detection. */
  function DetectStage(a: AarAnswers): seq<Call> {
    if a.detect == ErrNone then [NdefDetect]
    else
      [NdefDetect, Log(NdefDetectFailed(a.detect)), Log(Formatting), NdefFormat, NdefDetect]
      + (if a.redetect != ErrNone then [Log(CannotFormat(a.redetect))] else [])
  }

  /** The five message-building calls, each made whatever the earlier ones
      returned. */
  const BuildCalls: seq<Call> :=
    [NdefMessageInit, NdefRtdAar(PackageArg), NdefAarToRecord, NdefMessageAppend, NdefMessageEncode(RawBufLen)]

  /** The write of the encoded message, or the creation-failure line. */
  function WriteStage(a: AarAnswers): seq<Call> {
    if OrAll(BuildCodes(a)) != ErrNone then [Log(CreationFailed)]
    else [NdefWriteRaw(a.encodedLen), Log(if a.write != ErrNone then WriteFailed(a.write) else WroteAar)]
  }

  /** `demoNdef` of this demo. */
  function AarFlow(a: AarAnswers): (r: seq<Call>)
    ensures |r| > 0 && r[0] == NdefContextInit
  {
    if a.contextInit != ErrNone then [NdefContextInit, Log(NdefInitFailed(a.contextInit))]
    else [NdefContextInit] + DetectStage(a) + WritePart(a)
  }

  /** The capability-container dump, the message build and the write, made
      only when the tag holds an NDEF area. */
  function WritePart(a: AarAnswers): seq<Call> {
    if Writable(a) then [CcDump] + BuildCalls + WriteStage(a) else []
  }

  /** Reference: the library steps the flow should make. Initialisation;
      then detect; a second detect after a format when the first failed;
      then, when the tag holds an NDEF area, all five building calls; and
      the write of the encoded length when none of them failed. */
  function AarSteps(a: AarAnswers): seq<Call> {
    if a.contextInit != ErrNone then [NdefContextInit]
    else
      var detect := if a.detect == ErrNone then [NdefDetect] else [NdefDetect, NdefFormat, NdefDetect];
      var build := if !Writable(a) then []
        else if forall i :: 0 <= i < 5 ==> BuildCodes(a)[i] == ErrNone then BuildCalls + [NdefWriteRaw(a.encodedLen)]
        else BuildCalls;
      [NdefContextInit] + detect + build
  }

  lemma DetectStageSteps(a: AarAnswers)
    ensures NdefSteps(DetectStage(a)) == if a.detect == ErrNone then [NdefDetect] else [NdefDetect, NdefFormat, NdefDetect]
  {
    var d := DetectStage(a);
    if a.detect == ErrNone {
      StepsOf1(NdefDetect);
    } else {
      var tail := if a.redetect != ErrNone then [Log(CannotFormat(a.redetect))] else [];
      NoNdefSteps(tail);
      StepsOf1(NdefDetect);
      NoSteps2(Log(NdefDetectFailed(a.detect)), Log(Formatting));
      StepsOf1(NdefFormat);
      assert [NdefDetect, Log(NdefDetectFailed(a.detect)), Log(Formatting), NdefFormat, NdefDetect]
        == [NdefDetect] + [Log(NdefDetectFailed(a.detect)), Log(Formatting)] + [NdefFormat] + [NdefDetect];
      NdefStepsAppend([NdefDetect], [Log(NdefDetectFailed(a.detect)), Log(Formatting)]);
      NdefStepsAppend([NdefDetect] + [Log(NdefDetectFailed(a.detect)), Log(Formatting)], [NdefFormat]);
      NdefStepsAppend([NdefDetect] + [Log(NdefDetectFailed(a.detect)), Log(Formatting)] + [NdefFormat], [NdefDetect]);
      NdefStepsAppend([NdefDetect, Log(NdefDetectFailed(a.detect)), Log(Formatting), NdefFormat, NdefDetect], tail);
    }
  }

  lemma BuildCallsSteps()
    ensures NdefSteps(BuildCalls) == BuildCalls
  {
    AllNdefSteps(BuildCalls);
  }

  lemma WriteStageSteps(a: AarAnswers)
    ensures NdefSteps(WriteStage(a)) ==
      if forall i :: 0 <= i < 5 ==> BuildCodes(a)[i] == ErrNone then [NdefWriteRaw(a.encodedLen)] else []
  {
    OrAllNone(BuildCodes(a));
    if OrAll(BuildCodes(a)) != ErrNone {
      StepsOf1(Log(CreationFailed));
    } else {
      var line := Log(if a.write != ErrNone then WriteFailed(a.write) else WroteAar);
      StepsOf1(NdefWriteRaw(a.encodedLen));
      StepsOf1(line);
      NdefStepsAppend([NdefWriteRaw(a.encodedLen)], [line]);
      assert WriteStage(a) == [NdefWriteRaw(a.encodedLen)] + [line];
    }
  }

  /** The library steps of the write part: the five building calls and,
      when none of them failed, the write. */
  lemma WritePartSteps(a: AarAnswers)
    requires Writable(a)
    ensures NdefSteps(WritePart(a)) ==
      if forall i :: 0 <= i < 5 ==> BuildCodes(a)[i] == ErrNone then BuildCalls + [NdefWriteRaw(a.encodedLen)] else BuildCalls
  {
    StepsOf1(CcDump);
    BuildCallsSteps();
    WriteStageSteps(a);
    NdefStepsAppend([CcDump], BuildCalls);
    NdefStepsAppend([CcDump] + BuildCalls, WriteStage(a));
  }

  /** The library steps of the flow are those of the reference. */
  lemma AarFlowSteps(a: AarAnswers)
    ensures NdefSteps(AarFlow(a)) == AarSteps(a)
  {
    if a.contextInit != ErrNone {
      StepsOf1(NdefContextInit);
      StepsOf1(Log(NdefInitFailed(a.contextInit)));
      NdefStepsAppend([NdefContextInit], [Log(NdefInitFailed(a.contextInit))]);
      assert AarFlow(a) == [NdefContextInit] + [Log(NdefInitFailed(a.contextInit))];
    } else {
      StepsOf1(NdefContextInit);
      DetectStageSteps(a);
      NdefStepsAppend([NdefContextInit], DetectStage(a));
      NdefStepsAppend([NdefContextInit] + DetectStage(a), WritePart(a));
      if Writable(a) {
        WritePartSteps(a);
      }
    }
  }

  /** Detection only detects, formats and logs. */
  lemma DetectStageOnly(a: AarAnswers, x: Call)
    requires x != NdefDetect && x != NdefFormat && !x.Log?
    ensures x !in DetectStage(a)
  {
  }

  /** The accumulated building code is `ERR_NONE` exactly when each of the
      five calls returned it. */
  lemma BuildCodesNone(a: AarAnswers)
    ensures OrAll(BuildCodes(a)) == ErrNone <==>
      a.messageInit == ErrNone && a.aar == ErrNone && a.aarToRecord == ErrNone
      && a.append == ErrNone && a.encode == ErrNone
  {
    var c := BuildCodes(a);
    OrAllNone(c);
    assert c[0] == a.messageInit && c[1] == a.aar && c[2] == a.aarToRecord && c[3] == a.append && c[4] == a.encode;
  }

  /** The write stage writes exactly when no building call failed, and
      then the encoded length. */
  lemma WriteStageWrites(a: AarAnswers, n: nat)
    ensures NdefWriteRaw(n) in WriteStage(a) <==> n == a.encodedLen && OrAll(BuildCodes(a)) == ErrNone
  {
  }

  /** The tag is written exactly when initialisation succeeded, the tag
      holds an NDEF area (at once or after formatting) and none of the five
      building calls failed; the length written is the encoded length. */
  lemma WriteExactlyWhenBuilt(a: AarAnswers)
    ensures NdefWriteRaw(a.encodedLen) in AarFlow(a) <==>
      a.contextInit == ErrNone && Writable(a)
      && a.messageInit == ErrNone && a.aar == ErrNone && a.aarToRecord == ErrNone
      && a.append == ErrNone && a.encode == ErrNone
    ensures forall n :: NdefWriteRaw(n) in AarFlow(a) ==> n == a.encodedLen
  {
    BuildCodesNone(a);
    forall n
      ensures NdefWriteRaw(n) in AarFlow(a) <==>
        a.contextInit == ErrNone && Writable(a) && n == a.encodedLen && OrAll(BuildCodes(a)) == ErrNone
    {
      var x := NdefWriteRaw(n);
      if a.contextInit == ErrNone {
        DetectStageOnly(a, x);
        assert x !in [NdefContextInit] + DetectStage(a);
        if Writable(a) {
          WriteStageWrites(a, n);
          assert x !in [CcDump] + BuildCalls;
          assert AarFlow(a) == [NdefContextInit] + DetectStage(a) + ([CcDump] + BuildCalls) + WriteStage(a);
        }
      }
    }
  }

  /** The building calls are made as a block: all five or none. */
  lemma BuildAllOrNothing(a: AarAnswers)
    ensures NdefMessageEncode(RawBufLen) in AarFlow(a) <==> a.contextInit == ErrNone && Writable(a)
    ensures NdefMessageInit in AarFlow(a) <==> a.contextInit == ErrNone && Writable(a)
  {
    if a.contextInit == ErrNone && Writable(a) {
      assert AarFlow(a) == [NdefContextInit] + DetectStage(a) + ([CcDump] + BuildCalls + WriteStage(a));
      assert BuildCalls[0] == NdefMessageInit && BuildCalls[4] == NdefMessageEncode(RawBufLen);
    }
  }

  /** A tag is formatted exactly when the first detection failed. */
  lemma FormatExactlyOnDetectFailure(a: AarAnswers)
    ensures NdefFormat in AarFlow(a) <==> a.contextInit == ErrNone && a.detect != ErrNone
  {
    if a.contextInit == ErrNone {
      assert NdefFormat !in ([CcDump] + BuildCalls);
      assert NdefFormat !in WriteStage(a) by {
        if OrAll(BuildCodes(a)) == ErrNone {
          assert WriteStage(a) == [NdefWriteRaw(a.encodedLen), WriteStage(a)[1]];
        }
      }
    }
  }

  /** The answer of the format call never matters: the flow only looks at
      the detection that follows it, and "Tag cannot be formatted" reports
      that detection's code. */
  lemma FormatResultIgnored(a: AarAnswers, code: ReturnCode)
    ensures AarFlow(a.(format := code)) == AarFlow(a)
    ensures forall c :: Log(CannotFormat(c)) in AarFlow(a) ==> c == a.redetect && a.detect != ErrNone
  {
    if a.contextInit == ErrNone {
      var head := [NdefContextInit] + DetectStage(a);
      var tail := if Writable(a) then [CcDump] + BuildCalls + WriteStage(a) else [];
      assert AarFlow(a) == head + tail;
      assert forall c :: Log(CannotFormat(c)) !in tail by {
        if Writable(a) && OrAll(BuildCodes(a)) == ErrNone {
          assert WriteStage(a) == [NdefWriteRaw(a.encodedLen), WriteStage(a)[1]];
        }
      }
    }
  }

  /** The success line is printed exactly when the write returned
      `ERR_NONE`. */
  lemma WroteAarExactlyOnSuccess(a: AarAnswers)
    ensures Log(WroteAar) in AarFlow(a) <==> NdefWriteRaw(a.encodedLen) in AarFlow(a) && a.write == ErrNone
  {
    WriteExactlyWhenBuilt(a);
    OrAllNone(BuildCodes(a));
    if a.contextInit == ErrNone {
      var head := [NdefContextInit] + DetectStage(a);
      assert Log(WroteAar) !in head;
      if Writable(a) {
        assert AarFlow(a) == head + ([CcDump] + BuildCalls) + WriteStage(a);
        assert Log(WroteAar) !in [CcDump] + BuildCalls;
      }
    }
  }

  /** What one call of `demoCycle` observes. */
  datatype Tick = Tick(activated: bool, device: Device, ndef: AarAnswers, inventory: seq<ReturnCode>)

  /** RFAL reports an 8-byte identifier for an NFC-V device, and the tag
      eventually stops answering inventories. */
  predicate AdmissibleTick(t: Tick) {
    t.activated && t.device.kind == NfcV ==> Ready(t.device.nfcid, t.inventory)
  }

  /** `AdmissibleTick`, needed only when the tick can dispatch. */
  predicate Admissible(l: Loop, t: Tick) {
    l.state == Discovery ==> AdmissibleTick(t)
  }

  /** `demoIni`: a successful `rfalNfcInitialize` fills the parameters and
      arms discovery; there is no notification callback. */
  function Ini(l: Loop, initStatus: ReturnCode): (r: Init<Loop>)
    ensures r.ok <==> initStatus == ErrNone
    ensures !r.ok ==> r.next == l
    ensures r.ok ==> r.next.state == StartDiscovery
    ensures r.ok ==> var p := r.next.params;
      && p.compMode == Some(CompModeNfc) && p.devLimit == 1 && p.totalDuration == 1000
      && !p.wakeupEnabled && p.wakeupConfigDefault
      && p.techs == {TechV} && p.notify == NoNotifier
      && p.nfcfBR == l.params.nfcfBR && p.ap2pBR == l.params.ap2pBR
      && p.nfcid3 == l.params.nfcid3 && p.gb == l.params.gb && p.gbLen == l.params.gbLen
  {
    if initStatus == ErrNone then Init(true, Loop(StartDiscovery, NfcvParams(l.params, NoNotifier)))
    else Init(false, l)
  }

  /** What happens between fetching the activated device and deactivating it. */
  function Handled(t: Tick): seq<Call>
    requires AdmissibleTick(t) && t.activated
  {
    TagSession.Activation(t.device.kind, t.device.nfcid, AarFlow(t.ndef), t.inventory)
  }

  /** `demoCycle`: the worker, then the shared state switch. */
  function Cycle(l: Loop, t: Tick): (r: Step<Loop>)
    requires Admissible(l, t)
    ensures |r.trace| > 0 && r.trace[0] == Worker
    ensures r.next.params == l.params
    ensures l.state == Discovery && t.activated ==>
      r.next.state == StartDiscovery && |r.trace| >= 4 && r.trace[|r.trace| - 2..] == Teardown
    ensures l.state == StartDiscovery ==> r.next.state == Discovery && r.trace == [Worker] + StartCalls(l.params)
    ensures l.state == NotInit || (l.state == Discovery && !t.activated) ==> r.next == l && r.trace == [Worker]
  {
    var s := Switch(l, t.activated, if l.state == Discovery && t.activated then Handled(t) else []);
    Step(s.next, [Worker] + s.trace)
  }

  /** The library steps of a dispatching tick: one AAR flow for an NFC-V
      tag, none for any other device. */
  lemma TickSteps(l: Loop, t: Tick)
    requires Admissible(l, t) && l.state == Discovery && t.activated
    ensures NdefSteps(Cycle(l, t).trace) == if t.device.kind == NfcV then AarSteps(t.ndef) else []
  {
    var h := Handled(t);
    var s := Switch(l, true, h);
    StepsOf1(Worker);
    SwitchSteps(l, h);
    NdefStepsAppend([Worker], s.trace);
    ActivationSteps(t.device.kind, t.device.nfcid, AarFlow(t.ndef), t.inventory);
    AarFlowSteps(t.ndef);
  }

  /** The globals before `demoIni`. */
  const Initial := DemoCycle.Initial

  /** Ticks in sequence. */
  function Run(l: Loop, ticks: seq<Tick>): Loop
    requires forall i :: 0 <= i < |ticks| ==> AdmissibleTick(ticks[i])
    decreases |ticks|
  {
    if ticks == [] then l else Run(Cycle(l, ticks[0]).next, ticks[1..])
  }

  /** The discovery parameters `demoIni` set are never changed by a tick. */
  lemma {:induction false} ParamsStable(l: Loop, ticks: seq<Tick>)
    requires forall i :: 0 <= i < |ticks| ==> AdmissibleTick(ticks[i])
    ensures Run(l, ticks).params == l.params
    decreases |ticks|
  {
    if ticks != [] {
      ParamsStable(Cycle(l, ticks[0]).next, ticks[1..]);
    }
  }
}
