/**
 * The NDEF read demo (example 504): discovery polls for NFC-V; an activated
 * tag has its UID printed, its NDEF message detected, read, decoded and
 * dumped, and the demo then waits, by re-issuing an inventory every 130 ms,
 * until the tag leaves the field. The menu bookkeeping (feature, prompt,
 * revert timer, LED blinking) is kept although only the read feature is
 * ever selected.
 */
module NdefRead {
  import opened Wrappers
  import opened Rfal
  import opened Trace
  import opened DemoCycle
  import opened TagSession

  /** `NDEF_DEMO_READ` and `NDEF_DEMO_FORMAT_TAG`. */
  const FeatureRead: uint8 := 0
  const FeatureFormat: uint8 := 3

  /** The value of `ndefDemoPrevFeature` that forces the prompt. */
  const NoFeature: uint8 := 0xFF

  /** `ndefStates`: the printed name of each lifecycle state. */
  const StateNames: seq<string> := ["INVALID", "INITIALIZED", "READ/WRITE", "READ-ONLY"]

  /** The numeric value of an `ndefState`, which indexes `ndefStates`. */
  function StateIndex(s: NdefState): (i: nat)
    ensures i < |StateNames|
  {
    match s
    case NdefInvalid => 0
    case NdefInitialized => 1
    case NdefReadWrite => 2
    case NdefReadOnly => 3
  }

  /** The name the detect log line prints for a lifecycle state. */
  function StateName(s: NdefState): string {
    StateNames[StateIndex(s)]
  }

  /** The name table has exactly one entry per lifecycle state: every entry
      names some state and distinct states print distinct names. */
  lemma StateNamesExact()
    ensures |StateNames| == 4
    ensures forall i :: 0 <= i < |StateNames| ==> exists s :: StateName(s) == StateNames[i]
    ensures forall s1, s2 :: StateName(s1) == StateName(s2) ==> s1 == s2
  {
    assert StateName(NdefInvalid) == StateNames[0] && StateName(NdefInitialized) == StateNames[1];
    assert StateName(NdefReadWrite) == StateNames[2] && StateName(NdefReadOnly) == StateNames[3];
    forall s1, s2 | StateName(s1) == StateName(s2)
      ensures s1 == s2
    {
      NameLength(s1);
      NameLength(s2);
    }
  }

  /** The names have different lengths. */
  lemma NameLength(s: NdefState)
    ensures |StateName(s)| == match s
      case NdefInvalid => 7
      case NdefInitialized => 11
      case NdefReadWrite => 10
      case NdefReadOnly => 9
  {
  }

  /** What the NDEF library answers to one read flow. `info` is the lifecycle
      state detect fills in (left untouched when detect fails). */
  datatype ReadAnswers = ReadAnswers(
    contextInit: ReturnCode,
    detect: ReturnCode,
    info: NdefState,
    read: ReturnCode,
    rawLen: nat,
    decode: ReturnCode,
    dump: ReturnCode)

  /** The five library steps of a complete read, in order. */
  function FullRead(rawLen: nat): seq<Call> {
    [NdefContextInit, NdefDetect, NdefReadRaw(RawBufLen), NdefDecode(rawLen), NdefMessageDump]
  }

  /** How many of those steps run: each one only when every step before it
      succeeded, detect failure being tolerated only under the format
      feature, and an empty (INITIALIZED) tag stopping after detect. */
  function ReadReached(feature: uint8, a: ReadAnswers): (k: nat)
    ensures 1 <= k <= 5
  {
    if a.contextInit != ErrNone then 1
    else if a.detect != ErrNone && feature != FeatureFormat then 2
    else if a.info == NdefInitialized then 2
    else if a.read != ErrNone then 3
    else if a.decode != ErrNone then 4
    else 5
  }

  /** A log line reporting a failed step. */
  predicate IsFailureLog(x: Call) {
    x.Log? && (x.msg.NdefInitFailed? || x.msg.NdefDetectFailed? || x.msg.ReadFailed?
      || x.msg.DecodeFailed? || x.msg.DumpFailed?)
  }

  /** Dump of the decoded message; a failure is logged. */
  function DumpStage(a: ReadAnswers): seq<Call> {
    [NdefMessageDump] + (if a.dump != ErrNone then [Log(DumpFailed(a.dump))] else [])
  }

  /** Decode of the raw message (after its optional verbose dump), then the
      dump stage when decoding succeeded. */
  function DecodeStage(verbose: bool, a: ReadAnswers): seq<Call> {
    (if verbose then [RawDump(a.rawLen)] else []) + [NdefDecode(a.rawLen)]
    + (if a.decode != ErrNone then [Log(DecodeFailed(a.decode))] else DumpStage(a))
  }

  /** Read of the raw message into the 8192-byte buffer, then the decode
      stage when reading succeeded. */
  function ReadStages(verbose: bool, a: ReadAnswers): seq<Call> {
    [NdefReadRaw(RawBufLen)]
    + (if a.read != ErrNone then [Log(ReadFailed(a.read))] else DecodeStage(verbose, a))
  }

  /** The lines a read flow logs on detect success. */
  function Detected(verbose: bool, info: NdefState): seq<Call> {
    [Log(NdefDetected(StateName(info))), CcDump] + (if verbose then [Log(NdefLenOffset)] else [])
  }

  /** Context initialisation succeeded: optional system-information dump,
      then detect. */
  function DetectHead(verbose: bool, kind: DevType): seq<Call> {
    [NdefContextInit] + (if verbose && kind == NfcV then [SysInfoDump] else []) + [NdefDetect]
  }

  /** `demoNdef` of this demo, for the menu feature `feature`. */
  function ReadFlow(feature: uint8, verbose: bool, kind: DevType, a: ReadAnswers): (r: seq<Call>)
    ensures |r| > 0 && r[0] == NdefContextInit
  {
    if a.contextInit != ErrNone then [NdefContextInit, Log(NdefInitFailed(a.contextInit))]
    else if a.detect != ErrNone && feature != FeatureFormat then
      DetectHead(verbose, kind) + [Log(NdefDetectFailed(a.detect))]
    else
      var detected := if a.detect != ErrNone then [Log(NdefDetectFailed(a.detect))] else Detected(verbose, a.info);
      if a.info == NdefInitialized then DetectHead(verbose, kind) + detected
      else DetectHead(verbose, kind) + detected + ReadStages(verbose, a)
  }

  lemma DumpStageSteps(a: ReadAnswers)
    ensures NdefSteps(DumpStage(a)) == [NdefMessageDump]
  {
    StepsOf1(NdefMessageDump);
    if a.dump != ErrNone {
      StepsOf1(Log(DumpFailed(a.dump)));
      NdefStepsAppend([NdefMessageDump], [Log(DumpFailed(a.dump))]);
    } else {
      assert DumpStage(a) == [NdefMessageDump];
    }
  }

  lemma DecodeStageSteps(verbose: bool, a: ReadAnswers)
    ensures NdefSteps(DecodeStage(verbose, a)) ==
      [NdefDecode(a.rawLen)] + (if a.decode != ErrNone then [] else [NdefMessageDump])
  {
    var pre := if verbose then [RawDump(a.rawLen)] else [];
    var post := if a.decode != ErrNone then [Log(DecodeFailed(a.decode))] else DumpStage(a);
    NoNdefSteps(pre);
    StepsOf1(NdefDecode(a.rawLen));
    if a.decode != ErrNone {
      StepsOf1(Log(DecodeFailed(a.decode)));
    } else {
      DumpStageSteps(a);
    }
    NdefStepsAppend(pre, [NdefDecode(a.rawLen)]);
    NdefStepsAppend(pre + [NdefDecode(a.rawLen)], post);
  }

  lemma ReadStagesSteps(verbose: bool, a: ReadAnswers)
    ensures NdefSteps(ReadStages(verbose, a)) ==
      [NdefReadRaw(RawBufLen)]
      + (if a.read != ErrNone then []
         else [NdefDecode(a.rawLen)] + (if a.decode != ErrNone then [] else [NdefMessageDump]))
  {
    var post := if a.read != ErrNone then [Log(ReadFailed(a.read))] else DecodeStage(verbose, a);
    StepsOf1(NdefReadRaw(RawBufLen));
    if a.read != ErrNone {
      StepsOf1(Log(ReadFailed(a.read)));
    } else {
      DecodeStageSteps(verbose, a);
    }
    NdefStepsAppend([NdefReadRaw(RawBufLen)], post);
  }

  lemma DetectHeadSteps(verbose: bool, kind: DevType)
    ensures NdefSteps(DetectHead(verbose, kind)) == [NdefContextInit, NdefDetect]
  {
    var sysInfo := if verbose && kind == NfcV then [SysInfoDump] else [];
    StepsOf1(NdefContextInit);
    StepsOf1(NdefDetect);
    NoNdefSteps(sysInfo);
    NdefStepsAppend([NdefContextInit], sysInfo);
    NdefStepsAppend([NdefContextInit] + sysInfo, [NdefDetect]);
  }

  lemma InitFailedSteps(feature: uint8, verbose: bool, kind: DevType, a: ReadAnswers)
    requires a.contextInit != ErrNone
    ensures NdefSteps(ReadFlow(feature, verbose, kind, a)) == [NdefContextInit]
  {
    StepsOf1(NdefContextInit);
    StepsOf1(Log(NdefInitFailed(a.contextInit)));
    NdefStepsAppend([NdefContextInit], [Log(NdefInitFailed(a.contextInit))]);
    assert ReadFlow(feature, verbose, kind, a) == [NdefContextInit] + [Log(NdefInitFailed(a.contextInit))];
  }

  lemma DetectFailedSteps(feature: uint8, verbose: bool, kind: DevType, a: ReadAnswers)
    requires a.contextInit == ErrNone && a.detect != ErrNone && feature != FeatureFormat
    ensures NdefSteps(ReadFlow(feature, verbose, kind, a)) == [NdefContextInit, NdefDetect]
  {
    var head := DetectHead(verbose, kind);
    DetectHeadSteps(verbose, kind);
    StepsOf1(Log(NdefDetectFailed(a.detect)));
    NdefStepsAppend(head, [Log(NdefDetectFailed(a.detect))]);
  }

  /** The log lines between detect and read. */
  function DetectLogs(a: ReadAnswers, verbose: bool): seq<Call> {
    if a.detect != ErrNone then [Log(NdefDetectFailed(a.detect))] else Detected(verbose, a.info)
  }

  lemma DetectedSteps(feature: uint8, verbose: bool, kind: DevType, a: ReadAnswers)
    requires a.contextInit == ErrNone && !(a.detect != ErrNone && feature != FeatureFormat)
    ensures ReadFlow(feature, verbose, kind, a) ==
      DetectHead(verbose, kind) + DetectLogs(a, verbose)
      + (if a.info == NdefInitialized then [] else ReadStages(verbose, a))
    ensures NdefSteps(DetectHead(verbose, kind) + DetectLogs(a, verbose)) == [NdefContextInit, NdefDetect]
  {
    var head := DetectHead(verbose, kind);
    var logs := DetectLogs(a, verbose);
    DetectHeadSteps(verbose, kind);
    NoNdefSteps(logs);
    NdefStepsAppend(head, logs);
  }

  /** The library steps of a read flow are exactly the first `ReadReached`
      steps of a complete read: strictly ordered, with the 8192-byte buffer
      as read capacity, and nothing after the first failure. */
  lemma ReadFlowSteps(feature: uint8, verbose: bool, kind: DevType, a: ReadAnswers)
    ensures NdefSteps(ReadFlow(feature, verbose, kind, a)) == FullRead(a.rawLen)[..ReadReached(feature, a)]
  {
    var full := FullRead(a.rawLen);
    var k := ReadReached(feature, a);
    if a.contextInit != ErrNone {
      InitFailedSteps(feature, verbose, kind, a);
      assert full[..k] == [NdefContextInit];
    } else if a.detect != ErrNone && feature != FeatureFormat {
      DetectFailedSteps(feature, verbose, kind, a);
      assert full[..k] == [NdefContextInit, NdefDetect];
    } else {
      DetectedSteps(feature, verbose, kind, a);
      if a.info == NdefInitialized {
        assert ReadFlow(feature, verbose, kind, a) == DetectHead(verbose, kind) + DetectLogs(a, verbose) + [];
        assert full[..k] == [NdefContextInit, NdefDetect];
      } else {
        ReadOnSteps(feature, verbose, kind, a);
      }
    }
  }

  /** A detected tag with content goes on to read it. */
  lemma ReadOnSteps(feature: uint8, verbose: bool, kind: DevType, a: ReadAnswers)
    requires a.contextInit == ErrNone && !(a.detect != ErrNone && feature != FeatureFormat)
    requires a.info != NdefInitialized
    ensures NdefSteps(ReadFlow(feature, verbose, kind, a)) == FullRead(a.rawLen)[..ReadReached(feature, a)]
  {
    var front := DetectHead(verbose, kind) + DetectLogs(a, verbose);
    DetectedSteps(feature, verbose, kind, a);
    NdefStepsAppend(front, ReadStages(verbose, a));
    ReadStagesSteps(verbose, a);
    FullReadAfterDetect(feature, a);
    assert ReadFlow(feature, verbose, kind, a) == front + ReadStages(verbose, a);
  }

  /** The steps of a read that gets past detection. */
  lemma FullReadAfterDetect(feature: uint8, a: ReadAnswers)
    requires a.contextInit == ErrNone && !(a.detect != ErrNone && feature != FeatureFormat)
    requires a.info != NdefInitialized
    ensures FullRead(a.rawLen)[..ReadReached(feature, a)] == [NdefContextInit, NdefDetect]
      + ([NdefReadRaw(RawBufLen)]
         + (if a.read != ErrNone then []
            else [NdefDecode(a.rawLen)] + (if a.decode != ErrNone then [] else [NdefMessageDump])))
  {
  }

  /** Any trace whose library steps are the first `k` steps of a complete
      read calls each of them at most once, and the `i`-th exactly when
      `i < k`. */
  lemma PrefixStages(t: seq<Call>, rawLen: nat, k: nat)
    requires 1 <= k <= 5 && NdefSteps(t) == FullRead(rawLen)[..k]
    ensures multiset(t)[NdefContextInit] == 1
    ensures NdefDetect in t <==> k >= 2
    ensures NdefReadRaw(RawBufLen) in t <==> k >= 3
    ensures NdefDecode(rawLen) in t <==> k >= 4
    ensures NdefMessageDump in t <==> k == 5
  {
    PrefixInitOnce(t, rawLen, k);
    PrefixStep(t, rawLen, k, 1);
    PrefixStep(t, rawLen, k, 2);
    PrefixStep(t, rawLen, k, 3);
    PrefixStep(t, rawLen, k, 4);
  }

  /** The `i`-th step of a complete read is in a trace whose steps are the
      first `k` exactly when `i < k`. */
  lemma PrefixStep(t: seq<Call>, rawLen: nat, k: nat, i: nat)
    requires 1 <= k <= 5 && i < 5 && NdefSteps(t) == FullRead(rawLen)[..k]
    ensures FullRead(rawLen)[i] in t <==> i < k
  {
    var x := FullRead(rawLen)[i];
    NdefStepsCount(t, x);
    assert x in t <==> x in NdefSteps(t);
    FullReadStages(rawLen);
    if i < k {
      assert NdefSteps(t)[i] == x;
    } else {
      assert forall j :: 0 <= j < k ==> Stage(NdefSteps(t)[j]) == j;
    }
  }

  /** The position of a step in a complete read. */
  function Stage(c: Call): int {
    match c
    case NdefContextInit => 0
    case NdefDetect => 1
    case NdefReadRaw(_) => 2
    case NdefDecode(_) => 3
    case NdefMessageDump => 4
    case _ => -1
  }

  lemma FullReadStages(rawLen: nat)
    ensures forall j :: 0 <= j < 5 ==> Stage(FullRead(rawLen)[j]) == j
  {
  }

  /** Context initialisation opens every read, once. */
  lemma PrefixInitOnce(t: seq<Call>, rawLen: nat, k: nat)
    requires 1 <= k <= 5 && NdefSteps(t) == FullRead(rawLen)[..k]
    ensures multiset(t)[NdefContextInit] == 1
  {
    var steps := FullRead(rawLen)[..k];
    NdefStepsCount(t, NdefContextInit);
    assert steps == [NdefContextInit] + steps[1..];
    assert NdefContextInit !in steps[1..];
  }

  /** The read flow calls each library step at most once, and a step runs
      exactly when every step before it succeeded. */
  lemma ReadFlowStages(feature: uint8, verbose: bool, kind: DevType, a: ReadAnswers)
    ensures var r := ReadFlow(feature, verbose, kind, a);
      && multiset(r)[NdefContextInit] == 1
      && (NdefDetect in r <==> a.contextInit == ErrNone)
      && (NdefReadRaw(RawBufLen) in r <==> ReadReached(feature, a) >= 3)
      && (NdefDecode(a.rawLen) in r <==> ReadReached(feature, a) >= 4)
      && (NdefMessageDump in r <==> ReadReached(feature, a) == 5)
  {
    ReadFlowSteps(feature, verbose, kind, a);
    PrefixStages(ReadFlow(feature, verbose, kind, a), a.rawLen, ReadReached(feature, a));
  }

  /** An empty (INITIALIZED) tag ends the flow after detect, and that is not
      reported as a failure. */
  lemma EmptyTagIsNotAnError(feature: uint8, verbose: bool, kind: DevType, a: ReadAnswers)
    requires a.contextInit == ErrNone && a.detect == ErrNone && a.info == NdefInitialized
    ensures var r := ReadFlow(feature, verbose, kind, a);
      && NdefSteps(r) == [NdefContextInit, NdefDetect]
      && forall i :: 0 <= i < |r| ==> !IsFailureLog(r[i])
  {
    ReadFlowSteps(feature, verbose, kind, a);
  }

  /** The calls a read flow may make besides library steps: log lines other
      than the menu prompt, and the dumps. */
  predicate IsReport(x: Call) {
    (x.Log? && !x.msg.TapPrompt?) || x.SysInfoDump? || x.CcDump? || x.RawDump?
  }

  lemma ReadStagesOnlyLogs(verbose: bool, a: ReadAnswers, x: Call)
    requires !x.IsNdefStep() && !IsReport(x)
    ensures x !in ReadStages(verbose, a)
  {
    if a.read == ErrNone {
      assert x !in DumpStage(a);
      assert x !in DecodeStage(verbose, a);
    }
  }

  /** Besides library steps, a read flow only logs and dumps: it makes no
      other call, and it never prints the menu prompt. */
  lemma ReadFlowOnlyLogs(feature: uint8, verbose: bool, kind: DevType, a: ReadAnswers, x: Call)
    requires !x.IsNdefStep() && !IsReport(x)
    ensures x !in ReadFlow(feature, verbose, kind, a)
  {
    if a.contextInit == ErrNone {
      var head := DetectHead(verbose, kind);
      assert x !in head;
      if !(a.detect != ErrNone && feature != FeatureFormat) {
        DetectedSteps(feature, verbose, kind, a);
        assert x !in DetectLogs(a, verbose);
        ReadStagesOnlyLogs(verbose, a, x);
      }
    }
  }

  /** The globals of this demo. `ledOn` is the blink phase; the two timers
      are abstracted to whether they have expired. */
  datatype ReadDemo = ReadDemo(loop: Loop, verbose: bool, feature: uint8, prevFeature: uint8, ledOn: bool)

  /** The globals before `demoIni`. */
  const Initial := ReadDemo(DemoCycle.Initial, false, FeatureRead, NoFeature, false)

  /** What one call of `demoCycle` observes. */
  datatype Tick = Tick(
    timerExpired: bool,
    ledTimerExpired: bool,
    activated: bool,
    device: Device,
    ndef: ReadAnswers,
    inventory: seq<ReturnCode>)

  /** RFAL reports an 8-byte identifier for an NFC-V device, and the tag
      eventually stops answering inventories. */
  predicate AdmissibleTick(t: Tick) {
    t.activated && t.device.kind == NfcV ==> Ready(t.device.nfcid, t.inventory)
  }

  /** `AdmissibleTick`, needed only when the tick can dispatch. */
  predicate Admissible(d: ReadDemo, t: Tick) {
    d.loop.state == Discovery ==> AdmissibleTick(t)
  }

  /** `demoIni`: an attached debugger switches `verbose` on, whatever happens
      next, and nothing switches it off; a successful `rfalNfcInitialize`
      fills the parameters and arms discovery. */
  function Ini(d: ReadDemo, debugAttached: bool, initStatus: ReturnCode): (r: Init<ReadDemo>)
    ensures r.ok <==> initStatus == ErrNone
    ensures r.next.verbose == (d.verbose || debugAttached)
    ensures r.next.feature == d.feature && r.next.prevFeature == d.prevFeature
    ensures !r.ok ==> r.next.loop == d.loop
    ensures r.ok ==> r.next.loop.state == StartDiscovery
    ensures r.ok ==> var p := r.next.loop.params;
      && p.compMode == Some(CompModeNfc) && p.devLimit == 1 && p.totalDuration == 1000
      && !p.wakeupEnabled && p.wakeupConfigDefault
      && p.techs == {TechV} && p.notify == NoNotifier
  {
    var d1 := d.(verbose := d.verbose || debugAttached);
    if initStatus == ErrNone then
      Init(true, d1.(loop := Loop(StartDiscovery, NfcvParams(d.loop.params, NoNotifier))))
    else Init(false, d1)
  }

  /** The feature after the timer check: back to read when a feature other
      than read has run out of time. */
  function MenuFeature(d: ReadDemo, t: Tick): uint8 {
    if d.feature != FeatureRead && t.timerExpired then FeatureRead else d.feature
  }

  /** The blink phase after the LED timer check. */
  function MenuLed(d: ReadDemo, t: Tick): bool {
    if MenuFeature(d, t) != FeatureRead && t.ledTimerExpired then !d.ledOn else d.ledOn
  }

  /** The log line of the timer check. */
  function ExpiredLog(d: ReadDemo, t: Tick): seq<Call> {
    if d.feature != FeatureRead && t.timerExpired then [Log(TimerExpired)] else []
  }

  /** The prompt, printed when the feature differs from the last one shown. */
  function PromptLog(d: ReadDemo, t: Tick): seq<Call> {
    if MenuFeature(d, t) != d.prevFeature then [Log(TapPrompt)] else []
  }

  /** The LED calls of the blinking. */
  function BlinkCalls(d: ReadDemo, t: Tick): seq<Call> {
    if MenuFeature(d, t) == FeatureRead then [] else if MenuLed(d, t) then LedsOnCalls else LedsOffCalls
  }

  /** The menu bookkeeping at the top of `demoCycle`: revert to read when the
      timer expired, print the prompt when the feature changed, and blink the
      LEDs while a feature other than read is selected. */
  function Menu(d: ReadDemo, t: Tick): (r: Step<ReadDemo>)
    ensures r.next.loop == d.loop && r.next.verbose == d.verbose
    ensures r.next.prevFeature == r.next.feature
    ensures r.next.feature == d.feature || r.next.feature == FeatureRead
    ensures Log(TapPrompt) in r.trace <==> r.next.feature != d.prevFeature
    ensures d.feature == FeatureRead ==> r.next == d.(prevFeature := FeatureRead)
    ensures d.feature == FeatureRead ==> r.trace == if d.prevFeature != FeatureRead then [Log(TapPrompt)] else []
    ensures Worker !in r.trace && GetActiveDevice !in r.trace
  {
    var f := MenuFeature(d, t);
    Step(d.(feature := f, prevFeature := f, ledOn := MenuLed(d, t)),
      ExpiredLog(d, t) + PromptLog(d, t) + BlinkCalls(d, t))
  }

  /** What happens between fetching the activated device and deactivating
      it: the read flow inside the NFC-V session. */
  function Handled(d: ReadDemo, t: Tick): seq<Call>
    requires AdmissibleTick(t) && t.activated
  {
    TagSession.Activation(t.device.kind, t.device.nfcid, ReadFlow(d.feature, d.verbose, NfcV, t.ndef), t.inventory)
  }

  /** `demoCycle`. */
  function Cycle(d: ReadDemo, t: Tick): (r: Step<ReadDemo>)
    requires Admissible(d, t)
    ensures |r.trace| > 0 && r.trace[0] == Worker
    ensures r.next.verbose == d.verbose
    ensures d.feature == FeatureRead ==> r.next.feature == FeatureRead
    ensures d.loop.state == Discovery && t.activated ==>
      r.next.prevFeature == NoFeature && r.next.loop.state == StartDiscovery
    ensures !(d.loop.state == Discovery && t.activated) ==> r.next.prevFeature == r.next.feature
    ensures d.loop.state == StartDiscovery ==> r.next.loop.state == Discovery
    ensures d.loop.state != StartDiscovery && !(d.loop.state == Discovery && t.activated) ==>
      r.next.loop == d.loop
  {
    var m := Menu(d, t);
    var dispatch := d.loop.state == Discovery && t.activated;
    var s := Switch(m.next.loop, t.activated, if dispatch then Handled(m.next, t) else []);
    var prev := if dispatch then NoFeature else m.next.prevFeature;
    Step(m.next.(loop := s.next, prevFeature := prev), [Worker] + m.trace + s.trace)
  }

  /** A tick that dispatches: the menu bookkeeping, then the activation
      between fetching the device and the teardown. */
  lemma DispatchTrace(d: ReadDemo, t: Tick)
    requires Admissible(d, t) && d.loop.state == Discovery && t.activated
    ensures var m := Menu(d, t);
      Cycle(d, t).trace == [Worker] + m.trace + [GetActiveDevice] + Handled(m.next, t) + Teardown
  {
    var m := Menu(d, t);
    SwitchDispatch(m.next.loop, Handled(m.next, t));
  }

  /** A tick that starts discovery: the menu bookkeeping, then the LEDs
      off, the deactivation and the start of discovery. */
  lemma StartTrace(d: ReadDemo, t: Tick)
    requires Admissible(d, t) && d.loop.state == StartDiscovery
    ensures Cycle(d, t).trace == [Worker] + Menu(d, t).trace + StartCalls(d.loop.params)
  {
  }

  /** A tick that neither starts discovery nor dispatches only does the menu
      bookkeeping. */
  lemma IdleTrace(d: ReadDemo, t: Tick)
    requires Admissible(d, t) && d.loop.state != StartDiscovery && !(d.loop.state == Discovery && t.activated)
    ensures Cycle(d, t).trace == [Worker] + Menu(d, t).trace
  {
  }

  /** The menu prompt is never printed by an activation. */
  lemma HandledNoPrompt(d: ReadDemo, t: Tick)
    requires AdmissibleTick(t) && t.activated
    ensures Log(TapPrompt) !in Handled(d, t)
  {
    ReadFlowOnlyLogs(d.feature, d.verbose, NfcV, t.ndef, Log(TapPrompt));
    ActivationWithout(t.device.kind, t.device.nfcid, ReadFlow(d.feature, d.verbose, NfcV, t.ndef), t.inventory, Log(TapPrompt));
  }

  /** Under the read feature the prompt is printed exactly on the ticks where
      `ndefDemoPrevFeature` differs from the feature. */
  lemma PromptExactlyOnChange(d: ReadDemo, t: Tick)
    requires Admissible(d, t) && d.feature == FeatureRead
    ensures Log(TapPrompt) in Cycle(d, t).trace <==> d.prevFeature != FeatureRead
  {
    if d.loop.state == Discovery && t.activated {
      PromptOnDispatch(d, t);
    } else if d.loop.state == StartDiscovery {
      PromptOnStart(d, t);
    } else {
      IdleTrace(d, t);
    }
  }

  lemma PromptOnDispatch(d: ReadDemo, t: Tick)
    requires Admissible(d, t) && d.feature == FeatureRead && d.loop.state == Discovery && t.activated
    ensures Log(TapPrompt) in Cycle(d, t).trace <==> d.prevFeature != FeatureRead
  {
    var m := Menu(d, t);
    DispatchTrace(d, t);
    HandledNoPrompt(m.next, t);
    OnlyInMenu(Log(TapPrompt), m.trace, Handled(m.next, t));
  }

  /** A call other than the fixed ones of a dispatching tick, absent from
      the activation, appears in the tick exactly when the menu made it. */
  lemma OnlyInMenu(x: Call, menu: seq<Call>, handled: seq<Call>)
    requires x.Log? && x !in handled
    ensures x in [Worker] + menu + [GetActiveDevice] + handled + Teardown <==> x in menu
  {
  }

  lemma PromptOnStart(d: ReadDemo, t: Tick)
    requires Admissible(d, t) && d.feature == FeatureRead && d.loop.state == StartDiscovery
    ensures Log(TapPrompt) in Cycle(d, t).trace <==> d.prevFeature != FeatureRead
  {
    StartCallsNoLog(Log(TapPrompt), d.loop.params);
    StartTrace(d, t);
  }

  /** The menu bookkeeping makes no library step. */
  lemma MenuNoSteps(d: ReadDemo, t: Tick)
    ensures NdefSteps(Menu(d, t).trace) == []
  {
    StepsOf1(Log(TimerExpired));
    StepsOf1(Log(TapPrompt));
    LedCallsNoSteps();
    NdefStepsAround(ExpiredLog(d, t), PromptLog(d, t), BlinkCalls(d, t));
  }

  /** The library steps of a dispatching tick are those of its activation. */
  lemma TickSteps(d: ReadDemo, t: Tick)
    requires Admissible(d, t) && d.loop.state == Discovery && t.activated
    ensures NdefSteps(Cycle(d, t).trace) == NdefSteps(Handled(Menu(d, t).next, t))
  {
    var m := Menu(d, t);
    var s := Switch(m.next.loop, true, Handled(m.next, t));
    StepsOf1(Worker);
    MenuNoSteps(d, t);
    NdefStepsAppend([Worker], m.trace);
    SwitchSteps(m.next.loop, Handled(m.next, t));
    NdefStepsAppend([Worker] + m.trace, s.trace);
  }

  /** One activation of an NFC-V tag: the library steps of the whole tick
      are those of exactly one read flow, the UID is printed byte-reversed,
      and the session then ends. */
  lemma NfcvActivation(d: ReadDemo, t: Tick)
    requires Admissible(d, t)
    requires d.loop.state == Discovery && t.activated && t.device.kind == NfcV
    ensures var r := Cycle(d, t);
      var k := ReadReached(Menu(d, t).next.feature, t.ndef);
      && NdefSteps(r.trace) == FullRead(t.ndef.rawLen)[..k]
      && multiset(r.trace)[NdefContextInit] == 1
      && FoundLog(t.device.nfcid) in r.trace
      && |r.trace| >= 4 && r.trace[|r.trace| - 2..] == Teardown
      && r.next.loop.state == StartDiscovery
  {
    var m := Menu(d, t);
    var r := Cycle(d, t);
    var f := ReadFlow(m.next.feature, m.next.verbose, NfcV, t.ndef);
    var k := ReadReached(m.next.feature, t.ndef);
    TickSteps(d, t);
    ActivationSteps(NfcV, t.device.nfcid, f, t.inventory);
    ReadFlowSteps(m.next.feature, m.next.verbose, NfcV, t.ndef);
    PrefixStages(r.trace, t.ndef.rawLen, k);
    ActivationAnnounces(t.device.nfcid, f, t.inventory);
    DispatchTrace(d, t);
    EndsWith([Worker] + m.trace + [GetActiveDevice] + Handled(m.next, t), Teardown);
  }

  /** A tick that handled an activation makes the next tick print the prompt
      again. */
  lemma PromptAfterActivation(d: ReadDemo, t1: Tick, t2: Tick)
    requires Admissible(d, t1) && d.feature == FeatureRead
    requires d.loop.state == Discovery && t1.activated
    requires Admissible(Cycle(d, t1).next, t2)
    ensures Log(TapPrompt) in Cycle(Cycle(d, t1).next, t2).trace
  {
  }

  /** Ticks in sequence. */
  function Run(d: ReadDemo, ticks: seq<Tick>): ReadDemo
    requires forall i :: 0 <= i < |ticks| ==> AdmissibleTick(ticks[i])
    decreases |ticks|
  {
    if ticks == [] then d else Run(Cycle(d, ticks[0]).next, ticks[1..])
  }

  /** `ndefDemoFeature` starts as read and no tick ever changes it: the only
      assignment in the cycle writes read. */
  lemma {:induction false} FeatureAlwaysRead(d: ReadDemo, ticks: seq<Tick>)
    requires d.feature == FeatureRead
    requires forall i :: 0 <= i < |ticks| ==> AdmissibleTick(ticks[i])
    ensures Run(d, ticks).feature == FeatureRead
    decreases |ticks|
  {
    if ticks != [] {
      FeatureAlwaysRead(Cycle(d, ticks[0]).next, ticks[1..]);
    }
  }

  lemma InitialFeatureIsRead(debugAttached: bool, initStatus: ReturnCode)
    ensures Ini(Initial, debugAttached, initStatus).next.feature == FeatureRead
  {
  }

  /** Under the read feature, a failed detect stops the flow before any
      read. */
  lemma DetectFailureStopsRead(verbose: bool, kind: DevType, a: ReadAnswers)
    requires a.contextInit == ErrNone && a.detect != ErrNone
    ensures NdefReadRaw(RawBufLen) !in ReadFlow(FeatureRead, verbose, kind, a)
    ensures NdefSteps(ReadFlow(FeatureRead, verbose, kind, a)) == [NdefContextInit, NdefDetect]
  {
    ReadFlowSteps(FeatureRead, verbose, kind, a);
  }
}
