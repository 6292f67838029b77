/**
 * The peer-to-peer demo (example 520): discovery polls for active P2P
 * devices; a passive NFC-A P2P target or an active P2P device gets the
 * static LLCP frames — a CONNECT to the SNEP server, then a SNEP PUT of the
 * URI "http://www.st.com" — and the link is then kept alive with SYMM PDUs
 * until an exchange fails. Any other NFC-A device only has its UID logged.
 */
module P2p {
  import opened Wrappers
  import opened Rfal
  import opened Trace
  import opened DemoCycle
  import opened Exchange
  import opened P2pFrames

  /** The delay after each keep-alive exchange. */
  const SymmGapMs: nat := 50

  /** What follows each keep-alive exchange: a dot and the delay. */
  const SymmTail: seq<Call> := [Log(Dot), Delay(SymmGapMs)]

  /** The exchanges of the keep-alive loop are answered, and one fails. */
  predicate KeepAliveEnds(s: seq<Answers>) {
    && (forall i :: 0 <= i < |s| ==> Exchange.Completes(s[i]))
    && (exists i :: 0 <= i < |s| && Fails(s[i]))
  }

  /** Number of SYMM exchanges the loop makes: up to and including the
      first that does not return `ERR_NONE`. */
  function Rounds(s: seq<Answers>): (n: nat)
    requires KeepAliveEnds(s)
    ensures 1 <= n <= |s| && Fails(s[n - 1])
    ensures forall j :: 0 <= j < n - 1 ==> Succeeds(s[j])
    decreases |s|
  {
    if !Succeeds(s[0]) then 1
    else
      NextRoundEnds(s);
      1 + Rounds(s[1..])
  }

  /** After a successful round the loop still ends. */
  lemma NextRoundEnds(s: seq<Answers>)
    requires KeepAliveEnds(s) && Succeeds(s[0])
    ensures KeepAliveEnds(s[1..])
  {
    var i :| 0 <= i < |s| && Fails(s[i]);
    assert s[1..][i - 1] == s[i];
  }

  /** A successful round is followed by the rest of the loop. */
  lemma KeepAliveMore(s: seq<Answers>)
    requires KeepAliveEnds(s) && Succeeds(s[0])
    ensures KeepAliveEnds(s[1..])
    ensures KeepAlive(s) == Round(s[0]) + KeepAlive(s[1..])
    ensures Rounds(s) == 1 + Rounds(s[1..])
  {
    NextRoundEnds(s);
  }

  /** A failed round is the last. */
  lemma KeepAliveLast(s: seq<Answers>)
    requires KeepAliveEnds(s) && !Succeeds(s[0])
    ensures KeepAlive(s) == Round(s[0]) && Rounds(s) == 1
  {
    assert KeepAlive(s) == Round(s[0]) + [];
  }

  /** The `while( err == ERR_NONE )` loop: a SYMM exchange, a dot and a
      50 ms delay, repeated while the exchange succeeds. */
  function KeepAlive(s: seq<Answers>): seq<Call>
    requires KeepAliveEnds(s)
    decreases |s|
  {
    Round(s[0]) + (if Succeeds(s[0]) then NextRoundEnds(s); KeepAlive(s[1..]) else [])
  }

  /** One keep-alive round. */
  function Round(x: Answers): seq<Call>
    requires Exchange.Completes(x)
  {
    Calls(LlcpSymm, x) + SymmTail
  }

  /** A round sends one SYMM. */
  lemma RoundSent(x: Answers)
    requires Exchange.Completes(x)
    ensures Sent(Round(x)) == [LlcpSymm]
  {
    CallsSent(LlcpSymm, x);
    LogsSendNothing(SymmTail);
    SentAppend(Calls(LlcpSymm, x), SymmTail);
  }

  /** What RFAL answers to one `demoP2P`: the CONNECT exchange, the PUT
      exchange and the keep-alive exchanges. */
  datatype P2pAnswers = P2pAnswers(connect: Answers, push: Answers, symm: seq<Answers>)

  /** Every exchange the flow reaches completes, and the keep-alive loop ends. */
  predicate Terminates(a: P2pAnswers) {
    && Exchange.Completes(a.connect)
    && (Succeeds(a.connect) ==> Exchange.Completes(a.push))
    && (Succeeds(a.connect) && Succeeds(a.push) ==> KeepAliveEnds(a.symm))
  }

  /** After a pushed URI: keep the link alive until the peer leaves. */
  function MaintainPart(a: P2pAnswers): seq<Call>
    requires Terminates(a) && Succeeds(a.connect) && Succeeds(a.push)
  {
    [Log(Succeeded), Log(Maintaining)] + KeepAlive(a.symm) + [Log(DeviceRemoved)]
  }

  /** After a successful CONNECT: push the URI, then keep the link alive if
      that succeeded. */
  function PushPart(a: P2pAnswers): seq<Call>
    requires Terminates(a) && Succeeds(a.connect)
  {
    [Log(Succeeded), Log(PushUri)] + Calls(NdefUriStCom, a.push)
    + (if Succeeds(a.push) then MaintainPart(a) else [Log(Failed)])
  }

  /** `demoP2P`. */
  function Flow(a: P2pAnswers): (r: seq<Call>)
    requires Terminates(a)
    ensures |r| > 1 && r[0] == Log(InitDevice) && r[1] == ExchangeStart(NdefInit)
  {
    [Log(InitDevice)] + Calls(NdefInit, a.connect)
    + (if Succeeds(a.connect) then PushPart(a) else [Log(Failed)])
  }

  /** `n` SYMM frames. */
  function SymmFrames(n: nat): (r: seq<seq<uint8>>)
    ensures |r| == n
  {
    if n == 0 then [] else [LlcpSymm] + SymmFrames(n - 1)
  }

  /** Reference: the frames the flow should send. The CONNECT; the PUT only
      after a successful CONNECT; SYMM frames only after a successful PUT,
      one per keep-alive round. */
  function SentRef(a: P2pAnswers): seq<seq<uint8>>
    requires Terminates(a)
  {
    [NdefInit]
    + (if Succeeds(a.connect) then
         [NdefUriStCom] + (if Succeeds(a.push) then SymmFrames(Rounds(a.symm)) else [])
       else [])
  }

  lemma LogsSendNothing(t: seq<Call>)
    requires forall i :: 0 <= i < |t| ==> t[i].Log? || t[i].Delay?
    ensures Sent(t) == []
  {
    NothingSent(t);
  }

  lemma {:induction false} KeepAliveSent(s: seq<Answers>)
    requires KeepAliveEnds(s)
    ensures Sent(KeepAlive(s)) == SymmFrames(Rounds(s))
    decreases |s|
  {
    RoundSent(s[0]);
    if Succeeds(s[0]) {
      KeepAliveMore(s);
      KeepAliveSent(s[1..]);
      SentAppend(Round(s[0]), KeepAlive(s[1..]));
    } else {
      KeepAliveLast(s);
    }
  }

  lemma MaintainSent(a: P2pAnswers)
    requires Terminates(a) && Succeeds(a.connect) && Succeeds(a.push)
    ensures Sent(MaintainPart(a)) == SymmFrames(Rounds(a.symm))
  {
    LogsSendNothing([Log(Succeeded), Log(Maintaining)]);
    LogsSendNothing([Log(DeviceRemoved)]);
    KeepAliveSent(a.symm);
    SentAppend([Log(Succeeded), Log(Maintaining)], KeepAlive(a.symm));
    SentAppend([Log(Succeeded), Log(Maintaining)] + KeepAlive(a.symm), [Log(DeviceRemoved)]);
  }

  lemma PushSent(a: P2pAnswers)
    requires Terminates(a) && Succeeds(a.connect)
    ensures Sent(PushPart(a)) == [NdefUriStCom] + (if Succeeds(a.push) then SymmFrames(Rounds(a.symm)) else [])
  {
    LogsSendNothing([Log(Succeeded), Log(PushUri)]);
    CallsSent(NdefUriStCom, a.push);
    SentAppend([Log(Succeeded), Log(PushUri)], Calls(NdefUriStCom, a.push));
    if Succeeds(a.push) {
      PushedSent(a);
    } else {
      PushRefusedSent(a);
    }
  }

  lemma PushedSent(a: P2pAnswers)
    requires Terminates(a) && Succeeds(a.connect) && Succeeds(a.push)
    requires Sent([Log(Succeeded), Log(PushUri)] + Calls(NdefUriStCom, a.push)) == [NdefUriStCom]
    ensures Sent(PushPart(a)) == [NdefUriStCom] + SymmFrames(Rounds(a.symm))
  {
    MaintainSent(a);
    SentAppend([Log(Succeeded), Log(PushUri)] + Calls(NdefUriStCom, a.push), MaintainPart(a));
  }

  lemma PushRefusedSent(a: P2pAnswers)
    requires Terminates(a) && Succeeds(a.connect) && !Succeeds(a.push)
    requires Sent([Log(Succeeded), Log(PushUri)] + Calls(NdefUriStCom, a.push)) == [NdefUriStCom]
    ensures Sent(PushPart(a)) == [NdefUriStCom]
  {
    LogsSendNothing([Log(Failed)]);
    SentAppend([Log(Succeeded), Log(PushUri)] + Calls(NdefUriStCom, a.push), [Log(Failed)]);
  }

  /** The frames the flow sends are those of the reference. */
  lemma FlowSent(a: P2pAnswers)
    requires Terminates(a)
    ensures Sent(Flow(a)) == SentRef(a)
  {
    LogsSendNothing([Log(InitDevice)]);
    CallsSent(NdefInit, a.connect);
    SentAppend([Log(InitDevice)], Calls(NdefInit, a.connect));
    if Succeeds(a.connect) {
      ConnectedSent(a);
    } else {
      RefusedSent(a);
    }
  }

  lemma ConnectedSent(a: P2pAnswers)
    requires Terminates(a) && Succeeds(a.connect)
    requires Sent([Log(InitDevice)] + Calls(NdefInit, a.connect)) == [NdefInit]
    ensures Sent(Flow(a)) == SentRef(a)
  {
    var init := [Log(InitDevice)] + Calls(NdefInit, a.connect);
    PushSent(a);
    SentAppend(init, PushPart(a));
  }

  lemma RefusedSent(a: P2pAnswers)
    requires Terminates(a) && !Succeeds(a.connect)
    requires Sent([Log(InitDevice)] + Calls(NdefInit, a.connect)) == [NdefInit]
    ensures Sent(Flow(a)) == SentRef(a)
  {
    var init := [Log(InitDevice)] + Calls(NdefInit, a.connect);
    LogsSendNothing([Log(Failed)]);
    SentAppend(init, [Log(Failed)]);
  }

  /** The three frames differ (they have different lengths). */
  lemma FramesDistinct()
    ensures NdefInit != NdefUriStCom && NdefInit != LlcpSymm && NdefUriStCom != LlcpSymm
  {
    assert |NdefInit| == 26 && |NdefUriStCom| == 34 && |LlcpSymm| == 2;
  }

  /** The URI is pushed exactly when the CONNECT exchange succeeded. */
  lemma PushOnlyAfterConnect(a: P2pAnswers)
    requires Terminates(a)
    ensures ExchangeStart(NdefUriStCom) in Flow(a) <==> Succeeds(a.connect)
  {
    FlowSent(a);
    FramesDistinct();
    SentMember(Flow(a), NdefUriStCom);
    if Succeeds(a.connect) {
      assert SentRef(a)[1] == NdefUriStCom;
    }
  }

  /** A SYMM is sent exactly when both the CONNECT and the PUT succeeded. */
  lemma KeepAliveOnlyAfterPush(a: P2pAnswers)
    requires Terminates(a)
    ensures ExchangeStart(LlcpSymm) in Flow(a) <==> Succeeds(a.connect) && Succeeds(a.push)
  {
    FlowSent(a);
    SentMember(Flow(a), LlcpSymm);
    SymmInRef(a);
  }

  lemma SymmInRef(a: P2pAnswers)
    requires Terminates(a)
    ensures LlcpSymm in SentRef(a) <==> Succeeds(a.connect) && Succeeds(a.push)
  {
    FramesDistinct();
    if Succeeds(a.connect) && Succeeds(a.push) {
      assert SentRef(a)[2] == LlcpSymm;
    } else if Succeeds(a.connect) {
      assert SentRef(a) == [NdefInit, NdefUriStCom];
    } else {
      assert SentRef(a) == [NdefInit];
    }
  }

  /** Once connected and pushed, one SYMM is sent per round: every round up
      to the first whose exchange does not return `ERR_NONE`, which is the
      last. */
  lemma KeepAliveRounds(a: P2pAnswers)
    requires Terminates(a) && Succeeds(a.connect) && Succeeds(a.push)
    ensures var n := Rounds(a.symm);
      && multiset(Flow(a))[ExchangeStart(LlcpSymm)] == n
      && Fails(a.symm[n - 1]) && (forall j :: 0 <= j < n - 1 ==> Succeeds(a.symm[j]))
  {
    FlowSent(a);
    SentCount(Flow(a), LlcpSymm);
    SentRefSymmCount(a);
  }

  lemma SentRefSymmCount(a: P2pAnswers)
    requires Terminates(a) && Succeeds(a.connect) && Succeeds(a.push)
    ensures multiset(SentRef(a))[LlcpSymm] == Rounds(a.symm)
  {
    var n := Rounds(a.symm);
    FramesDistinct();
    SymmMultiset(n);
    assert SentRef(a) == [NdefInit, NdefUriStCom] + SymmFrames(n);
    assert multiset(SentRef(a)) == multiset{NdefInit, NdefUriStCom} + multiset(SymmFrames(n));
  }

  lemma {:induction false} SymmMultiset(n: nat)
    ensures multiset(SymmFrames(n)) == multiset{} [LlcpSymm := n]
  {
    if n > 0 {
      SymmMultiset(n - 1);
    }
  }

  /** "Device removed" is reported exactly when the keep-alive loop ran. */
  lemma RemovedOnlyAfterKeepAlive(a: P2pAnswers)
    requires Terminates(a)
    ensures Log(DeviceRemoved) in Flow(a) <==> Succeeds(a.connect) && Succeeds(a.push)
  {
    var x := Log(DeviceRemoved);
    CallsRounds(NdefInit, a.connect, x);
    var c := Calls(NdefInit, a.connect);
    assert c == [c[0]] + c[1..];
    assert x !in [Log(InitDevice)] + c;
    if Succeeds(a.connect) {
      CallsRounds(NdefUriStCom, a.push, x);
      var p := Calls(NdefUriStCom, a.push);
      assert p == [p[0]] + p[1..];
      assert x !in [Log(Succeeded), Log(PushUri)] + p;
      if Succeeds(a.push) {
        assert MaintainPart(a)[|MaintainPart(a)| - 1] == x;
      }
    }
  }

  /** `demoP2P` as written: two exchanges, each returning early on failure,
      then the keep-alive loop. */
  method DemoP2p(a: P2pAnswers) returns (trace: seq<Call>)
    requires Terminates(a)
    ensures trace == Flow(a)
  {
    var err, connect := TransceiveBlocking(NdefInit, a.connect);
    if err != ErrNone {
      return [Log(InitDevice)] + connect + [Log(Failed)];
    }
    var push;
    err, push := TransceiveBlocking(NdefUriStCom, a.push);
    if err != ErrNone {
      return [Log(InitDevice)] + connect + ([Log(Succeeded), Log(PushUri)] + push + [Log(Failed)]);
    }
    var keep := KeepAliveLoop(a.symm);
    trace := [Log(InitDevice)] + connect
      + ([Log(Succeeded), Log(PushUri)] + push
         + ([Log(Succeeded), Log(Maintaining)] + keep + [Log(DeviceRemoved)]));
  }

  /** The keep-alive loop as written. */
  method KeepAliveLoop(s: seq<Answers>) returns (trace: seq<Call>)
    requires KeepAliveEnds(s)
    ensures trace == KeepAlive(s)
  {
    trace := [];
    var err := ErrNone;
    var i := 0;
    while err == ErrNone
      invariant 0 <= i <= |s|
      invariant err == ErrNone ==> KeepAliveEnds(s[i..])
      invariant err == ErrNone ==> KeepAlive(s) == trace + KeepAlive(s[i..])
      invariant err != ErrNone ==> trace == KeepAlive(s)
      decreases |s| - i
    {
      var t;
      err, t := TransceiveBlocking(LlcpSymm, s[i]);
      KeepAliveStep(s, i, trace);
      trace := trace + (t + SymmTail);
      i := i + 1;
    }
  }

  /** One turn of the keep-alive loop: the trace so far grows by a round,
      after which the loop goes on exactly when the round succeeded. */
  lemma KeepAliveStep(s: seq<Answers>, i: nat, trace: seq<Call>)
    requires KeepAliveEnds(s) && i <= |s| && KeepAliveEnds(s[i..])
    requires KeepAlive(s) == trace + KeepAlive(s[i..])
    ensures i < |s|
    ensures Succeeds(s[i]) ==>
      KeepAliveEnds(s[i + 1..]) && KeepAlive(s) == trace + Round(s[i]) + KeepAlive(s[i + 1..])
    ensures !Succeeds(s[i]) ==> KeepAlive(s) == trace + Round(s[i])
  {
    var u := s[i..];
    assert u[0] == s[i];
    if Succeeds(s[i]) {
      assert u[1..] == s[i + 1..];
      StepMore(u, trace);
    } else {
      KeepAliveLast(u);
    }
  }

  lemma StepMore(u: seq<Answers>, trace: seq<Call>)
    requires KeepAliveEnds(u) && Succeeds(u[0])
    ensures KeepAliveEnds(u[1..])
    ensures trace + KeepAlive(u) == trace + Round(u[0]) + KeepAlive(u[1..])
  {
    KeepAliveMore(u);
  }

  /** Devices for which the demo runs the P2P flow. */
  predicate RunsP2p(kind: DevType) {
    kind == NfcA(NfcDep) || kind == Ap2p
  }

  /** What one call of `demoCycle` observes. */
  datatype Tick = Tick(buttonLow: bool, activated: bool, device: Device, p2p: P2pAnswers)

  /** The exchanges of a P2P flow the tick runs terminate. */
  predicate Admissible(t: Tick) {
    t.activated && RunsP2p(t.device.kind) ==> Terminates(t.p2p)
  }

  /** `demoIni`: a successful `rfalNfcInitialize` configures discovery for
      active P2P with the NFC-DEP identifier and the LLCP general bytes. */
  function Ini(l: Loop, initStatus: ReturnCode): (r: Init<Loop>)
    ensures r.ok <==> initStatus == ErrNone
    ensures !r.ok ==> r.next == l
    ensures r.ok ==> r.next.state == StartDiscovery
    ensures r.ok ==> var p := r.next.params;
      && p.compMode == Some(CompModeNfc) && p.devLimit == 1
      && p.nfcfBR == Some(Br212) && p.ap2pBR == Some(Br106)
      && p.nfcid3 == Nfcid3 && |p.nfcid3| == Nfcid3Len
      && p.gb == Gb && p.gbLen == |p.gb| == GbLen && p.gb[..3] == Llcp.Magic
      && p.notify == DemoNotifier && p.totalDuration == 1000
      && !p.wakeupEnabled && p.wakeupConfigDefault && p.techs == {TechAp2p}
  {
    if initStatus == ErrNone then
      Init(true, Loop(StartDiscovery, l.params.(
        compMode := Some(CompModeNfc), devLimit := 1, nfcfBR := Some(Br212), ap2pBR := Some(Br106),
        nfcid3 := Nfcid3, gb := Gb, gbLen := |Gb|, notify := DemoNotifier, totalDuration := 1000,
        wakeupEnabled := false, wakeupConfigDefault := true, techs := {TechAp2p})))
    else Init(false, l)
  }

  /** The `switch( nfcDevice->type )` of this demo. */
  function Handle(d: Device, a: P2pAnswers): (r: seq<Call>)
    requires RunsP2p(d.kind) ==> Terminates(a)
    ensures RunsP2p(d.kind) ==> |r| == 2 + |Flow(a)| && r[2..] == Flow(a)
  {
    match d.kind
    case NfcA(sub) =>
      [LedOn(LedA)] + (if sub == NfcDep then [Log(NfcaP2pFound(d.nfcid))] + Flow(a) else [Log(NfcaCardFound(d.nfcid))])
    case Ap2p => [Log(Ap2pFound(d.nfcid)), LedOn(LedAp2p)] + Flow(a)
    case _ => []
  }

  /** `demoCycle`: the worker, the button check, then the state switch. */
  function Cycle(l: Loop, t: Tick): (r: Step<Loop>)
    requires Admissible(t)
    ensures |r.trace| > 0 && r.trace[0] == Worker
    ensures t.buttonLow ==>
      && r.next.state == Discovery
      && r.next.params == l.params.(wakeupEnabled := !l.params.wakeupEnabled)
      && r.trace == [Worker, Log(WakeupToggled(!l.params.wakeupEnabled))] + StartCalls(r.next.params)
    ensures !t.buttonLow ==> r.next.params == l.params
    ensures !t.buttonLow && l.state == StartDiscovery ==>
      r.next.state == Discovery && r.trace == [Worker] + StartCalls(l.params)
    ensures !t.buttonLow && l.state == Discovery && !t.activated ==> r.next == l && r.trace == [Worker]
    ensures !t.buttonLow && l.state == NotInit ==> r.next == l && r.trace == [Worker]
  {
    var b := Button(l, t.buttonLow);
    var s := Switch(b.next, t.activated, if t.activated then Handle(t.device, t.p2p) else []);
    Step(s.next, [Worker] + b.trace + s.trace)
  }

  /** An activation is dispatched by device type and always ends the
      session: the P2P flow runs exactly for a passive NFC-A P2P target and
      an active P2P device; any other NFC-A device lights the A LED and has
      its UID logged; every other device is left alone. */
  lemma Dispatch(l: Loop, t: Tick)
    requires Admissible(t) && !t.buttonLow && l.state == Discovery && t.activated
    ensures var r := Cycle(l, t);
      && r.next.state == StartDiscovery
      && |r.trace| >= 4 && r.trace[..2] == [Worker, GetActiveDevice]
      && r.trace[|r.trace| - 2..] == Teardown
    ensures t.device.kind == NfcA(NfcDep) ==>
      Cycle(l, t).trace == [Worker, GetActiveDevice, LedOn(LedA), Log(NfcaP2pFound(t.device.nfcid))]
        + Flow(t.p2p) + Teardown
    ensures t.device.kind == Ap2p ==>
      Cycle(l, t).trace == [Worker, GetActiveDevice, Log(Ap2pFound(t.device.nfcid)), LedOn(LedAp2p)]
        + Flow(t.p2p) + Teardown
    ensures t.device.kind.NfcA? && t.device.kind != NfcA(NfcDep) ==>
      Cycle(l, t).trace == [Worker, GetActiveDevice, LedOn(LedA), Log(NfcaCardFound(t.device.nfcid))] + Teardown
    ensures !t.device.kind.NfcA? && t.device.kind != Ap2p ==>
      Cycle(l, t).trace == [Worker, GetActiveDevice] + Teardown
  {
    CycleDispatchTrace(l, t);
    var h := Handle(t.device, t.p2p);
    TraceParts([Worker, GetActiveDevice], h, Teardown);
  }

  /** The middle of a trace made of three parts. */
  lemma TraceParts(a: seq<Call>, h: seq<Call>, b: seq<Call>)
    ensures var t := a + h + b;
      t[..|a|] == a && t[|a| + |h|..] == b && t[|a|..|t| - |b|] == h
  {
  }

  /** The frames one dispatching tick sends: those of the P2P flow for a
      P2P device, none for any other. */
  lemma TickSent(l: Loop, t: Tick)
    requires Admissible(t) && !t.buttonLow && l.state == Discovery && t.activated
    ensures Sent(Cycle(l, t).trace) == if RunsP2p(t.device.kind) then SentRef(t.p2p) else []
  {
    var h := Handle(t.device, t.p2p);
    CycleDispatchTrace(l, t);
    NothingSent(Teardown);
    NothingSent([Worker, GetActiveDevice]);
    SentAppend([Worker, GetActiveDevice], h);
    SentAppend([Worker, GetActiveDevice] + h, Teardown);
    HandleSent(t.device, t.p2p);
  }

  /** A dispatching tick: the worker, fetching the device, its handling and
      the teardown. */
  lemma CycleDispatchTrace(l: Loop, t: Tick)
    requires Admissible(t) && !t.buttonLow && l.state == Discovery && t.activated
    ensures Cycle(l, t).trace == [Worker, GetActiveDevice] + Handle(t.device, t.p2p) + Teardown
  {
  }

  /** The frames the handling of one device sends. */
  lemma HandleSent(d: Device, a: P2pAnswers)
    requires RunsP2p(d.kind) ==> Terminates(a)
    ensures Sent(Handle(d, a)) == if RunsP2p(d.kind) then SentRef(a) else []
  {
    match d.kind
    case NfcA(sub) =>
      if sub == NfcDep {
        NfcDepSent(d, a);
      } else {
        NothingSent(Handle(d, a));
      }
    case Ap2p =>
      HeadThenFlow([Log(Ap2pFound(d.nfcid)), LedOn(LedAp2p)], a);
    case _ =>
  }

  lemma NfcDepSent(d: Device, a: P2pAnswers)
    requires d.kind == NfcA(NfcDep) && Terminates(a)
    ensures Sent(Handle(d, a)) == SentRef(a)
  {
    var head := [LedOn(LedA), Log(NfcaP2pFound(d.nfcid))];
    HeadThenFlow(head, a);
    assert Handle(d, a) == head + Flow(a);
  }

  /** Calls that exchange nothing, then the flow. */
  lemma HeadThenFlow(head: seq<Call>, a: P2pAnswers)
    requires Terminates(a) && forall x :: x in head ==> !x.ExchangeStart?
    ensures Sent(head + Flow(a)) == SentRef(a)
  {
    NothingSent(head);
    FlowSent(a);
    SentAppend(head, Flow(a));
  }

}
