/**
 * The UID-only demo (example 501): discovery polls for NFC-V only, an
 * activated NFC-V tag has its UID printed most significant byte first and
 * the V LED lit, and every activation ends the session and restarts
 * discovery after the cool-down delay.
 */
module UidOnly {
  import opened Wrappers
  import opened Rfal
  import opened Trace
  import opened DemoCycle
  import Uid

  /** What one call of `demoCycle` observes: whether the user button reads
      low, whether a device is activated, and which one. */
  datatype Tick = Tick(buttonLow: bool, activated: bool, device: Device)

  /** RFAL reports an 8-byte identifier for every NFC-V device. */
  predicate Admissible(t: Tick) {
    t.activated && t.device.kind == NfcV ==> |t.device.nfcid| == NfcvUidLen
  }

  /** `demoIni`: on a successful `rfalNfcInitialize` it fills the discovery
      parameters and arms discovery; otherwise nothing changes. */
  function Ini(l: Loop, initStatus: ReturnCode): (r: Init<Loop>)
    ensures r.ok <==> initStatus == ErrNone
    ensures !r.ok ==> r.next == l
    ensures r.ok ==> r.next.state == StartDiscovery
    ensures r.ok ==> var p := r.next.params;
      && p.compMode == Some(CompModeNfc) && p.devLimit == 1 && p.totalDuration == 1000
      && !p.wakeupEnabled && p.wakeupConfigDefault
      && p.techs == {TechV} && p.notify == DemoNotifier
      && p.nfcfBR == l.params.nfcfBR && p.ap2pBR == l.params.ap2pBR
      && p.nfcid3 == l.params.nfcid3 && p.gb == l.params.gb && p.gbLen == l.params.gbLen
  {
    if initStatus == ErrNone then
      Init(true, Loop(StartDiscovery, NfcvParams(l.params, DemoNotifier)))
    else Init(false, l)
  }

  /** The `switch( nfcDevice->type )` of this demo. */
  function Handle(d: Device): (r: seq<Call>)
    requires d.kind == NfcV ==> |d.nfcid| == NfcvUidLen
    ensures r == [] <==> d.kind != NfcV
  {
    if d.kind == NfcV then [Log(NfcvFound(Uid.DisplayUid(d.nfcid))), LedOn(LedV)] else []
  }

  /** `demoCycle`. */
  function Cycle(l: Loop, t: Tick): (r: Step<Loop>)
    requires Admissible(t)
    ensures |r.trace| > 0 && r.trace[0] == Worker
    ensures t.buttonLow ==>
      && r.next.state == Discovery
      && r.next.params == l.params.(wakeupEnabled := !l.params.wakeupEnabled)
      && r.trace == [Worker, Log(WakeupToggled(!l.params.wakeupEnabled))] + StartCalls(r.next.params)
    ensures !t.buttonLow ==> r.next.params == l.params
    ensures !t.buttonLow && l.state == StartDiscovery ==>
      r.next.state == Discovery && r.trace == [Worker] + StartCalls(l.params)
    ensures !t.buttonLow && l.state == Discovery && !t.activated ==> r.next == l && r.trace == [Worker]
    ensures !t.buttonLow && l.state == Discovery && t.activated ==>
      r.next.state == StartDiscovery && r.trace == [Worker, GetActiveDevice] + Handle(t.device) + Teardown
    ensures !t.buttonLow && l.state == NotInit ==> r.next == l && r.trace == [Worker]
  {
    var b := Button(l, t.buttonLow);
    var s := Switch(b.next, t.activated, if t.activated then Handle(t.device) else []);
    Step(s.next, [Worker] + b.trace + s.trace)
  }

  /** A tick is the worker, the button check and the state switch. */
  lemma CycleParts(l: Loop, t: Tick)
    requires Admissible(t)
    ensures var b := Button(l, t.buttonLow);
      Cycle(l, t).trace == [Worker] + b.trace
        + Switch(b.next, t.activated, if t.activated then Handle(t.device) else []).trace
  {
  }

  /** The worker runs exactly once per tick, before anything else. */
  lemma WorkerOncePerTick(l: Loop, t: Tick)
    requires Admissible(t)
    ensures Worker !in Cycle(l, t).trace[1..]
  {
    var b := Button(l, t.buttonLow);
    var h := if t.activated then Handle(t.device) else [];
    var s := Switch(b.next, t.activated, h);
    CycleParts(l, t);
    NoWorkerInside(l, t.buttonLow, t.activated, []);
    NoWorkerInside(b.next, t.buttonLow, t.activated, h);
    assert ([Worker] + b.trace + s.trace)[1..] == b.trace + s.trace;
  }

  /** An activated NFC-V tag gets its UID printed byte-reversed and the V LED
      lit; any other device type gets nothing; both end the session. */
  lemma DispatchOnActivation(l: Loop, t: Tick)
    requires Admissible(t)
    requires !t.buttonLow && l.state == Discovery && t.activated
    ensures t.device.kind == NfcV ==>
      exists uid :: Cycle(l, t).trace == [Worker, GetActiveDevice, Log(NfcvFound(uid)), LedOn(LedV)] + Teardown
        && |uid| == 8 && forall i :: 0 <= i < 8 ==> uid[i] == t.device.nfcid[7 - i]
    ensures t.device.kind != NfcV ==> Cycle(l, t).trace == [Worker, GetActiveDevice] + Teardown
    ensures Cycle(l, t).next.state == StartDiscovery
  {
    if t.device.kind == NfcV {
      var uid := Uid.DisplayUid(t.device.nfcid);
      assert Cycle(l, t).trace == [Worker, GetActiveDevice, Log(NfcvFound(uid)), LedOn(LedV)] + Teardown;
    }
  }

  /** An activation is handled once: the tick after it restarts discovery
      and cannot fetch a device. */
  lemma ActivationRestartsDiscovery(l: Loop, t1: Tick, t2: Tick)
    requires Admissible(t1) && Admissible(t2)
    requires !t1.buttonLow && l.state == Discovery && t1.activated
    ensures GetActiveDevice !in Cycle(Cycle(l, t1).next, t2).trace
    ensures Discover(l.params.(wakeupEnabled := l.params.wakeupEnabled != t2.buttonLow))
      in Cycle(Cycle(l, t1).next, t2).trace
  {
    var l1 := Cycle(l, t1).next;
    var r := Cycle(l1, t2);
    if t2.buttonLow {
      assert r.trace[9] == Discover(r.next.params);
    } else {
      assert r.trace[8] == Discover(l.params);
    }
  }

  /** Once initialised, the demo never goes back to `NOTINIT`. */
  lemma NeverUninitialised(l: Loop, t: Tick)
    requires Admissible(t) && l.state != NotInit
    ensures Cycle(l, t).next.state != NotInit
  {
  }
}
