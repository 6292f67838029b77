/**
 * The parts of `demoCycle` every demo shares: the three demo states, the
 * `switch( state )` that starts discovery, waits for an activation and tears
 * the session down afterwards, the wake-up toggle button and the RFAL
 * notification callback `demoNotif`.
 */
module DemoCycle {
  import opened Wrappers
  import opened Rfal
  import opened Trace

  /** `DEMO_ST_NOTINIT`, `DEMO_ST_START_DISCOVERY`, `DEMO_ST_DISCOVERY`. */
  datatype DemoState = NotInit | StartDiscovery | Discovery

  /** The globals every demo keeps: `state` and `discParam`. */
  datatype Loop = Loop(state: DemoState, params: DiscoverParams)

  /** The globals before `demoIni`. */
  const Initial := Loop(NotInit, ZeroParams)

  /** A step: the new state and the calls it made, in order. */
  datatype Step<S> = Step(next: S, trace: seq<Call>)

  /** The result of `demoIni`: its boolean answer and the new globals. */
  datatype Init<S> = Init(ok: bool, next: S)

  /** Switching every LED off, in the order the source does it. */
  const LedsOffCalls: seq<Call> :=
    [LedOff(LedA), LedOff(LedB), LedOff(LedF), LedOff(LedV), LedOff(LedAp2p), LedOff(LedField)]

  /** Switching every LED on (the blinking of the NDEF demo menu). */
  const LedsOnCalls: seq<Call> :=
    [LedOn(LedA), LedOn(LedB), LedOn(LedF), LedOn(LedV), LedOn(LedAp2p), LedOn(LedField)]

  /** Switching the LEDs makes no other call. */
  lemma LedCallsOnly(x: Call)
    requires !x.LedOn? && !x.LedOff?
    ensures x !in LedsOffCalls && x !in LedsOnCalls
  {
  }

  /** Switching the LEDs makes no library step. */
  lemma LedCallsNoSteps()
    ensures NdefSteps(LedsOffCalls) == [] && NdefSteps(LedsOnCalls) == []
  {
    NoNdefSteps(LedsOffCalls);
    NoNdefSteps(LedsOnCalls);
  }

  /** What `demoIni` of the NFC-V demos writes into `discParam`: NFC
      compliance, one device, a 1000 ms discovery period, wake-up disabled
      with its default configuration, NFC-V polling only, and the given
      notification callback. Every other field keeps its value. */
  function NfcvParams(p: DiscoverParams, notify: Notifier): DiscoverParams {
    p.(compMode := Some(CompModeNfc), devLimit := 1, notify := notify,
      totalDuration := 1000, wakeupEnabled := false, wakeupConfigDefault := true, techs := {TechV})
  }

  /** Delay, in milliseconds, between the end of a session and the next discovery. */
  const CoolDownMs: nat := 500

  /** What ends every handled activation. */
  const Teardown: seq<Call> := [Deactivate(false), Delay(CoolDownMs)]

  /** What `DEMO_ST_START_DISCOVERY` does. */
  function StartCalls(p: DiscoverParams): (r: seq<Call>)
    ensures |r| == 8 && r[..6] == LedsOffCalls && r[6] == Deactivate(false) && r[7] == Discover(p)
  {
    LedsOffCalls + [Deactivate(false), Discover(p)]
  }

  /** Starting discovery logs nothing. */
  lemma StartCallsNoLog(x: Call, p: DiscoverParams)
    requires x.Log?
    ensures x !in StartCalls(p)
  {
    LedCallsOnly(x);
  }

  /** Dispatching an activation: fetch the device, handle it, tear down. */
  lemma SwitchDispatch(l: Loop, handled: seq<Call>)
    requires l.state == Discovery
    ensures Switch(l, true, handled).trace == [GetActiveDevice] + handled + Teardown
  {
  }

  /** The button check and the state switch do not run the worker
      themselves. */
  lemma NoWorkerInside(l: Loop, low: bool, activated: bool, handled: seq<Call>)
    requires Worker !in handled
    ensures Worker !in Button(l, low).trace
    ensures Worker !in Switch(l, activated, handled).trace
  {
    LedCallsOnly(Worker);
    assert Worker !in Teardown;
  }

  /** Fetching the device and tearing the session down add no library step
      to the handling. */
  lemma SwitchSteps(l: Loop, handled: seq<Call>)
    requires l.state == Discovery
    ensures NdefSteps(Switch(l, true, handled).trace) == NdefSteps(handled)
  {
    StepsOf1(GetActiveDevice);
    NoSteps2(Deactivate(false), Delay(CoolDownMs));
    NdefStepsAround([GetActiveDevice], handled, Teardown);
  }

  /** The `switch( state )` of `demoCycle`. `activated` is the answer of
      `rfalNfcIsDevActivated`; `handled` is what the demo does with the
      activated device between fetching it and deactivating it. */
  function Switch(l: Loop, activated: bool, handled: seq<Call>): (r: Step<Loop>)
    ensures r.next.params == l.params
    ensures l.state == StartDiscovery ==> r.next.state == Discovery && r.trace == StartCalls(l.params)
    ensures l.state == Discovery && !activated ==> r.next == l && r.trace == []
    ensures l.state == Discovery && activated ==>
      && r.next.state == StartDiscovery
      && |r.trace| == |handled| + 3
      && r.trace[0] == GetActiveDevice
      && r.trace[1..|r.trace| - 2] == handled
      && r.trace[|r.trace| - 2..] == Teardown
    ensures l.state == NotInit ==> r.next == l && r.trace == []
    ensures GetActiveDevice in r.trace ==> l.state == Discovery && activated
  {
    match l.state
    case StartDiscovery =>
      Step(l.(state := Discovery), StartCalls(l.params))
    case Discovery =>
      if activated then
        Step(l.(state := StartDiscovery), [GetActiveDevice] + handled + Teardown)
      else Step(l, [])
    case NotInit =>
      Step(l, [])
  }

  /** The user-button check of the UID and P2P demos: a press toggles the
      wake-up flag and forces a restart of discovery, whatever the state. */
  function Button(l: Loop, low: bool): (r: Step<Loop>)
    ensures low ==> r.next.state == StartDiscovery
    ensures low ==> r.next.params.wakeupEnabled == !l.params.wakeupEnabled
    ensures low ==> r.trace == [Log(WakeupToggled(r.next.params.wakeupEnabled))]
    ensures r.next.params == l.params.(wakeupEnabled := r.next.params.wakeupEnabled)
    ensures !low ==> r.next == l && r.trace == []
  {
    if low then
      var p := l.params.(wakeupEnabled := !l.params.wakeupEnabled);
      Step(Loop(StartDiscovery, p), [Log(WakeupToggled(p.wakeupEnabled))])
    else Step(l, [])
  }

  lemma TwoPressesRestore(l: Loop)
    ensures Button(Button(l, true).next, true).next == l.(state := StartDiscovery)
  {
  }

  /** `demoNotif`: logs the wake-up transitions and, when several devices were
      found, selects the first one. */
  function Notify(st: NfcState, devCount: nat): (r: seq<Call>)
    ensures Select(0) in r <==> st == PollSelect
    ensures GetDevicesFound in r <==> st == PollSelect
    ensures forall x :: x in r ==> x.Log? || x == GetDevicesFound || x == Select(0)
    ensures st == OtherState ==> r == []
  {
    match st
    case WakeupMode => [Log(WakeupStarted)]
    case PollTechDetect => [Log(WakeupTerminated)]
    case PollSelect => [GetDevicesFound, Select(0), Log(MultipleTags(devCount))]
    case OtherState => []
  }
}
