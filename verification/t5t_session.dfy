/**
 * What the two Type 5 tag demos (examples 504 and 508) do with an activated
 * device: switch the LEDs off and let the field settle; for an NFC-V tag,
 * print its UID byte-reversed, light the V LED, run the demo's NDEF flow,
 * then re-issue an inventory every 130 ms until the tag stops answering.
 * Any other device type is ignored.
 */
module TagSession {
  import opened Rfal
  import opened Trace
  import opened DemoCycle
  import Uid

  /** `DEMO_RAW_MESSAGE_BUF_LEN`: capacity of the raw message buffer. */
  const RawBufLen: nat := 8192

  /** Delay after switching the LEDs off on an activation. */
  const SettleMs: nat := 50

  /** Delay between two presence inventories. */
  const InventoryGapMs: nat := 130

  /** One inventory the tag answered, and the wait before the next. */
  const PollGap: seq<Call> := [NfcvInventory, Delay(InventoryGapMs)]

  /** Presence polling: inventories answered with `ERR_NONE` are each followed
      by a 130 ms delay; the first other answer ends the loop. */
  function PresencePoll(answers: seq<ReturnCode>): (r: seq<Call>)
    requires Ends(answers, ErrNone)
    ensures r == Repeat(PollGap, FirstOther(answers, ErrNone)) + [NfcvInventory]
    ensures multiset(r)[NfcvInventory] == FirstOther(answers, ErrNone) + 1
  {
    if answers[0] != ErrNone then [NfcvInventory]
    else
      assert Ends(answers[1..], ErrNone) by {
        var n := FirstOther(answers, ErrNone);
        assert answers[1..][n - 1] == answers[n];
      }
      PollGap + PresencePoll(answers[1..])
  }

  /** Presence polling only issues inventories and waits. */
  lemma PresencePollOnly(answers: seq<ReturnCode>, x: Call)
    requires Ends(answers, ErrNone) && x != NfcvInventory && !x.Delay?
    ensures x !in PresencePoll(answers)
  {
    RepeatMember(PollGap, FirstOther(answers, ErrNone), x);
  }

  /** Presence polling makes no library step. */
  lemma PresencePollNoSteps(answers: seq<ReturnCode>)
    requires Ends(answers, ErrNone)
    ensures NdefSteps(PresencePoll(answers)) == []
  {
    NoSteps2(NfcvInventory, Delay(InventoryGapMs));
    StepsOf1(NfcvInventory);
    RepeatNoNdefSteps(PollGap, FirstOther(answers, ErrNone));
    NdefStepsAppend(Repeat(PollGap, FirstOther(answers, ErrNone)), [NfcvInventory]);
  }

  /** RFAL reports an 8-byte identifier for an NFC-V device, and the tag
      eventually stops answering inventories. */
  predicate Ready(nfcid: seq<uint8>, inventory: seq<ReturnCode>) {
    |nfcid| == NfcvUidLen && Ends(inventory, ErrNone)
  }

  /** The line announcing an NFC-V tag, with its UID byte-reversed. */
  function FoundLog(nfcid: seq<uint8>): Call
    requires |nfcid| == NfcvUidLen
  {
    Log(NfcvFound(Uid.DisplayUid(nfcid)))
  }

  /** The announcement and LED before the flow. */
  function SessionHead(nfcid: seq<uint8>): seq<Call>
    requires |nfcid| == NfcvUidLen
  {
    [FoundLog(nfcid), LedOn(LedV)]
  }

  /** What follows the flow before presence polling starts. */
  const SessionMid: seq<Call> := [Log(OperationCompleted), NfcvPollerInit]

  /** The `RFAL_NFC_LISTEN_TYPE_NFCV` case: announce, run `flow`, wait for
      the tag to leave. */
  function Session(nfcid: seq<uint8>, flow: seq<Call>, inventory: seq<ReturnCode>): (r: seq<Call>)
    requires Ready(nfcid, inventory)
    ensures |r| == 4 + |flow| + |PresencePoll(inventory)|
    ensures r[0] == FoundLog(nfcid) && r[1] == LedOn(LedV) && r[2..2 + |flow|] == flow
  {
    SecondOfFour(SessionHead(nfcid), flow, SessionMid, PresencePoll(inventory));
    SessionHead(nfcid) + flow + SessionMid + PresencePoll(inventory)
  }

  /** What happens between fetching the activated device and deactivating
      it: LEDs off, 50 ms, then the NFC-V session or nothing. */
  function Activation(kind: DevType, nfcid: seq<uint8>, flow: seq<Call>, inventory: seq<ReturnCode>): (r: seq<Call>)
    requires kind == NfcV ==> Ready(nfcid, inventory)
    ensures |r| >= |Settle| && r[..|Settle|] == Settle
    ensures kind != NfcV ==> r == Settle
    ensures kind == NfcV ==> r[|Settle|..] == Session(nfcid, flow, inventory)
  {
    Settle + Dispatch(kind, nfcid, flow, inventory)
  }

  /** Switching the LEDs off and letting the field settle. */
  const Settle: seq<Call> := LedsOffCalls + [Delay(SettleMs)]

  /** The `switch( nfcDevice->type )`: only NFC-V is handled. */
  function Dispatch(kind: DevType, nfcid: seq<uint8>, flow: seq<Call>, inventory: seq<ReturnCode>): seq<Call>
    requires kind == NfcV ==> Ready(nfcid, inventory)
  {
    if kind == NfcV then Session(nfcid, flow, inventory) else []
  }

  lemma SettleNoSteps()
    ensures NdefSteps(Settle) == []
  {
    LedCallsNoSteps();
    StepsOf1(Delay(SettleMs));
    NdefStepsAppend(LedsOffCalls, [Delay(SettleMs)]);
  }

  /** The session makes the library steps of its flow and no others. */
  lemma SessionSteps(nfcid: seq<uint8>, flow: seq<Call>, inventory: seq<ReturnCode>)
    requires Ready(nfcid, inventory)
    ensures NdefSteps(Session(nfcid, flow, inventory)) == NdefSteps(flow)
  {
    NoSteps2(FoundLog(nfcid), LedOn(LedV));
    NoSteps2(Log(OperationCompleted), NfcvPollerInit);
    NdefStepsAround(SessionHead(nfcid), flow, SessionMid);
    PresencePollNoSteps(inventory);
    NdefStepsAppend(SessionHead(nfcid) + flow + SessionMid, PresencePoll(inventory));
  }

  /** An activation makes the library steps of the flow when the device is
      an NFC-V tag, and none otherwise. */
  lemma ActivationSteps(kind: DevType, nfcid: seq<uint8>, flow: seq<Call>, inventory: seq<ReturnCode>)
    requires kind == NfcV ==> Ready(nfcid, inventory)
    ensures NdefSteps(Activation(kind, nfcid, flow, inventory)) == if kind == NfcV then NdefSteps(flow) else []
  {
    SettleNoSteps();
    NdefStepsAppend(Settle, Dispatch(kind, nfcid, flow, inventory));
    if kind == NfcV {
      SessionSteps(nfcid, flow, inventory);
    }
  }

  /** The session announces the byte-reversed UID first and ends with the
      presence poll. */
  lemma SessionShape(nfcid: seq<uint8>, flow: seq<Call>, inventory: seq<ReturnCode>)
    requires Ready(nfcid, inventory)
    ensures var s := Session(nfcid, flow, inventory);
      var p := PresencePoll(inventory);
      && s[0] == FoundLog(nfcid)
      && |s| >= |p| && s[|s| - |p|..] == p
  {
  }

  /** An NFC-V activation announces the tag. */
  lemma ActivationAnnounces(nfcid: seq<uint8>, flow: seq<Call>, inventory: seq<ReturnCode>)
    requires Ready(nfcid, inventory)
    ensures FoundLog(nfcid) in Activation(NfcV, nfcid, flow, inventory)
  {
    var s := Session(nfcid, flow, inventory);
    SessionShape(nfcid, flow, inventory);
    assert s[0] in Settle + s;
  }

  /** A call absent from the flow that the session does not make itself is
      absent from the whole activation. */
  lemma ActivationWithout(kind: DevType, nfcid: seq<uint8>, flow: seq<Call>, inventory: seq<ReturnCode>, x: Call)
    requires kind == NfcV ==> Ready(nfcid, inventory)
    requires x !in flow
    requires !x.LedOn? && !x.LedOff? && !x.Delay? && x != NfcvInventory && x != NfcvPollerInit
    requires x != Log(OperationCompleted) && (kind == NfcV ==> x != FoundLog(nfcid))
    ensures x !in Activation(kind, nfcid, flow, inventory)
  {
    LedCallsOnly(x);
    assert x !in Settle;
    if kind == NfcV {
      PresencePollOnly(inventory, x);
      assert x !in SessionHead(nfcid) + flow + SessionMid + PresencePoll(inventory);
    }
  }
}
