/**
 * The observable effects of one demo step, as an ordered trace of abstract
 * calls into RFAL, the NDEF library and the platform (LEDs, delays, log).
 */
module Trace {
  import opened Rfal

  /** The six indicator LEDs of the X-NUCLEO-NFC05A1 board. */
  datatype Led = LedA | LedB | LedF | LedV | LedAp2p | LedField

  /** The log lines the demos print, without their formatting. */
  datatype Msg =
    | TimerExpired
    | TapPrompt
    | NfcvFound(uid: seq<uint8>)
    | OperationCompleted
    | NdefInitFailed(code: ReturnCode)
    | NdefDetectFailed(code: ReturnCode)
    | NdefDetected(stateName: string)
    | NdefLenOffset
    | ReadFailed(code: ReturnCode)
    | DecodeFailed(code: ReturnCode)
    | DumpFailed(code: ReturnCode)
    | Formatting
    | CannotFormat(code: ReturnCode)
    | CreationFailed
    | WriteFailed(code: ReturnCode)
    | WroteAar
    | WakeupToggled(on: bool)
    | WakeupStarted
    | WakeupTerminated
    | MultipleTags(count: nat)
    | NfcaP2pFound(nfcid: seq<uint8>)
    | NfcaCardFound(nfcid: seq<uint8>)
    | Ap2pFound(nfcid: seq<uint8>)
    | InitDevice
    | PushUri
    | Succeeded
    | Failed
    | Maintaining
    | Dot
    | DeviceRemoved

  /** One call made by a demo step. */
  datatype Call =
    | Worker
    | LedOn(led: Led)
    | LedOff(led: Led)
    | Deactivate(keepContext: bool)
    | Discover(params: DiscoverParams)
    | GetActiveDevice
    | Delay(ms: nat)
    | Log(msg: Msg)
    | GetDevicesFound
    | Select(index: nat)
    | ExchangeStart(frame: seq<uint8>)
    | ExchangeStatus
    | NfcvPollerInit
    | NfcvInventory
    | NdefContextInit
    | NdefDetect
    | NdefFormat
    | NdefReadRaw(capacity: nat)
    | NdefDecode(len: nat)
    | NdefMessageDump
    | NdefMessageInit
    | NdefRtdAar(packageName: seq<uint8>)
    | NdefAarToRecord
    | NdefMessageAppend
    | NdefMessageEncode(capacity: nat)
    | NdefWriteRaw(len: nat)
    | SysInfoDump
    | CcDump
    | RawDump(len: nat)
  {
    /** A protocol step of an NDEF flow: a call into the NDEF library whose
        return code steers the flow (the log-only dumps are not steps). */
    predicate IsNdefStep() {
      || NdefContextInit? || NdefDetect? || NdefFormat? || NdefReadRaw?
      || NdefDecode? || NdefMessageDump? || NdefMessageInit? || NdefRtdAar?
      || NdefAarToRecord? || NdefMessageAppend? || NdefMessageEncode? || NdefWriteRaw?
    }
  }

  /** `n` copies of `block`, one after the other. */
  function Repeat(block: seq<Call>, n: nat): (r: seq<Call>)
    ensures |r| == n * |block|
  {
    if n == 0 then [] else block + Repeat(block, n - 1)
  }

  /** Every call of `Repeat(block, n)` is a call of `block`, and it holds `n`
      times as many of each. */
  lemma {:induction false} RepeatCount(block: seq<Call>, n: nat, x: Call)
    ensures multiset(Repeat(block, n))[x] == n * multiset(block)[x]
  {
    if n > 0 {
      RepeatCount(block, n - 1, x);
      var m := multiset(block)[x];
      assert multiset(Repeat(block, n)) == multiset(block) + multiset(Repeat(block, n - 1));
      assert n * m == m + (n - 1) * m;
    }
  }

  /** A call occurs in a repetition exactly when the block is repeated at
      least once and contains it. */
  lemma RepeatMember(block: seq<Call>, n: nat, x: Call)
    ensures x in Repeat(block, n) <==> n > 0 && x in block
  {
    RepeatCount(block, n, x);
    var m := multiset(block)[x];
    if n > 0 && m > 0 {
      assert n * m >= m;
    }
  }

  /** A trace ends with its last part. */
  lemma EndsWith(a: seq<Call>, b: seq<Call>)
    ensures |a + b| >= |b| && (a + b)[|a + b| - |b|..] == b
  {
  }

  /** The second of four parts sits right after the first. */
  lemma SecondOfFour(a: seq<Call>, b: seq<Call>, c: seq<Call>, d: seq<Call>)
    ensures var t := a + b + c + d;
      |t| == |a| + |b| + |c| + |d| && t[|a|..|a| + |b|] == b
  {
    assert a + b + c + d == a + (b + (c + d));
  }

  /** The NDEF protocol steps of a trace, in order. */
  function NdefSteps(t: seq<Call>): (r: seq<Call>)
    ensures |r| <= |t|
  {
    if t == [] then []
    else (if t[0].IsNdefStep() then [t[0]] else []) + NdefSteps(t[1..])
  }

  lemma {:induction false} NdefStepsAppend(a: seq<Call>, b: seq<Call>)
    ensures NdefSteps(a + b) == NdefSteps(a) + NdefSteps(b)
  {
    if a == [] {
      assert a + b == b;
    } else {
      var head := if a[0].IsNdefStep() then [a[0]] else [];
      assert (a + b)[0] == a[0];
      assert (a + b)[1..] == a[1..] + b;
      NdefStepsAppend(a[1..], b);
      assert NdefSteps(a + b) == head + (NdefSteps(a[1..]) + NdefSteps(b));
    }
  }

  /** Filtering keeps every occurrence of a protocol step. */
  lemma {:induction false} NdefStepsCount(t: seq<Call>, x: Call)
    requires x.IsNdefStep()
    ensures multiset(NdefSteps(t))[x] == multiset(t)[x]
  {
    if t != [] {
      assert t == [t[0]] + t[1..];
      NdefStepsCount(t[1..], x);
    }
  }

  /** A trace without protocol steps filters to nothing. */
  lemma {:induction false} NoNdefSteps(t: seq<Call>)
    requires forall i :: 0 <= i < |t| ==> !t[i].IsNdefStep()
    ensures NdefSteps(t) == []
  {
    if t != [] {
      NoNdefSteps(t[1..]);
    }
  }

  lemma StepsOf1(x: Call)
    ensures NdefSteps([x]) == if x.IsNdefStep() then [x] else []
  {
    assert [x][1..] == [];
  }

  lemma NoSteps2(x: Call, y: Call)
    requires !x.IsNdefStep() && !y.IsNdefStep()
    ensures NdefSteps([x, y]) == []
  {
    assert [x, y][1..] == [y];
    StepsOf1(y);
  }

  /** A trace made only of library steps is its own list of steps. */
  lemma {:induction false} AllNdefSteps(t: seq<Call>)
    requires forall i :: 0 <= i < |t| ==> t[i].IsNdefStep()
    ensures NdefSteps(t) == t
  {
    if t != [] {
      AllNdefSteps(t[1..]);
    }
  }

  /** Repeating a block without library steps makes none. */
  lemma {:induction false} RepeatNoNdefSteps(block: seq<Call>, n: nat)
    requires NdefSteps(block) == []
    ensures NdefSteps(Repeat(block, n)) == []
  {
    if n > 0 {
      RepeatNoNdefSteps(block, n - 1);
      NdefStepsAppend(block, Repeat(block, n - 1));
    }
  }

  /** Library steps are unaffected by surrounding calls that are not steps. */
  lemma NdefStepsAround(a: seq<Call>, b: seq<Call>, c: seq<Call>)
    requires NdefSteps(a) == [] && NdefSteps(c) == []
    ensures NdefSteps(a + b + c) == NdefSteps(b)
  {
    NdefStepsAppend(a, b);
    NdefStepsAppend(a + b, c);
  }

  /** `p` is a prefix of `q`. */
  predicate IsPrefix(p: seq<Call>, q: seq<Call>) {
    |p| <= |q| && q[..|p|] == p
  }
}
