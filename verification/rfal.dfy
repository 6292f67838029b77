/**
 * Vocabulary of the RF abstraction layer (RFAL) and of the NDEF library as
 * the demo programs see them: return codes, the activated device, the
 * discovery parameters and the notification states. The libraries
 * themselves are not part of this model; only the values they hand back
 * to the demos are, and those become inputs of the model's functions.
 */
module Rfal {
  import opened Wrappers

  /** An unsigned 8-bit value (`uint8_t`). */
  newtype uint8 = x: int | 0 <= x < 256

  /** RFAL's `ReturnCode`, a 16-bit unsigned integer. It is a bit-vector here
      because the AAR demo accumulates codes with `|=`. */
  type ReturnCode = bv16

  /** `ERR_NONE`: the call succeeded. */
  const ErrNone: ReturnCode := 0

  /** `ERR_BUSY`: the exchange is still in progress. Only its being different
      from `ErrNone` matters to the demos. */
  const ErrBusy: ReturnCode := 2

  /** Some answer in `xs` differs from `v`: a loop that repeats while the
      answer is `v` stops inside `xs`. */
  predicate Ends(xs: seq<ReturnCode>, v: ReturnCode) {
    exists i :: 0 <= i < |xs| && xs[i] != v
  }

  /** Index of the first answer in `xs` that differs from `v`. */
  function FirstOther(xs: seq<ReturnCode>, v: ReturnCode): (n: nat)
    requires Ends(xs, v)
    ensures n < |xs| && xs[n] != v
    ensures forall j :: 0 <= j < n ==> xs[j] == v
  {
    if xs[0] != v then 0
    else
      assert Ends(xs[1..], v) by {
        var i :| 0 <= i < |xs| && xs[i] != v;
        assert xs[1..][i - 1] == xs[i];
      }
      1 + FirstOther(xs[1..], v)
  }

  /** `rfalNfcaListenDeviceType`: the kind of NFC-A listener. */
  datatype NfcaType = T1T | T2T | T4T | NfcDep | T4TNfcDep

  /** `rfalNfcDevType`: the technology of the activated device, with the NFC-A
      sub-type where the demos look at it. */
  datatype DevType = NfcA(nfcaType: NfcaType) | NfcB | NfcF | NfcV | St25tb | Ap2p

  /** `rfalNfcDevice` as the demos read it: its type and its identifier
      (`nfcid`, `nfcidLen` bytes). */
  datatype Device = Device(kind: DevType, nfcid: seq<uint8>)

  /** `RFAL_NFCV_UID_LEN`: an ISO/IEC 15693-3 UID is 8 bytes (section 4.1). */
  const NfcvUidLen: nat := 8

  /** Technologies that discovery can poll for (`techs2Find` bits). */
  datatype Tech = TechA | TechB | TechF | TechV | TechSt25tb | TechAp2p

  /** `rfalComplianceMode`. */
  datatype CompMode = CompModeNfc | CompModeEmv | CompModeIso

  /** `rfalBitRate` values the demos configure. */
  datatype BitRate = Br106 | Br212 | Br424 | Br848

  /** The notification callback: `NULL`, or the demo's `demoNotif`. */
  datatype Notifier = NoNotifier | DemoNotifier

  /** `rfalNfcDiscoverParam`. A field the program never assigns keeps the
      zero value of its static storage: `None` for the enumerations, empty
      for the byte arrays. */
  datatype DiscoverParams = DiscoverParams(
    compMode: Option<CompMode>,
    devLimit: nat,
    nfcfBR: Option<BitRate>,
    ap2pBR: Option<BitRate>,
    nfcid3: seq<uint8>,
    gb: seq<uint8>,
    gbLen: nat,
    notify: Notifier,
    totalDuration: nat,
    wakeupEnabled: bool,
    wakeupConfigDefault: bool,
    techs: set<Tech>)

  /** The zero-initialised `static rfalNfcDiscoverParam discParam`. */
  const ZeroParams := DiscoverParams(None, 0, None, None, [], [], 0, NoNotifier, 0, false, false, {})

  /** The RFAL states `demoNotif` distinguishes; every other state is `OtherState`. */
  datatype NfcState = WakeupMode | PollTechDetect | PollSelect | OtherState

  /** `ndefState`: the lifecycle state NDEF detect reports. */
  datatype NdefState = NdefInvalid | NdefInitialized | NdefReadWrite | NdefReadOnly
}
