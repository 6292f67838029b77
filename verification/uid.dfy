/**
 * Display form of an ISO/IEC 15693-3 UID. The UID travels least significant
 * byte first (section 4.1 of ISO/IEC 15693-3); the demos reverse it in place
 * with `REVERSE_BYTES` before printing it most significant byte first.
 */
module Uid {
  import opened Rfal

  /** The bytes of `s` in the opposite order. */
  function Reverse(s: seq<uint8>): (r: seq<uint8>)
    ensures |r| == |s|
    ensures forall i :: 0 <= i < |s| ==> r[i] == s[|s| - 1 - i]
  {
    if s == [] then [] else Reverse(s[1..]) + [s[0]]
  }

  lemma {:induction false} ReverseReverse(s: seq<uint8>)
    ensures Reverse(Reverse(s)) == s
  {
    var r := Reverse(Reverse(s));
    assert |r| == |s|;
    forall i | 0 <= i < |s|
      ensures r[i] == s[i]
    {
      assert r[i] == Reverse(s)[|s| - 1 - i];
    }
  }

  /** `REVERSE_BYTES`: swaps the outermost pair, then the next pair inwards,
      until the two indices meet. */
  method ReverseBytes(buf: seq<uint8>) returns (r: seq<uint8>)
    ensures r == Reverse(buf)
  {
    r := buf;
    var i := 0;
    var n := |buf|;
    while i < n / 2
      invariant 0 <= i <= n / 2
      invariant |r| == n
      invariant forall k :: 0 <= k < i ==> r[k] == buf[n - 1 - k] && r[n - 1 - k] == buf[k]
      invariant forall k :: i <= k < n - i ==> r[k] == buf[k]
    {
      var tmp := r[i];
      r := r[i := r[n - 1 - i]];
      r := r[n - 1 - i := tmp];
      i := i + 1;
    }
  }

  /** The UID an NFC-V branch prints: the 8 bytes copied from `nfcid`,
      reversed. The copy takes `nfcidLen` bytes while the reversal always
      covers `RFAL_NFCV_UID_LEN` bytes, so the two agree only when the device
      reports an 8-byte identifier. */
  function DisplayUid(nfcid: seq<uint8>): (r: seq<uint8>)
    requires |nfcid| == NfcvUidLen
    ensures |r| == NfcvUidLen
    ensures forall i :: 0 <= i < NfcvUidLen ==> r[i] == nfcid[NfcvUidLen - 1 - i]
    ensures Reverse(r) == nfcid
  {
    ReverseReverse(nfcid);
    Reverse(nfcid)
  }
}
