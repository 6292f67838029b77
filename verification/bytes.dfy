/**
 * Byte-level encodings shared by the NFC Forum formats: the 32-bit
 * big-endian lengths of SNEP and NDEF, and bytes read as ASCII text.
 */
module Bytes {
  import opened Rfal

  /** Bound of a 32-bit unsigned length. */
  const Max32: nat := 0x1_0000_0000

  /** `n` as four bytes, most significant first. */
  function Be32(n: nat): (r: seq<uint8>)
    requires n < Max32
    ensures |r| == 4
  {
    var q1 := n / 0x100;
    var q2 := q1 / 0x100;
    [(q2 / 0x100) as uint8, (q2 % 0x100) as uint8, (q1 % 0x100) as uint8, (n % 0x100) as uint8]
  }

  /** The number four bytes spell, most significant first. */
  function FromBe32(b: seq<uint8>): (n: nat)
    requires |b| == 4
    ensures n < Max32
  {
    ((b[0] as int * 0x100 + b[1] as int) * 0x100 + b[2] as int) * 0x100 + b[3] as int
  }

  /** A number is its quotient and remainder by 256. */
  lemma SplitByte(hi: nat, lo: nat)
    requires lo < 0x100
    ensures (hi * 0x100 + lo) / 0x100 == hi && (hi * 0x100 + lo) % 0x100 == lo
  {
  }

  lemma Be32RoundTrip(n: nat)
    requires n < Max32
    ensures FromBe32(Be32(n)) == n
  {
    var q1 := n / 0x100;
    var q2 := q1 / 0x100;
    assert n == q1 * 0x100 + n % 0x100;
    assert q1 == q2 * 0x100 + q1 % 0x100;
    assert q2 == (q2 / 0x100) * 0x100 + q2 % 0x100;
  }

  lemma FromBe32RoundTrip(b: seq<uint8>)
    requires |b| == 4
    ensures Be32(FromBe32(b)) == b
  {
    var q2 := b[0] as int * 0x100 + b[1] as int;
    var q1 := q2 * 0x100 + b[2] as int;
    SplitByte(q1, b[3] as int);
    SplitByte(q2, b[2] as int);
    SplitByte(b[0] as int, b[1] as int);
  }

  /** Bytes read as (ASCII) characters. */
  function Chars(b: seq<uint8>): (s: string)
    ensures |s| == |b| && forall i :: 0 <= i < |b| ==> s[i] as int == b[i] as int
  {
    seq(|b|, i requires 0 <= i < |b| => b[i] as char)
  }
}
