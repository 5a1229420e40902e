/** The two per-section checksums of a Daikin ARC468A3 message. */
module Daikin468Checksum {
  import opened Daikin468Constants
  import opened Daikin468Protocol
  import opened Bytes

  /** The running sum the remote accumulates in a `uint8_t` over bytes
      `lo` to `hi - 1`: bytes are added front to back and every addition is
      reduced modulo 256. */
  function WrapSum(s: seq<Byte>, lo: nat, hi: nat): (v: Byte)
    requires lo <= hi <= |s|
    decreases hi - lo
  {
    if lo == hi then 0 else (WrapSum(s, lo, hi - 1) + s[hi - 1]) % 256
  }

  /** The exact integer sum of bytes `lo` to `hi - 1`. */
  function Sum(s: seq<Byte>, lo: nat, hi: nat): nat
    requires lo <= hi <= |s|
    decreases hi - lo
  {
    if lo == hi then 0 else s[lo] + Sum(s, lo + 1, hi)
  }

  lemma {:induction false} SumSnoc(s: seq<Byte>, lo: nat, hi: nat)
    requires lo <= hi < |s|
    ensures Sum(s, lo, hi + 1) == Sum(s, lo, hi) + s[hi]
    decreases hi - lo
  {
    if lo < hi {
      SumSnoc(s, lo + 1, hi);
    }
  }

  /** Sequences that agree on bytes `lo` to `hi - 1` have the same sum there. */
  lemma {:induction false} SumFrame(s: seq<Byte>, t: seq<Byte>, lo: nat, hi: nat)
    requires lo <= hi <= |s| && hi <= |t|
    requires forall i | lo <= i < hi :: s[i] == t[i]
    ensures Sum(s, lo, hi) == Sum(t, lo, hi)
    decreases hi - lo
  {
    if lo < hi {
      SumFrame(s, t, lo + 1, hi);
    }
  }

  /** A run of zero bytes sums to zero. */
  lemma {:induction false} SumZeros(s: seq<Byte>, lo: nat, hi: nat)
    requires lo <= hi <= |s|
    requires forall i | lo <= i < hi :: s[i] == 0
    ensures Sum(s, lo, hi) == 0
    decreases hi - lo
  {
    if lo < hi {
      SumZeros(s, lo + 1, hi);
    }
  }

  lemma ModAddMod(a: nat, b: nat)
    ensures (a % 256 + b) % 256 == (a + b) % 256
  {
  }

  /** The wrapping accumulator ends at the byte sum modulo 256. */
  lemma {:induction false} WrapSumIsSumMod256(s: seq<Byte>, lo: nat, hi: nat)
    requires lo <= hi <= |s|
    ensures WrapSum(s, lo, hi) == Sum(s, lo, hi) % 256
    decreases hi - lo
  {
    if lo < hi {
      WrapSumIsSumMod256(s, lo, hi - 1);
      SumSnoc(s, lo, hi - 1);
      ModAddMod(Sum(s, lo, hi - 1), s[hi - 1]);
    }
  }

  /** Each checksum byte holds the sum modulo 256 of the bytes of its section
      before it: bytes 0..18 for byte 19, bytes 20..37 for byte 38. */
  predicate ChecksumsValid(raw: Raw) {
    && raw[Sum1Field.index] == Sum(raw, 0, Sum1Field.index) % 256
    && raw[Sum2Field.index] == Sum(raw, Section1Length as int, Sum2Field.index) % 256
  }

  /** Each checksum is the last byte of its section, so it lies just past the range it sums. */
  lemma ChecksumPositions()
    ensures Sum1Field.index == Section1Length as int - 1
    ensures Sum2Field.index == Section1Length as int + Section2Length as int - 1
    ensures Sum1Field.index < Section1Length as int <= Sum2Field.index
  {
  }

  /** Recompute both checksums: the first over bytes 0..18 into byte 19, then
      the second over bytes 20..37 into byte 38. No other byte changes. */
  function Checksum(raw: Raw): (r: Raw)
    ensures ChecksumsValid(r)
    ensures forall i | 0 <= i < |raw| && i != Sum1Field.index && i != Sum2Field.index :: r[i] == raw[i]
  {
    var r1 := raw[Sum1Field.index := Sum(raw, 0, Sum1Field.index) % 256];
    var r2 := r1[Sum2Field.index := Sum(r1, Section1Length as int, Sum2Field.index) % 256];
    SumFrame(r2, raw, 0, 19);
    SumFrame(r2, r1, 20, 38);
    r2
  }

  /** The checksum bytes `Checksum` stores, as sums over the state it was given. */
  lemma ChecksumBytes(raw: Raw)
    ensures Checksum(raw)[Sum1Field.index] == Sum(raw, 0, Sum1Field.index) % 256
    ensures Checksum(raw)[Sum2Field.index] == Sum(raw, Section1Length as int, Sum2Field.index) % 256
  {
    var r1 := raw[Sum1Field.index := Sum(raw, 0, Sum1Field.index) % 256];
    SumFrame(r1, raw, 20, 38);
  }

  /** The checksums are what the remote's `uint8_t` accumulator ends at when
      it adds up each section's bytes front to back. */
  lemma ChecksumIsWrapSum(raw: Raw)
    ensures Checksum(raw)[Sum1Field.index] == WrapSum(raw, 0, Sum1Field.index)
    ensures Checksum(raw)[Sum2Field.index] == WrapSum(raw, Section1Length as int, Sum2Field.index)
  {
    ChecksumBytes(raw);
    WrapSumIsSumMod256(raw, 0, 19);
    WrapSumIsSumMod256(raw, 20, 38);
  }

  /** A state is left unchanged by `Checksum` exactly when its checksums are already valid. */
  lemma ChecksumFixesExactlyValid(raw: Raw)
    ensures Checksum(raw) == raw <==> ChecksumsValid(raw)
  {
    if ChecksumsValid(raw) {
      var r := Checksum(raw);
      ChecksumBytes(raw);
      assert forall i | 0 <= i < |raw| :: r[i] == raw[i];
    }
  }

  /** Recomputing the checksums twice is the same as once. */
  lemma ChecksumIdempotent(raw: Raw)
    ensures Checksum(Checksum(raw)) == Checksum(raw)
  {
    ChecksumFixesExactlyValid(Checksum(raw));
  }
}
