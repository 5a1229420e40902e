/** The remote's hex dump: two upper-case hex digits per byte, high nibble
    first, for all 39 bytes after the checksums are refreshed. `DecodeHex`
    is its inverse. */
module Daikin468Hex {
  import opened Daikin468Constants
  import opened Wrappers
  import opened Daikin468Protocol
  import opened Daikin468Checksum
  import opened Daikin468
  import opened Bytes

  const HexDigits: string := "0123456789ABCDEF"

  /** The high nibble of a byte, `byte >> 4`. */
  function High(b: Byte): (n: nat)
    ensures n < 16
  {
    b / 16
  }

  /** The low nibble of a byte, `byte & 0xF`. */
  function Low(b: Byte): (n: nat)
    ensures n < 16
  {
    b % 16
  }

  /** The digit for nibble `n`: `'0' + n` below ten, `'A' + n - 10` from ten on. */
  function HexDigit(n: nat): (c: char)
    requires n < 16
    ensures c == HexDigits[n]
  {
    if n < 10 then ('0' as int + n) as char else ('A' as int + n - 10) as char
  }

  /** The nibble an upper-case hex digit stands for; anything else is rejected. */
  function DigitValue(c: char): (r: Option<nat>)
    ensures r.Some? ==> r.value < 16
  {
    if '0' <= c <= '9' then Some(c as int - '0' as int)
    else if 'A' <= c <= 'F' then Some(c as int - 'A' as int + 10)
    else None
  }

  /** Exactly the sixteen digits are accepted, each as the nibble it is the digit of. */
  lemma DigitValueAccepts(c: char)
    ensures DigitValue(c).Some? <==> c in HexDigits
    ensures DigitValue(c).Some? ==> HexDigits[DigitValue(c).value] == c && HexDigit(DigitValue(c).value) == c
  {
  }

  /** Reading back the digit of a nibble gives the nibble. */
  lemma DigitValueInverts(n: nat)
    requires n < 16
    ensures DigitValue(HexDigit(n)) == Some(n)
  {
    if n < 10 {
      assert '0' <= HexDigit(n) <= '9';
    } else {
      assert 'A' <= HexDigit(n) <= 'F';
    }
  }

  /** A byte is rebuilt from its two nibbles. */
  lemma NibblesRebuild(b: Byte)
    ensures High(b) * 16 + Low(b) == b
  {
  }

  /** The nibbles of a byte built from two nibbles are those nibbles. */
  lemma NibblesOfBuilt(hi: nat, lo: nat)
    requires hi < 16 && lo < 16
    ensures High(hi * 16 + lo) == hi && Low(hi * 16 + lo) == lo
  {
  }

  /** Two digits per byte: the high nibble's, then the low nibble's. */
  function EncodeHex(bytes: seq<Byte>): (s: string)
    ensures |s| == 2 * |bytes|
    ensures forall i | 0 <= i < |bytes| :: s[2 * i] == HexDigit(High(bytes[i])) && s[2 * i + 1] == HexDigit(Low(bytes[i]))
  {
    if |bytes| == 0 then ""
    else
      var rest := EncodeHex(bytes[1..]);
      var s := [HexDigit(High(bytes[0])), HexDigit(Low(bytes[0]))] + rest;
      EncodeStep(bytes, rest, s);
      s
  }

  lemma EncodeStep(bytes: seq<Byte>, rest: string, s: string)
    requires |bytes| > 0 && |rest| == 2 * (|bytes| - 1)
    requires forall i | 0 <= i < |bytes| - 1 ::
      rest[2 * i] == HexDigit(High(bytes[1..][i])) && rest[2 * i + 1] == HexDigit(Low(bytes[1..][i]))
    requires s == [HexDigit(High(bytes[0])), HexDigit(Low(bytes[0]))] + rest
    ensures forall i | 0 <= i < |bytes| :: s[2 * i] == HexDigit(High(bytes[i])) && s[2 * i + 1] == HexDigit(Low(bytes[i]))
  {
    forall i | 0 <= i < |bytes|
      ensures s[2 * i] == HexDigit(High(bytes[i])) && s[2 * i + 1] == HexDigit(Low(bytes[i]))
    {
      if i > 0 {
        var j := i - 1;
        assert s[2 * i] == rest[2 * j] && s[2 * i + 1] == rest[2 * j + 1];
        assert bytes[1..][j] == bytes[i];
      }
    }
  }

  /** Read digit pairs back into bytes; an odd length or a character outside
      "0123456789ABCDEF" gives None. */
  function DecodeHex(s: string): Option<seq<Byte>>
    decreases |s|
  {
    if |s| == 0 then Some([])
    else if |s| == 1 then None
    else
      var hi, lo, rest := DigitValue(s[0]), DigitValue(s[1]), DecodeHex(s[2..]);
      if hi.None? || lo.None? || rest.None? then None
      else
        var b: Byte := hi.value * 16 + lo.value;
        Some([b] + rest.value)
  }

  /** Decoding a dump gives back the bytes it was made from. */
  lemma {:induction false} DecodeEncode(bytes: seq<Byte>)
    ensures DecodeHex(EncodeHex(bytes)) == Some(bytes)
  {
    if |bytes| > 0 {
      var s, b := EncodeHex(bytes), bytes[0];
      DigitValueInverts(High(b));
      DigitValueInverts(Low(b));
      assert s[2..] == EncodeHex(bytes[1..]);
      DecodeEncode(bytes[1..]);
      NibblesRebuild(b);
      DecodeStep(s, High(b), Low(b), bytes[1..], b);
      assert [b] + bytes[1..] == bytes;
    }
  }

  /** One step of `DecodeHex`: two digits, then the rest. */
  lemma {:induction false} DecodeStep(s: string, hi: nat, lo: nat, rest: seq<Byte>, b: Byte)
    requires |s| >= 2 && hi < 16 && lo < 16 && b == hi * 16 + lo
    requires DigitValue(s[0]) == Some(hi) && DigitValue(s[1]) == Some(lo)
    requires DecodeHex(s[2..]) == Some(rest)
    ensures DecodeHex(s) == Some([b] + rest)
  {
  }

  /** Every string that decodes is the dump of what it decodes to: there is
      exactly one accepted spelling per byte sequence. */
  lemma {:induction false} EncodeDecode(s: string, bytes: seq<Byte>)
    requires DecodeHex(s) == Some(bytes)
    ensures EncodeHex(bytes) == s
    decreases |s|
  {
    if |s| >= 2 {
      var hi, lo := DigitValue(s[0]).value, DigitValue(s[1]).value;
      var rest := DecodeHex(s[2..]).value;
      var b: Byte := hi * 16 + lo;
      DecodeStep(s, hi, lo, rest, b);
      DigitValueAccepts(s[0]);
      DigitValueAccepts(s[1]);
      NibblesOfBuilt(hi, lo);
      EncodeDecode(s[2..], rest);
      assert bytes[1..] == rest;
      assert s == [s[0], s[1]] + s[2..];
    }
  }

  /** Every character of a dump is an upper-case hex digit. */
  lemma DumpIsHex(bytes: seq<Byte>)
    ensures forall k | 0 <= k < |EncodeHex(bytes)| :: EncodeHex(bytes)[k] in HexDigits
  {
    var s := EncodeHex(bytes);
    forall k | 0 <= k < |s|
      ensures s[k] in HexDigits
    {
      var i := k / 2;
      var n := if k % 2 == 0 then High(bytes[i]) else Low(bytes[i]);
      assert k == 2 * i || k == 2 * i + 1;
      assert s[k] == HexDigit(n);
      assert s[k] == HexDigits[n];
    }
  }

  /** The hex dump of the remote: the checksums are refreshed first, and the
      refreshed state is returned with the 78-digit string. */
  function ToChars(raw: Raw): (r: (Raw, string))
    ensures ChecksumsValid(r.0)
    ensures forall i | 0 <= i < |raw| && i != Sum1Field.index && i != Sum2Field.index :: r.0[i] == raw[i]
    ensures |r.1| == 2 * StateLength as int
    ensures forall k | 0 <= k < |r.1| :: r.1[k] in HexDigits
    ensures forall i | 0 <= i < |r.0| :: r.1[2 * i] == HexDigit(High(r.0[i])) && r.1[2 * i + 1] == HexDigit(Low(r.0[i]))
    ensures DecodeHex(r.1) == Some(r.0)
  {
    var st := Checksum(raw);
    DecodeEncode(st);
    DumpIsHex(st);
    (st, EncodeHex(st))
  }

  /** Saving the dump and restoring it through `SetRaw` then `GetRaw` gives
      back exactly the state the dump was taken of; dumping that state again
      gives the same string. */
  lemma DumpRestores(raw: Raw)
    ensures DecodeHex(ToChars(raw).1).Some?
    ensures |DecodeHex(ToChars(raw).1).value| == StateLength as int
    ensures GetRaw(SetRaw(DecodeHex(ToChars(raw).1).value)) == ToChars(raw).0
    ensures ToChars(ToChars(raw).0) == ToChars(raw)
  {
    var st := ToChars(raw).0;
    ChecksumFixesExactlyValid(st);
    assert SetRaw(st) == st;
    ChecksumIdempotent(raw);
  }
}
