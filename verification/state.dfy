/** The Daikin ARC468A3 remote: its reset state, the clamping and coercing
    setters over the bit-fields of the message, and raw snapshot/restore.
    Every setter is a pure function from the old state to the new one. */
module Daikin468 {
  import opened Daikin468Constants
  import opened BitFields
  import opened Daikin468Protocol
  import opened Daikin468Checksum
  import opened Bytes

  /** `a` and `b` agree on every byte except byte `k`. */
  predicate SameExcept(a: Raw, b: Raw, k: nat) {
    forall i | 0 <= i < |a| && i != k :: a[i] == b[i]
  }

  /** The power setting is bit 0 of byte 25. */
  function GetPower(raw: Raw): (on: bool)
    ensures on <==> raw[25] % 2 == 1
  {
    Get(raw, PowerField) == 1
  }

  function GetMode(raw: Raw): (m: nat)
    ensures m < 8
  {
    Get(raw, ModeField)
  }

  /** The whole-degree temperature; the half-degree bit is not read. */
  function GetTemp(raw: Raw): (t: nat)
    ensures t < 64
  {
    Get(raw, TempField)
  }

  /** The half-degree bit shares byte 26 with the temperature but is not
      part of it: writing it leaves the temperature read back unchanged. */
  lemma TempIgnoresHalfBit(raw: Raw, half: nat)
    ensures GetTemp(Set(raw, TempHalfField, half)) == GetTemp(raw)
  {
  }

  function GetFan(raw: Raw): (f: nat)
    ensures f < 16
  {
    Get(raw, FanField)
  }

  function GetSwingVertical(raw: Raw): (p: nat)
    ensures p < 16
  {
    Get(raw, SwingVField)
  }

  function GetSwingHorizontal(raw: Raw): (p: nat)
    ensures p < 16
  {
    Get(raw, SwingHField)
  }

  /** The bytes the remote starts from, before the checksums are computed:
      all zero except the section headers 11 DA 27 at bytes 0 and 20, the
      unknown constants at bytes 4, 31, 32, 35 and 36, and the settings bytes
      25 (cool, off), 26 (28 degrees) and 28 (fan 5, swing off). */
  function ResetBytes(): Raw {
    [0x11, 0xDA, 0x27, 0, 0x01, 0, 0, 0, 0, 0, 0, 0, 0, 0, 0, 0, 0, 0, 0, 0,
     0x11, 0xDA, 0x27, 0, 0, 0x38, 0x38, 0, 0x70, 0, 0, 0x06, 0x60, 0, 0, 0xC1, 0x90, 0, 0]
  }

  /** The fixed known-good state: power off, cool mode, 28 degrees, fan at
      maximum, both swings off, with both checksums computed. */
  function Reset(): (r: Raw)
    ensures !GetPower(r) && GetMode(r) == Cool && GetTemp(r) == 28
    ensures GetFan(r) == Fan5 && GetSwingVertical(r) == SwingOff && GetSwingHorizontal(r) == SwingOff
    ensures ChecksumsValid(r)
    ensures r[Sum1Field.index] == 0x13 && r[Sum2Field.index] == 0xA9
  {
    var r := Checksum(ResetBytes());
    ResetChecksumBytes();
    ResetSettings(r);
    r
  }

  /** What the settings bytes of the reset state decode to. */
  lemma ResetSettings(r: Raw)
    requires forall i | 0 <= i < |r| && i != Sum1Field.index && i != Sum2Field.index :: r[i] == ResetBytes()[i]
    ensures !GetPower(r) && GetMode(r) == Cool && GetTemp(r) == 28
    ensures GetFan(r) == Fan5 && GetSwingVertical(r) == SwingOff && GetSwingHorizontal(r) == SwingOff
  {
    assert r[25] == 0x38 && r[26] == 0x38 && r[28] == 0x70 && r[29] == 0;
  }

  lemma ResetChecksumBytes()
    ensures Checksum(ResetBytes())[Sum1Field.index] == 0x13
    ensures Checksum(ResetBytes())[Sum2Field.index] == 0xA9
  {
    ResetResidues();
    ChecksumBytes(ResetBytes());
  }

  /** The two reset sums modulo 256. */
  lemma ResetResidues()
    ensures Sum(ResetBytes(), 0, 19) % 256 == 0x13
    ensures Sum(ResetBytes(), 20, 38) % 256 == 0xA9
  {
    ResetSum1();
    ResetSum2();
  }

  /** The reset bytes of section 1 sum to 0x113. */
  lemma ResetSum1()
    ensures Sum(ResetBytes(), 0, 19) == 0x113
  {
    var b := ResetBytes();
    SumZeros(b, 5, 19);
    assert Sum(b, 4, 19) == 0x1;
    assert Sum(b, 3, 19) == 0x1;
    assert Sum(b, 2, 19) == 0x28;
    assert Sum(b, 1, 19) == 0x102;
    assert Sum(b, 0, 19) == 0x113;
  }

  /** The reset bytes of section 2 sum to 0x3A9. */
  lemma ResetSum2()
    ensures Sum(ResetBytes(), 20, 38) == 0x3A9
  {
    var b := ResetBytes();
    assert Sum(b, 37, 38) == 0x0;
    assert Sum(b, 36, 38) == 0x90;
    assert Sum(b, 35, 38) == 0x151;
    assert Sum(b, 34, 38) == 0x151;
    assert Sum(b, 33, 38) == 0x151;
    assert Sum(b, 32, 38) == 0x1B1;
    assert Sum(b, 31, 38) == 0x1B7;
    assert Sum(b, 30, 38) == 0x1B7;
    assert Sum(b, 29, 38) == 0x1B7;
    assert Sum(b, 28, 38) == 0x227;
    assert Sum(b, 27, 38) == 0x227;
    assert Sum(b, 26, 38) == 0x25F;
    assert Sum(b, 25, 38) == 0x297;
    assert Sum(b, 24, 38) == 0x297;
    assert Sum(b, 23, 38) == 0x297;
    assert Sum(b, 22, 38) == 0x2BE;
    assert Sum(b, 21, 38) == 0x398;
    assert Sum(b, 20, 38) == 0x3A9;
  }

  /** Set the power bit; nothing else in the state changes. */
  function SetPower(raw: Raw, on: bool): (r: Raw)
    ensures GetPower(r) == on
    ensures SameExcept(raw, r, PowerField.index) && r[25] / 2 == raw[25] / 2
  {
    Set(raw, PowerField, if on then 1 else 0)
  }

  function On(raw: Raw): (r: Raw)
    ensures GetPower(r)
    ensures SameExcept(raw, r, PowerField.index) && r[25] / 2 == raw[25] / 2
  {
    SetPower(raw, true)
  }

  function Off(raw: Raw): (r: Raw)
    ensures !GetPower(r)
    ensures SameExcept(raw, r, PowerField.index) && r[25] / 2 == raw[25] / 2
  {
    SetPower(raw, false)
  }

  /** Store `desired` clamped to [the current mode's minimum, MaxTemp]. Only
      the six Temp bits change: the half-degree bit, bit 7 and every other
      byte are kept. */
  function SetTemp(raw: Raw, desired: Byte): (r: Raw)
    ensures MinTempFor(GetMode(raw)) <= GetTemp(r) <= MaxTemp
    ensures MinTempFor(GetMode(raw)) <= desired <= MaxTemp ==> GetTemp(r) == desired
    ensures desired < MinTempFor(GetMode(raw)) ==> GetTemp(r) == MinTempFor(GetMode(raw))
    ensures desired > MaxTemp ==> GetTemp(r) == MaxTemp
    ensures SameExcept(raw, r, TempField.index) && r[26] % 2 == raw[26] % 2 && r[26] / 128 == raw[26] / 128
  {
    var floor := if GetMode(raw) == Cool then MinCoolTemp else MinTemp;
    var temp := if floor < desired then desired else floor;
    Set(raw, TempField, if MaxTemp < temp then MaxTemp else temp)
  }

  /** Store `desired` if it is a known mode and Auto otherwise; entering Cool
      re-applies the current temperature so that Cool's higher minimum holds.
      Any other mode leaves the temperature byte alone. */
  function SetMode(raw: Raw, desired: Byte): (r: Raw)
    ensures IsMode(GetMode(r))
    ensures IsMode(desired) ==> GetMode(r) == desired
    ensures !IsMode(desired) ==> GetMode(r) == Auto
    ensures GetMode(r) == Cool ==>
      && MinCoolTemp <= GetTemp(r) <= MaxTemp
      && (MinCoolTemp <= GetTemp(raw) <= MaxTemp ==> GetTemp(r) == GetTemp(raw))
      && (GetTemp(raw) < MinCoolTemp ==> GetTemp(r) == MinCoolTemp)
      && (GetTemp(raw) > MaxTemp ==> GetTemp(r) == MaxTemp)
    ensures GetMode(r) != Cool ==> r[26] == raw[26]
    ensures forall i | 0 <= i < |raw| && i != 25 && i != 26 :: r[i] == raw[i]
    ensures r[25] % 16 == raw[25] % 16 && r[25] / 128 == raw[25] / 128 && r[26] % 2 == raw[26] % 2 && r[26] / 128 == raw[26] / 128
  {
    var mode := if desired == Cool || desired == Heat || desired == Fan || desired == Dry then desired else Auto;
    var r1 := Set(raw, ModeField, mode);
    if mode == Cool then SetTemp(r1, GetTemp(r1)) else r1
  }

  /** Store `desired` if it is a known fan speed and FanAuto otherwise; the
      vertical swing sharing byte 28 is kept. */
  function SetFan(raw: Raw, desired: Byte): (r: Raw)
    ensures IsFan(GetFan(r))
    ensures IsFan(desired) ==> GetFan(r) == desired
    ensures !IsFan(desired) ==> GetFan(r) == FanAuto
    ensures SameExcept(raw, r, FanField.index) && r[28] % 16 == raw[28] % 16
  {
    var fan :=
      if desired == Fan1 || desired == Fan2 || desired == Fan3 || desired == Fan4
         || desired == Fan5 || desired == FanAuto || desired == FanQuiet
      then desired else FanAuto;
    Set(raw, FanField, fan)
  }

  /** Store an on/off vertical swing; any other position is ignored. */
  function SetSwingVertical(raw: Raw, position: Byte): (r: Raw)
    ensures IsSwing(position) ==> GetSwingVertical(r) == position
    ensures IsSwing(position) ==> SameExcept(raw, r, SwingVField.index) && r[28] / 16 == raw[28] / 16
    ensures !IsSwing(position) ==> r == raw
  {
    if position == SwingOn || position == SwingOff then Set(raw, SwingVField, position) else raw
  }

  /** Store an on/off horizontal swing; any other position is ignored. */
  function SetSwingHorizontal(raw: Raw, position: Byte): (r: Raw)
    ensures IsSwing(position) ==> GetSwingHorizontal(r) == position
    ensures IsSwing(position) ==> SameExcept(raw, r, SwingHField.index) && r[29] / 16 == raw[29] / 16
    ensures !IsSwing(position) ==> r == raw
  {
    if position == SwingOn || position == SwingOff then Set(raw, SwingHField, position) else raw
  }

  /** The state after the checksums are refreshed, handed out as a snapshot. */
  function GetRaw(raw: Raw): (r: Raw)
    ensures ChecksumsValid(r)
    ensures forall i | 0 <= i < |raw| && i != Sum1Field.index && i != Sum2Field.index :: r[i] == raw[i]
  {
    Checksum(raw)
  }

  /** Replace the whole state by the first 39 bytes of `code`, unchecked. */
  function SetRaw(code: seq<Byte>): (r: Raw)
    requires |code| >= StateLength as int
    ensures forall i | 0 <= i < |r| :: r[i] == code[i]
  {
    code[..StateLength]
  }

  /** Restoring a buffer and reading it back gives the buffer with both
      checksums recomputed, and exactly the buffer when they were already right. */
  lemma SetRawThenGetRaw(code: seq<Byte>)
    requires |code| >= StateLength as int
    ensures forall i | 0 <= i < 39 && i != 19 && i != 38 :: GetRaw(SetRaw(code))[i] == code[i]
    ensures GetRaw(SetRaw(code))[19] == Sum(code, 0, 19) % 256
    ensures GetRaw(SetRaw(code))[38] == Sum(code, 20, 38) % 256
    ensures ChecksumsValid(code[..39]) ==> GetRaw(SetRaw(code)) == code[..39]
  {
    var r := GetRaw(SetRaw(code));
    SumFrame(r, code, 0, 19);
    SumFrame(r, code, 20, 38);
    ChecksumFixesExactlyValid(code[..39]);
  }

  /** One call of a public setter. */
  datatype Command =
    | PowerTo(on: bool)
    | ModeTo(mode: Byte)
    | TempTo(temp: Byte)
    | FanTo(fan: Byte)
    | SwingVerticalTo(position: Byte)
    | SwingHorizontalTo(position: Byte)

  function Apply(raw: Raw, c: Command): Raw {
    match c
    case PowerTo(on) => SetPower(raw, on)
    case ModeTo(m) => SetMode(raw, m)
    case TempTo(t) => SetTemp(raw, t)
    case FanTo(f) => SetFan(raw, f)
    case SwingVerticalTo(p) => SetSwingVertical(raw, p)
    case SwingHorizontalTo(p) => SetSwingHorizontal(raw, p)
  }

  /** The setter calls of `cs`, in order. */
  function ApplyAll(raw: Raw, cs: seq<Command>): Raw
    decreases |cs|
  {
    if |cs| == 0 then raw else ApplyAll(Apply(raw, cs[0]), cs[1..])
  }

  /** What holds of every state the setters can reach from reset: the bytes
      no setter writes keep their reset values, so do the bits of bytes 25,
      26 and 29 outside the written fields (bit 3 of byte 25 is set at reset,
      the others are clear), every enumerated field holds a listed value and
      the temperature lies in the current mode's range. The checksum bytes
      are not constrained. */
  predicate Consistent(raw: Raw) {
    UnwrittenBytesKept(raw) && PaddingKept(raw) && SettingsValid(raw)
  }

  /** The bytes no setter writes hold their reset values. */
  predicate UnwrittenBytesKept(raw: Raw) {
    forall i | 0 <= i < |raw| && i != 19 && i != 25 && i != 26 && i != 28 && i != 29 && i != 38 ::
      raw[i] == ResetBytes()[i]
  }

  /** The padding bits of bytes 25, 26 and 29 hold their reset values:
      bits 1..3 of byte 25 are 100 in binary, bit 7 of bytes 25 and 26, bit 0
      of byte 26 and the high nibble of byte 29 are clear. */
  predicate PaddingKept(raw: Raw) {
    && (raw[25] / 2) % 8 == 4 && raw[25] < 128
    && raw[26] % 2 == 0 && raw[26] < 128
    && raw[29] < 16
  }

  /** Every enumerated field holds a listed value and the temperature lies
      in the current mode's range. */
  predicate SettingsValid(raw: Raw) {
    && IsMode(GetMode(raw)) && IsFan(GetFan(raw))
    && IsSwing(GetSwingVertical(raw)) && IsSwing(GetSwingHorizontal(raw))
    && MinTempFor(GetMode(raw)) <= GetTemp(raw) <= MaxTemp
  }

  lemma ResetConsistent()
    ensures Consistent(Reset())
  {
    AgreesWithResetBytes(Reset());
  }

  /** A state that matches the reset bytes everywhere but at the checksums is consistent. */
  lemma AgreesWithResetBytes(r: Raw)
    requires forall i | 0 <= i < |r| && i != 19 && i != 38 :: r[i] == ResetBytes()[i]
    ensures Consistent(r)
  {
    var b := ResetBytes();
    assert r[25] == b[25] == 0x38 && r[26] == b[26] == 0x38;
    assert r[28] == b[28] == 0x70 && r[29] == b[29] == 0;
  }

  /** Every setter keeps a consistent state consistent. */
  lemma ApplyKeepsConsistent(raw: Raw, c: Command)
    requires Consistent(raw)
    ensures Consistent(Apply(raw, c))
  {
    match c
    case PowerTo(on) => PowerKeepsConsistent(raw, on);
    case ModeTo(m) => ModeKeepsConsistent(raw, m);
    case TempTo(t) => TempKeepsConsistent(raw, t);
    case FanTo(f) => FanKeepsConsistent(raw, f);
    case SwingVerticalTo(p) => SwingVerticalKeepsConsistent(raw, p);
    case SwingHorizontalTo(p) => SwingHorizontalKeepsConsistent(raw, p);
  }

  lemma PowerKeepsConsistent(raw: Raw, on: bool)
    requires Consistent(raw)
    ensures Consistent(SetPower(raw, on))
  {
    var r := SetPower(raw, on);
    PowerBitOnly(raw[25], r[25]);
    ModeIs(raw);
    ModeIs(r);
  }

  lemma ModeKeepsConsistent(raw: Raw, m: Byte)
    requires Consistent(raw)
    ensures Consistent(SetMode(raw, m))
  {
    ModeKeepsPadding(raw, m);
    ModeKeepsSettingsValid(raw, m);
  }

  lemma ModeKeepsPadding(raw: Raw, m: Byte)
    requires PaddingKept(raw)
    ensures PaddingKept(SetMode(raw, m))
  {
    var r := SetMode(raw, m);
    ModeBitsOnly(raw[25], r[25]);
    TempBitsOnly(raw[26], r[26]);
    assert r[29] == raw[29];
  }

  /** Rewriting bits 1..6 of byte 26 keeps bit 0 and bit 7. */
  lemma TempBitsOnly(a: Byte, b: Byte)
    requires b % 2 == a % 2 && b / 128 == a / 128
    ensures (b % 2 == 0 <==> a % 2 == 0) && (b < 128 <==> a < 128)
  {
  }

  lemma ModeKeepsSettingsValid(raw: Raw, m: Byte)
    requires SettingsValid(raw)
    ensures SettingsValid(SetMode(raw, m))
  {
    var r := SetMode(raw, m);
    if GetMode(r) != Cool {
      assert r[26] == raw[26];
    }
  }

  /** The mode as an arithmetic function of byte 25. */
  lemma ModeIs(raw: Raw)
    ensures GetMode(raw) == (raw[25] / 16) % 8
  {
  }

  /** Rewriting bit 0 of byte 25 keeps the mode bits and the padding bits. */
  lemma PowerBitOnly(a: Byte, b: Byte)
    requires b / 2 == a / 2
    ensures b / 16 == a / 16 && (b / 2) % 8 == (a / 2) % 8 && (b < 128 <==> a < 128)
  {
  }

  /** Rewriting bits 4..6 of byte 25 keeps bits 0..3 and bit 7. */
  lemma ModeBitsOnly(a: Byte, b: Byte)
    requires b % 16 == a % 16 && b / 128 == a / 128
    ensures (b / 2) % 8 == (a / 2) % 8 && (b < 128 <==> a < 128)
  {
    PaddingOfLowNibble(a);
    PaddingOfLowNibble(b);
  }

  /** Bits 1..3 of a byte lie in its low nibble. */
  lemma PaddingOfLowNibble(x: Byte)
    ensures (x / 2) % 8 == (x % 16) / 2
  {
    var q, m := x / 16, x % 16;
    DivModUnique(x, 2, 8 * q + m / 2, m % 2);
    DivModUnique(x / 2, 8, q, m / 2);
  }

  lemma TempKeepsConsistent(raw: Raw, t: Byte)
    requires Consistent(raw)
    ensures Consistent(SetTemp(raw, t))
  {
  }

  lemma FanKeepsConsistent(raw: Raw, f: Byte)
    requires Consistent(raw)
    ensures Consistent(SetFan(raw, f))
  {
    var r := SetFan(raw, f);
    assert UnwrittenBytesKept(r);
    assert PaddingKept(r) by {
      assert r[25] == raw[25] && r[26] == raw[26] && r[29] == raw[29];
    }
    FanKeepsSettingsValid(raw, f);
  }

  lemma FanKeepsSettingsValid(raw: Raw, f: Byte)
    requires SettingsValid(raw)
    ensures SettingsValid(SetFan(raw, f))
  {
    var r := SetFan(raw, f);
    assert r[25] == raw[25] && r[26] == raw[26] && r[29] == raw[29];
    assert GetMode(r) == GetMode(raw) && GetTemp(r) == GetTemp(raw);
    assert GetSwingHorizontal(r) == GetSwingHorizontal(raw);
    LowNibbleOnly(raw[28], r[28]);
  }

  /** Bytes with the same low nibble hold the same 4-bit field at bit 0. */
  lemma LowNibbleOnly(a: Byte, b: Byte)
    requires b % 16 == a % 16
    ensures GetBits(b, 0, 4) == GetBits(a, 0, 4)
  {
    assert Pow2(0) == 1 && Pow2(4) == 16;
  }

  lemma SwingVerticalKeepsConsistent(raw: Raw, p: Byte)
    requires Consistent(raw)
    ensures Consistent(SetSwingVertical(raw, p))
  {
  }

  lemma SwingHorizontalKeepsConsistent(raw: Raw, p: Byte)
    requires Consistent(raw)
    ensures Consistent(SetSwingHorizontal(raw, p))
  {
  }

  lemma {:induction false} ApplyAllKeepsConsistent(raw: Raw, cs: seq<Command>)
    requires Consistent(raw)
    ensures Consistent(ApplyAll(raw, cs))
    decreases |cs|
  {
    if |cs| > 0 {
      ApplyKeepsConsistent(raw, cs[0]);
      ApplyAllKeepsConsistent(Apply(raw, cs[0]), cs[1..]);
    }
  }

  /** After reset and any sequence of setter calls, the buffer `getRaw` hands
      out is consistent and carries valid checksums. */
  lemma ReachableStatesWellFormed(cs: seq<Command>)
    ensures Consistent(GetRaw(ApplyAll(Reset(), cs)))
    ensures ChecksumsValid(GetRaw(ApplyAll(Reset(), cs)))
  {
    ResetConsistent();
    ApplyAllKeepsConsistent(Reset(), cs);
  }
}
