/** Constants of the Daikin ARC468A3 protocol: operating modes, swing positions,
    temperature limits, fan speeds, frame lengths and the pulse-timing table. */
module Daikin468Constants {
  import opened Bytes

  /** An unsigned 16-bit integer, the C `uint16_t` the timing constants are declared with. */
  newtype uint16 = x: int | 0 <= x < 0x1_0000

  // Operating modes (3-bit Mode field).
  const Auto: Byte := 0
  const Dry: Byte := 2
  const Cool: Byte := 3
  const Fan: Byte := 6
  const Heat: Byte := 4

  // Swing positions (4-bit SwingV / SwingH fields).
  const SwingOn: Byte := 0xF
  const SwingOff: Byte := 0x0

  // Temperature limits in degrees Celsius.
  const MinTemp: Byte := 10
  const MaxTemp: Byte := 32
  const MinCoolTemp: Byte := 18

  // Fan speeds (4-bit Fan field).
  const Fan1: Byte := 3
  const Fan2: Byte := 4
  const Fan3: Byte := 5
  const Fan4: Byte := 6
  const Fan5: Byte := 7
  const FanAuto: Byte := 0xA
  const FanQuiet: Byte := 0xB

  // Frame geometry.
  const StateLength: uint16 := 39
  const Section1Length: uint16 := 20
  const Section2Length: uint16 := 19
  const DefaultRepeat: uint16 := 0

  // Pulse timing, in microseconds, and the carrier frequency in Hz.
  const Freq: uint16 := 36700
  const LeaderMark: uint16 := 10024
  const LeaderSpace: uint16 := 25180
  /** The inter-section gap is the sum of the leader mark and space; the
      conversion back to `uint16` is checked, so the sum provably does not wrap. */
  const Gap: uint16 := (LeaderMark as int + LeaderSpace as int) as uint16
  const HdrMark: uint16 := 3500
  const HdrSpace: uint16 := 1728
  const BitMark: uint16 := 460
  const OneSpace: uint16 := 1270
  const ZeroSpace: uint16 := 420
  /** Extra matching tolerance in percent; only a receiver would use it. */
  const Tolerance: Byte := 5
  const LeaderLength: Byte := 10
  const Leader: seq<uint16> := [1260, 420, 420, 420, 420, 420, 420, 420, 420, 25300]

  predicate IsMode(m: Byte) {
    m == Auto || m == Dry || m == Cool || m == Fan || m == Heat
  }

  predicate IsFan(f: Byte) {
    f == Fan1 || f == Fan2 || f == Fan3 || f == Fan4 || f == Fan5 || f == FanAuto || f == FanQuiet
  }

  predicate IsSwing(p: Byte) {
    p == SwingOn || p == SwingOff
  }

  /** The lowest temperature the remote accepts in mode `m`. */
  function MinTempFor(m: Byte): (t: Byte)
    ensures MinTemp <= t <= MinCoolTemp
    ensures m == Cool ==> t == MinCoolTemp
    ensures m != Cool ==> t == MinTemp
  {
    if m == Cool then MinCoolTemp else MinTemp
  }

  /** The two sections together make up the whole state, the gap is the
      leader mark plus space without 16-bit overflow, and the leader table has
      exactly `LeaderLength` entries. */
  lemma GeometryConsistent()
    ensures Section1Length as int + Section2Length as int == StateLength as int
    ensures Gap as int == 35204 && LeaderMark as int + LeaderSpace as int < 0x1_0000
    ensures |Leader| == LeaderLength as int
  {
  }

  /** The clamping interval is non-empty whatever the mode. */
  lemma ClampIntervalNonEmpty(m: Byte)
    ensures MinTemp <= MinTempFor(m) <= MaxTemp
  {
  }
}
