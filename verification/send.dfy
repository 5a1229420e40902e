/** Transmission of the state: the calls the remote makes on its IR sender,
    recorded as a trace of events rather than performed. */
module Daikin468Send {
  import opened Daikin468Constants
  import opened Wrappers
  import opened Daikin468Protocol
  import opened Daikin468Checksum
  import opened Bytes

  /** One call on the IR sender. `SendRaw` plays a table of mark/space
      durations; `SendGeneric` sends a header, `nbytes` bytes of `data` with
      the given bit timings, a footer mark and a gap. */
  datatype Event =
    | SendRaw(timings: seq<uint16>, length: Byte, freq: uint16)
    | SendGeneric(headerMark: uint16, headerSpace: uint16,
                  oneMark: uint16, oneSpace: uint16,
                  zeroMark: uint16, zeroSpace: uint16,
                  footerMark: uint16, gap: uint16,
                  data: seq<Byte>, nbytes: uint16, freq: uint16,
                  msbFirst: bool, repeat: uint16, dutyCycle: Byte)

  /** The leader: the fixed ten-entry timing table at the remote's carrier. */
  const LeaderEvent: Event := SendRaw(Leader, LeaderLength, Freq)

  /** A data section as the remote sends it: LSB first, no repeat, 50% duty. */
  function Section(data: seq<Byte>, nbytes: uint16): Event {
    SendGeneric(HdrMark, HdrSpace, BitMark, OneSpace, BitMark, ZeroSpace,
                BitMark, Gap, data, nbytes, Freq, false, 0, 50)
  }

  /** One transmission of state `st`: the leader, then section 1 (bytes 0..19)
      and section 2 (bytes 20..38). */
  function Frame(st: Raw): (f: seq<Event>)
    ensures |f| == 3
  {
    [LeaderEvent,
     Section(st[..Section1Length], Section1Length),
     Section(st[Section1Length..], Section2Length)]
  }

  /** `n` back-to-back transmissions of `st`. */
  function Frames(st: Raw, n: nat): (t: seq<Event>)
    ensures |t| == 3 * n
    ensures forall k | 0 <= k < n :: t[3 * k..3 * k + 3] == Frame(st)
  {
    if n == 0 then []
    else
      var rest := Frames(st, n - 1);
      FramesStep(st, n, rest);
      Frame(st) + rest
  }

  lemma FramesStep(st: Raw, n: nat, rest: seq<Event>)
    requires n > 0 && |rest| == 3 * (n - 1)
    requires forall k | 0 <= k < n - 1 :: rest[3 * k..3 * k + 3] == Frame(st)
    ensures forall k | 0 <= k < n :: (Frame(st) + rest)[3 * k..3 * k + 3] == Frame(st)
  {
    var t := Frame(st) + rest;
    forall k | 0 <= k < n
      ensures t[3 * k..3 * k + 3] == Frame(st)
    {
      if k > 0 {
        assert t[3 * k..3 * k + 3] == rest[3 * (k - 1)..3 * (k - 1) + 3];
      }
    }
  }

  /** Appending one more transmission at the end gives the next count. */
  lemma {:induction false} FramesSnoc(st: Raw, n: nat)
    ensures Frames(st, n + 1) == Frames(st, n) + Frame(st)
  {
    if n > 0 {
      FramesSnoc(st, n - 1);
    }
  }

  /** Every section event carries exactly as many bytes as it announces, and
      the two sections together carry the whole state in order. */
  lemma FrameCarriesState(st: Raw)
    ensures Frame(st)[0] == LeaderEvent && |Leader| == LeaderLength as int
    ensures Frame(st)[1].SendGeneric? && Frame(st)[2].SendGeneric?
    ensures |Frame(st)[1].data| == Frame(st)[1].nbytes as int
    ensures |Frame(st)[2].data| == Frame(st)[2].nbytes as int
    ensures Frame(st)[1].data + Frame(st)[2].data == st
  {
    assert st[..20] + st[20..] == st;
  }

  /** The sum of a window of a suffix is the sum of the shifted window. */
  lemma {:induction false} SumShift(s: seq<Byte>, off: nat, lo: nat, hi: nat)
    requires off <= |s| && lo <= hi <= |s| - off
    ensures Sum(s[off..], lo, hi) == Sum(s, off + lo, off + hi)
    decreases hi - lo
  {
    if lo < hi {
      SumShift(s, off, lo + 1, hi);
    }
  }

  /** Once checksummed, each section ends in the sum modulo 256 of its other
      bytes, so a receiver can check each section on its own. */
  lemma SectionsSelfChecking(raw: Raw)
    ensures var f := Frame(Checksum(raw));
      && f[1].data[19] == Sum(f[1].data, 0, 19) % 256
      && f[2].data[18] == Sum(f[2].data, 0, 18) % 256
  {
    ValidSectionsSelfChecking(Checksum(raw));
  }

  /** The same for any state whose checksum equations hold. */
  lemma ValidSectionsSelfChecking(st: Raw)
    requires ChecksumsValid(st)
    ensures var f := Frame(st);
      && f[1].data[19] == Sum(f[1].data, 0, 19) % 256
      && f[2].data[18] == Sum(f[2].data, 0, 18) % 256
  {
    SumFrame(st[..20], st, 0, 19);
    SumShift(st, 20, 0, 18);
  }

  /** The loop counter of the remote's repeat loop: a `uint16_t` whose
      increment wraps from 65535 to 0. */
  function Inc16(r: uint16): (n: uint16)
    ensures r as int < 0xFFFF ==> n as int == r as int + 1
    ensures r as int == 0xFFFF ==> n == 0
  {
    ((r as int + 1) % 0x1_0000) as uint16
  }

  /** The rounds left from counter `r` when the counter cannot wrap. */
  function RoundsLeft(repeat: uint16, r: uint16): nat {
    if r > repeat then 0 else repeat as int + 1 - r as int
  }

  /** The repeat loop as written: transmit while `r <= repeat`, bumping the
      16-bit counter each time. `fuel` bounds the number of iterations
      examined; None means the loop had not finished within `fuel` rounds.
      Whenever it finishes, `repeat` is below 65535 and the trace is one frame
      per remaining round. */
  function SendLoop(st: Raw, repeat: uint16, r: uint16, fuel: nat): (o: Option<seq<Event>>)
    ensures o.Some? ==> repeat as int < 0xFFFF && o.value == Frames(st, RoundsLeft(repeat, r))
    decreases fuel
  {
    if r > repeat then Some([])
    else if fuel == 0 then None
    else match SendLoop(st, repeat, Inc16(r), fuel - 1)
      case Some(rest) => Some(Frame(st) + rest)
      case None => None
  }

  /** `send(repeat)` as written: refresh the checksums, then run the loop from 0. */
  function SendAsWritten(raw: Raw, repeat: uint16, fuel: nat): (o: Option<seq<Event>>)
    ensures o.Some? ==> repeat as int < 0xFFFF && o.value == Frames(Checksum(raw), repeat as int + 1)
  {
    SendLoop(Checksum(raw), repeat, 0, fuel)
  }

  lemma {:induction false} SendLoopFinishes(st: Raw, repeat: uint16, r: uint16, fuel: nat)
    requires repeat as int < 0xFFFF && r as int <= repeat as int + 1
    requires fuel >= repeat as int + 1 - r as int
    ensures SendLoop(st, repeat, r, fuel) == Some(Frames(st, repeat as int + 1 - r as int))
    decreases fuel
  {
    if r <= repeat {
      SendLoopFinishes(st, repeat, Inc16(r), fuel - 1);
    }
  }

  /** Below the top of the counter's range, the loop as written sends the
      checksummed state `repeat + 1` times and stops after that many rounds. */
  lemma SendAsWrittenFinishes(raw: Raw, repeat: uint16, fuel: nat)
    requires repeat as int < 0xFFFF && fuel >= repeat as int + 1
    ensures SendAsWritten(raw, repeat, fuel) == Some(Frames(Checksum(raw), repeat as int + 1))
  {
    SendLoopFinishes(Checksum(raw), repeat, 0, fuel);
  }

  lemma {:induction false} SendLoopDiverges(st: Raw, r: uint16, fuel: nat)
    ensures SendLoop(st, 0xFFFF, r, fuel) == None
    decreases fuel
  {
    if fuel > 0 {
      SendLoopDiverges(st, Inc16(r), fuel - 1);
    }
  }

  /** With `repeat == 65535` the condition `r <= repeat` holds for every
      16-bit `r`, so the loop as written never stops, however many rounds are
      allowed. */
  lemma SendAsWrittenDiverges(raw: Raw, fuel: nat)
    ensures SendAsWritten(raw, 0xFFFF, fuel) == None
  {
    SendLoopDiverges(Checksum(raw), 0, fuel);
  }

  /** The corrected `send(repeat)`: the checksummed state is sent
      `repeat + 1` times for every 16-bit `repeat`. The counter is an
      unbounded integer, so it cannot wrap. */
  method Send(raw: Raw, repeat: uint16 := DefaultRepeat) returns (trace: seq<Event>)
    ensures trace == Frames(Checksum(raw), repeat as int + 1)
    ensures |trace| == 3 * (repeat as int + 1)
    ensures forall k | 0 <= k <= repeat as int :: trace[3 * k..3 * k + 3] == Frame(Checksum(raw))
  {
    trace := SendFrames(Checksum(raw), repeat);
  }

  /** The transmit loop of the corrected `send`, on an already checksummed
      state: one frame per round, `repeat + 1` rounds. */
  method SendFrames(st: Raw, repeat: uint16) returns (trace: seq<Event>)
    ensures trace == Frames(st, repeat as int + 1)
  {
    trace := [];
    var r: nat := 0;
    while r <= repeat as int
      invariant r <= repeat as int + 1
      invariant trace == Frames(st, r)
    {
      FramesSnoc(st, r);
      trace := trace + Frame(st);
      r := r + 1;
    }
  }
}
