/** Bit-fields inside a byte buffer, allocated least-significant bit first.
    A field is a run of `width` bits starting at bit `shift` of byte `index`;
    with bytes as integers, its value is the middle digit of the byte in the
    mixed base (2^shift, 2^width, the rest). */
module BitFields {
  import opened Bytes

  datatype BitField = BitField(index: nat, shift: nat, width: nat) {
    /** The field lies inside one byte of a buffer of `size` bytes. */
    predicate Fits(size: nat) {
      index < size && 1 <= width && shift + width <= 8
    }
  }

  /** The `w` bits of byte `b` starting at bit `s`: `(b >> s) & ((1 << w) - 1)`. */
  function GetBits(b: Byte, s: nat, w: nat): (v: nat)
    requires 1 <= w && s + w <= 8
    ensures v < Pow2(w)
  {
    (b / Pow2(s)) % Pow2(w)
  }

  /** Byte `b` with its `w` bits at `s` replaced by the low `w` bits of `v`.
      The bits below `s` and the bits from `s + w` up are those of `b`. */
  function SetBits(b: Byte, s: nat, w: nat, v: nat): (c: Byte)
    requires 1 <= w && s + w <= 8
    ensures GetBits(c, s, w) == v % Pow2(w)
    ensures v < Pow2(w) ==> GetBits(c, s, w) == v
    ensures c % Pow2(s) == b % Pow2(s)
    ensures c / Pow2(s + w) == b / Pow2(s + w)
  {
    var c := b % Pow2(s) + (v % Pow2(w)) * Pow2(s) + (b / Pow2(s + w)) * Pow2(s + w);
    SetBitsFacts(b, s, w, v, c);
    ModSmall(v, Pow2(w));
    c
  }

  lemma SetBitsFacts(b: Byte, s: nat, w: nat, v: nat, c: int)
    requires 1 <= w && s + w <= 8
    requires c == b % Pow2(s) + (v % Pow2(w)) * Pow2(s) + (b / Pow2(s + w)) * Pow2(s + w)
    ensures 0 <= c < 256
    ensures c % Pow2(s) == b % Pow2(s)
    ensures (c / Pow2(s)) % Pow2(w) == v % Pow2(w)
    ensures c / Pow2(s + w) == b / Pow2(s + w)
  {
    Pow2Add(s, w);
    Pow2Add(s + w, 8 - s - w);
    assert Pow2(8) == 256;
    ReplaceDigit(b, v, Pow2(s), Pow2(w), Pow2(8 - s - w), c);
  }

  /** A byte is determined by its bits below `s`, its `w` bits at `s` and its
      bits from `s + w` up: two bytes agreeing on all three are equal. */
  lemma BitsDetermine(b: Byte, c: Byte, s: nat, w: nat)
    requires 1 <= w && s + w <= 8
    requires c % Pow2(s) == b % Pow2(s)
    requires GetBits(c, s, w) == GetBits(b, s, w)
    requires c / Pow2(s + w) == b / Pow2(s + w)
    ensures c == b
  {
    Pow2Add(s, w);
    Decompose(b, Pow2(s), Pow2(w));
    Decompose(c, Pow2(s), Pow2(w));
  }

  /** Read field `f` of `buf`; the value always fits the field's width. */
  function Get(buf: seq<Byte>, f: BitField): (v: nat)
    requires f.Fits(|buf|)
    ensures v < Pow2(f.width)
  {
    GetBits(buf[f.index], f.shift, f.width)
  }

  /** Write `v`, truncated to the field's width as a C bit-field assignment
      does, into field `f` of `buf`. Every other bit of the buffer is kept. */
  function Set(buf: seq<Byte>, f: BitField, v: nat): (r: seq<Byte>)
    requires f.Fits(|buf|)
    ensures |r| == |buf|
    ensures Get(r, f) == v % Pow2(f.width)
    ensures v < Pow2(f.width) ==> Get(r, f) == v
    ensures r[f.index] % Pow2(f.shift) == buf[f.index] % Pow2(f.shift)
    ensures r[f.index] / Pow2(f.shift + f.width) == buf[f.index] / Pow2(f.shift + f.width)
    ensures forall i | 0 <= i < |buf| && i != f.index :: r[i] == buf[i]
  {
    buf[f.index := SetBits(buf[f.index], f.shift, f.width, v)]
  }

  /** Writing the value a field already holds changes nothing. */
  lemma SetGetIdentity(buf: seq<Byte>, f: BitField)
    requires f.Fits(|buf|)
    ensures Set(buf, f, Get(buf, f)) == buf
  {
    var v := Get(buf, f);
    var r := Set(buf, f, v);
    BitsDetermine(buf[f.index], r[f.index], f.shift, f.width);
  }

  /** A second write to a field replaces the first completely. */
  lemma SetSetLast(buf: seq<Byte>, f: BitField, v: nat, w: nat)
    requires f.Fits(|buf|)
    ensures Set(Set(buf, f, v), f, w) == Set(buf, f, w)
  {
    var a, b := Set(Set(buf, f, v), f, w), Set(buf, f, w);
    BitsDetermine(a[f.index], b[f.index], f.shift, f.width);
  }
}
