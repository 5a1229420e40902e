/** The byte and bit layout of a Daikin ARC468A3 message: a 39-byte buffer and
    the named bit-fields inside it, allocated least-significant bit first. */
module Daikin468Protocol {
  import opened Daikin468Constants
  import opened BitFields
  import opened Wrappers
  import opened Bytes

  /** The remote's state, exactly `StateLength` bytes. */
  type Raw = s: seq<Byte> | |s| == StateLength as int witness seq(39, _ => 0)

  const Sum1Field := BitField(19, 0, 8)
  const PowerField := BitField(25, 0, 1)
  const ModeField := BitField(25, 4, 3)
  const TempHalfField := BitField(26, 0, 1)
  const TempField := BitField(26, 1, 6)
  const SwingVField := BitField(28, 0, 4)
  const FanField := BitField(28, 4, 4)
  const SwingHField := BitField(29, 0, 4)
  const Sum2Field := BitField(38, 0, 8)

  /** Names of the members of the message's field view; `Pad` is an unnamed bit-field. */
  datatype Name = NA1 | Sum1 | NA2 | PowerBit | ModeBits | TempHalfBit | TempBits | SwingVBits | FanBits | SwingHBits | NA3 | Sum2 | Pad

  /** One member of the field view and its size in bits. */
  datatype Member = Member(name: Name, bits: nat)

  /** The field view in declaration order: byte arrays, whole-byte fields and
      sub-byte bit-fields, each given by its width in bits. */
  const Members: seq<Member> := [
    Member(NA1, 19 * 8), Member(Sum1, 8),
    Member(NA2, 5 * 8),
    Member(PowerBit, 1), Member(Pad, 3), Member(ModeBits, 3), Member(Pad, 1),
    Member(TempHalfBit, 1), Member(TempBits, 6), Member(Pad, 1),
    Member(Pad, 8),
    Member(SwingVBits, 4), Member(FanBits, 4),
    Member(SwingHBits, 4), Member(Pad, 4),
    Member(NA3, 8 * 8), Member(Sum2, 8)
  ]

  /** The bit offset at which member `k` starts: the widths of the members before it. */
  function Offset(k: nat): nat
    requires k <= |Members|
  {
    if k == 0 then 0 else Offset(k - 1) + Members[k - 1].bits
  }

  /** Where the first member called `n` at or after member `k` lands when the
      members are packed least-significant bit first. */
  function Locate(n: Name, k: nat): Option<BitField>
    requires k <= |Members|
    decreases |Members| - k
  {
    if k == |Members| then None
    else if Members[k].name == n then Some(Place(k))
    else Locate(n, k + 1)
  }

  /** The placement of member `j` as a bit-field. */
  function Place(j: nat): BitField
    requires j < |Members|
  {
    var off := Offset(j);
    BitField(off / 8, off % 8, if Members[j].bits < 8 then Members[j].bits else 8)
  }

  /** Searching from member `k` finds the first member called `n`, member `j`. */
  lemma {:induction false} LocateFinds(n: Name, k: nat, j: nat)
    requires k <= j < |Members| && Members[j].name == n
    requires forall i | k <= i < j :: Members[i].name != n
    ensures Locate(n, k) == Some(Place(j))
    decreases j - k
  {
    if k < j {
      LocateFinds(n, k + 1, j);
    }
  }

  /** The bit offset of every member; the last one ends at bit 312 = 39 * 8. */
  lemma Offsets()
    ensures Offset(1) == 152 && Offset(2) == 160 && Offset(3) == 200
    ensures Offset(4) == 201 && Offset(5) == 204 && Offset(6) == 207
    ensures Offset(7) == 208 && Offset(8) == 209 && Offset(9) == 215
    ensures Offset(10) == 216 && Offset(11) == 224 && Offset(12) == 228
    ensures Offset(13) == 232 && Offset(14) == 236 && Offset(15) == 240
    ensures Offset(16) == 304 && Offset(17) == 312 && |Members| == 17
  {
  }

  lemma ChecksumFieldsPlaced()
    ensures Locate(Sum1, 0) == Some(Sum1Field)
    ensures Locate(Sum2, 0) == Some(Sum2Field)
  {
    Offsets();
    LocateFinds(Sum1, 0, 1);
    LocateFinds(Sum2, 0, 16);
  }

  lemma Byte25FieldsPlaced()
    ensures Locate(PowerBit, 0) == Some(PowerField)
    ensures Locate(ModeBits, 0) == Some(ModeField)
  {
    Offsets();
    LocateFinds(PowerBit, 0, 3);
    assert Place(5) == ModeField;
    LocateFinds(ModeBits, 0, 5);
  }

  lemma Byte26FieldsPlaced()
    ensures Locate(TempHalfBit, 0) == Some(TempHalfField)
    ensures Locate(TempBits, 0) == Some(TempField)
  {
    Offsets();
    LocateFinds(TempHalfBit, 0, 7);
    assert Place(8) == TempField;
    LocateFinds(TempBits, 0, 8);
  }

  lemma SwingFanFieldsPlaced()
    ensures Locate(SwingVBits, 0) == Some(SwingVField)
    ensures Locate(FanBits, 0) == Some(FanField)
    ensures Locate(SwingHBits, 0) == Some(SwingHField)
  {
    Offsets();
    LocateFinds(SwingVBits, 0, 11);
    LocateFinds(FanBits, 0, 12);
    LocateFinds(SwingHBits, 0, 13);
  }

  /** The field view covers the 39-byte buffer exactly, and every accessor
      constant names the bits its member occupies under LSB-first allocation. */
  lemma LayoutMatchesFields()
    ensures Offset(|Members|) == 8 * StateLength as int
    ensures Locate(Sum1, 0) == Some(Sum1Field) && Locate(Sum2, 0) == Some(Sum2Field)
    ensures Locate(PowerBit, 0) == Some(PowerField) && Locate(ModeBits, 0) == Some(ModeField)
    ensures Locate(TempHalfBit, 0) == Some(TempHalfField) && Locate(TempBits, 0) == Some(TempField)
    ensures Locate(SwingVBits, 0) == Some(SwingVField) && Locate(FanBits, 0) == Some(FanField)
    ensures Locate(SwingHBits, 0) == Some(SwingHField)
  {
    Offsets();
    ChecksumFieldsPlaced();
    Byte25FieldsPlaced();
    Byte26FieldsPlaced();
    SwingFanFieldsPlaced();
  }

  /** Every enumerated value fits the width of the field it is stored in. */
  lemma ConstantsFitFields()
    ensures forall m: Byte | IsMode(m) :: m < Pow2(ModeField.width)
    ensures forall f: Byte | IsFan(f) :: f < Pow2(FanField.width)
    ensures forall p: Byte | IsSwing(p) :: p < Pow2(SwingVField.width) && p < Pow2(SwingHField.width)
    ensures MaxTemp < Pow2(TempField.width)
  {
  }
}
