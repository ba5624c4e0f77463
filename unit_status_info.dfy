// The status byte a unit reports in its Set echo, with its three flag bits:
// bit 5 clear = resistor OK, bit 6 clear = jumpers OK, bit 7 set = the unit
// asks for fresh target data.

module UnitStatus {
  import opened ByteExt

  /** The resistor flag of a status byte: OK when the value-32 bit is clear. */
  predicate ResistorOk(status: byte)
  {
    status & 32 == 0
  }

  /** The jumper flag of a status byte: OK when the value-64 bit is clear. */
  predicate JumpersOk(status: byte)
  {
    status & 64 == 0
  }

  /** The data-request flag of a status byte: set when the value-128 bit is set. */
  predicate RequiresData(status: byte)
  {
    status & 128 == 128
  }

  /** The three flags are bits 5, 6 and 7 (bit 0 least significant). */
  lemma FlagBits(status: byte)
    ensures ResistorOk(status) <==> !HasBit(status, 5)
    ensures JumpersOk(status) <==> !HasBit(status, 6)
    ensures RequiresData(status) <==> HasBit(status, 7)
  {
  }

  /** The status byte with bit 7 replaced by `value`. */
  function WithRequireData(status: byte, value: bool): byte
  {
    (status & 0x7F) | (if value then 128 else 0)
  }

  /** Rewriting bit 7 sets the data-request flag to `value` and keeps bits 0-6,
      so both status flags are kept. */
  lemma WithRequireDataBits(status: byte, value: bool)
    ensures var s := WithRequireData(status, value);
      && RequiresData(s) == value
      && ResistorOk(s) == ResistorOk(status) && JumpersOk(s) == JumpersOk(status)
      && forall n :: 0 <= n < 7 ==> HasBit(s, n) == HasBit(status, n)
  {
    var s := WithRequireData(status, value);
    assert HasBit(s, 0) == HasBit(status, 0) && HasBit(s, 1) == HasBit(status, 1);
    assert HasBit(s, 2) == HasBit(status, 2) && HasBit(s, 3) == HasBit(status, 3);
    assert HasBit(s, 4) == HasBit(status, 4) && HasBit(s, 5) == HasBit(status, 5);
    assert HasBit(s, 6) == HasBit(status, 6);
  }

  /** Setting the flag twice to the same value is the same as setting it once. */
  lemma WithRequireDataIdempotent(status: byte, value: bool)
    ensures WithRequireData(WithRequireData(status, value), value) == WithRequireData(status, value)
  {
  }

  /** Setting the flag to what it already is leaves the byte unchanged. */
  lemma WithRequireDataNoOp(status: byte)
    ensures WithRequireData(status, RequiresData(status)) == status
  {
  }

  class UnitStatusInfo {
    var Status: byte
    const JumperValue: byte
    const ResistorValue: byte

    constructor (status: byte, jumperValue: byte, resistorValue: byte)
      ensures Status == status && JumperValue == jumperValue && ResistorValue == resistorValue
    {
      Status := status;
      JumperValue := jumperValue;
      ResistorValue := resistorValue;
    }

    function ResistorStatus(): bool
      reads this
    {
      ResistorOk(Status)
    }

    function JumpersStatus(): bool
      reads this
    {
      JumpersOk(Status)
    }

    function RequireData(): bool
      reads this
    {
      RequiresData(Status)
    }

    /** The RequireData setter: rewrites bit 7 in place; the reported resistor
        and jumper flags stay as they were. */
    method SetRequireData(value: bool)
      modifies this`Status
      ensures Status == WithRequireData(old(Status), value)
      ensures RequireData() == value
      ensures ResistorStatus() == old(ResistorStatus()) && JumpersStatus() == old(JumpersStatus())
    {
      WithRequireDataBits(Status, value);
      Status := WithRequireData(Status, value);
    }
  }
}
