// The persisted per-unit target: address, resistor byte code, jumper pattern.

module StatusData {
  import opened ByteExt

  /** An immutable (Address, Rvalue, Jvalue) record. */
  datatype UnitStatusData = UnitStatusData(Address: byte, Rvalue: byte, Jvalue: byte)
}
