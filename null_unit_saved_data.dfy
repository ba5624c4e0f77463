// The store used when no database is configured: every read yields a fresh
// default record and every write is dropped.

module NullSavedData {
  import opened ByteExt
  import opened StatusData
  import UnitValues

  class NullUnitSavedData {
    constructor ()
    {
    }

    /** The indexer getter: the requested address, resistor code 0 and a
        freshly drawn jumper pattern with three to five bits set. */
    method Get(address: byte) returns (r: UnitStatusData)
      ensures r.Address == address && r.Rvalue == 0
      ensures 3 <= PopCount(r.Jvalue) <= 5 && r.Jvalue != 255
    {
      var jvalue := UnitValues.GenerateJumperValue();
      r := UnitStatusData(address, 0, jvalue);
    }

    /** The indexer setter: the record is dropped. The empty frame means no
        later Get can depend on it. */
    method Set(address: byte, value: UnitStatusData)
    {
    }
  }
}
