// The bus: each unit's state machine and the coordinator that owns the serial
// line. The two classes refer to each other, so they share one module.
//
// The serial port is an object holding an outbox (the byte arrays written, in
// order) and a flag telling whether earlier output is still waiting to go out. Clock
// readings arrive as a `now` parameter in 100 ns ticks, with 0 for "never".

module Bus {
  import opened ByteExt
  import opened Optional
  import opened StatusData
  import opened UnitStatus
  import opened Codec
  import opened UnitValues
  import SavedData
  import NullSavedData

  /** The saved-data store a connector is configured with: the database-backed
      cache, or the null store. */
  datatype SavedDataStore =
    | Db(db: SavedData.UnitSavedData)
    | NoDb(none: NullSavedData.NullUnitSavedData)
  {
    /** The objects a write to the store may change. */
    function Footprint(): set<object>
    {
      match this
      case Db(d) => {d}
      case NoDb(_) => {}
    }

    /** The database's fields as values; the null store has none. */
    function State(): Option<StoreState>
      reads Footprint()
    {
      match this
      case Db(d) => Some(StoreState(d.Units, d.Dirty, d.Saved, d.WorkerAlive))
      case NoDb(_) => None
    }
  }

  /** The fields of the database-backed store, as values. */
  datatype StoreState = StoreState(units: SavedData.Cache, dirty: seq<byte>, saved: seq<UnitStatusData>, workerAlive: bool)

  /** Index of the first unit that has pending work, or |us| when none has. */
  function FirstDirty(us: seq<Unit>): (i: nat)
    reads us
    ensures i <= |us|
    ensures i < |us| ==> us[i].Dirty()
    ensures forall j :: 0 <= j < i ==> !us[j].Dirty()
  {
    if us == [] then 0 else if us[0].Dirty() then 0 else 1 + FirstDirty(us[1..])
  }

  /** Index of the first unit with the given address, or |us| when none has it. */
  function FindUnit(us: seq<Unit>, address: byte): (i: nat)
    ensures i <= |us|
    ensures i < |us| ==> us[i].Address == address
    ensures forall j :: 0 <= j < i ==> us[j].Address != address
  {
    if us == [] then 0 else if us[0].Address == address then 0 else 1 + FindUnit(us[1..], address)
  }

  /** Index of the first occurrence of `u`, or |us| when there is none. */
  function IndexOf(us: seq<Unit>, u: Unit): (i: nat)
    ensures i <= |us|
    ensures i < |us| ==> us[i] == u
    ensures u !in us[..i]
  {
    if us == [] then 0
    else if us[0] == u then 0
    else
      var j := IndexOf(us[1..], u);
      assert us[..1 + j] == [us[0]] + us[1..][..j];
      1 + j
  }

  /** The list with its first occurrence of `u` removed. */
  function RemoveFirst(us: seq<Unit>, u: Unit): (r: seq<Unit>)
    ensures multiset(r) == multiset(us) - multiset{u}
  {
    if us == [] then []
    else
      assert us == [us[0]] + us[1..];
      if us[0] == u then us[1..] else [us[0]] + RemoveFirst(us[1..], u)
  }

  /** RemoveFirst splices out exactly the first occurrence: the units before
      it and after it keep their order. */
  lemma {:induction false} RemoveFirstSplices(us: seq<Unit>, u: Unit)
    ensures var i := IndexOf(us, u);
      RemoveFirst(us, u) == if i < |us| then us[..i] + us[i + 1..] else us
  {
    if us != [] && us[0] != u {
      var tail := us[1..];
      assert us == [us[0]] + tail;
      RemoveFirstSplices(tail, u);
      var j := IndexOf(tail, u);
      if j < |tail| {
        SpliceCons(us[0], tail, j);
      }
    }
  }

  /** Splicing out an element behind a new head. */
  lemma SpliceCons(x: Unit, tail: seq<Unit>, j: nat)
    requires j < |tail|
    ensures [x] + (tail[..j] + tail[j + 1..]) == ([x] + tail)[..1 + j] + ([x] + tail)[1 + j + 1..]
  {
    assert ([x] + tail)[..1 + j] == [x] + tail[..j];
    assert ([x] + tail)[1 + j + 1..] == tail[j + 1..];
  }

  /** A list without `u` is left unchanged by RemoveFirst. */
  lemma RemoveFirstAbsent(us: seq<Unit>, u: Unit)
    requires u !in us
    ensures RemoveFirst(us, u) == us
  {
    RemoveFirstSplices(us, u);
  }

  /** Registering a unit that was not registered and removing it again gives
      back the original list. */
  lemma {:induction false} RegisterThenUnregister(us: seq<Unit>, u: Unit)
    requires u !in us
    ensures RemoveFirst(us + [u], u) == us
    decreases |us|
  {
    if us != [] {
      assert (us + [u])[1..] == us[1..] + [u];
      RegisterThenUnregister(us[1..], u);
    }
  }

  /** Removing one occurrence leaves every other unit registered. */
  lemma RemoveFirstKeepsOthers(us: seq<Unit>, u: Unit, v: Unit)
    requires v != u
    ensures v in RemoveFirst(us, u) <==> v in us
  {
    assert v in multiset(RemoveFirst(us, u)) <==> v in multiset(us);
  }

  /** The jumper display: the reported pattern, a slash, the required pattern,
      each as eight binary digits with bit 0 first. */
  function JumperText(measured: byte, required: byte): string
  {
    BinString(measured) + "/" + BinString(required)
  }

  /** The display reads back both patterns bit by bit. */
  lemma JumperTextDigits(measured: byte, required: byte)
    ensures var s := JumperText(measured, required);
      && |s| == 17 && s[8] == '/'
      && (forall i :: 0 <= i < 8 ==> (s[i] == '1' <==> HasBit(measured, i)))
      && (forall i :: 0 <= i < 8 ==> (s[9 + i] == '1' <==> HasBit(required, i)))
  {
    var s := JumperText(measured, required);
    assert forall i :: 0 <= i < 8 ==> s[i] == BinString(measured)[i];
    assert forall i :: 0 <= i < 8 ==> s[9 + i] == BinString(required)[i];
  }

  method FormatJumpers(measured: byte, required: byte) returns (s: string)
    ensures s == JumperText(measured, required)
  {
    var m := ToBinString(measured);
    var r := ToBinString(required);
    s := m + "/" + r;
  }

  /** Some pending item is waiting for the next poll tick. */
  predicate HasPending(reqData: bool, jumperBreak: bool, resistorBreak: bool, restore: Option<nat>)
  {
    reqData || jumperBreak || resistorBreak || restore.Some?
  }

  /** Online: heard from, and less than two seconds ago. */
  predicate Online(haveConnection: bool, lastUpdated: int, now: int)
  {
    haveConnection && now - lastUpdated < DelayUntilReset
  }

  /** The restore queue after a Set echo: the measured resistance when
      auto-restore is on and the self-heal test passes, otherwise as it was. */
  function QueuedRestore(autoRestore: bool, measured: byte, requiredOms: nat, threshold: int,
                         queued: Option<nat>): Option<nat>
  {
    if autoRestore && ShouldBeRestoredForMetro(measured, requiredOms, threshold) then Some(GetOms(measured))
    else queued
  }

  /** The values of a status record. */
  datatype StatusValues = StatusValues(status: byte, jumperValue: byte, resistorValue: byte)

  /** The fields of a unit itself, as values: the connection, the pending
      work, the targets and the displays. The status record the unit points
      to is described separately, by StatusValues. */
  datatype UnitState = UnitState(
    lastUpdated: int,
    haveConnection: bool,
    reqData: bool,
    jumperBreakPending: bool,
    resistorBreakPending: bool,
    jumperSettingValue: Option<byte>,
    metroModeRestore: Option<nat>,
    requiredJumper: byte,
    requiredResistorInOms: nat,
    jumpersStatus: Option<bool>,
    resistorStatus: Option<bool>,
    jumperValueString: string)
  {
    predicate Pending()
    {
      HasPending(reqData, jumperBreakPending, resistorBreakPending, metroModeRestore)
    }
  }

  /** The data-request flag and bit 7 of the recorded status move together,
      and the two reported statuses are those of the recorded status byte. */
  predicate Coherent(s: UnitState, record: Option<StatusValues>)
  {
    && (s.reqData ==> record.Some?)
    && (record.Some? ==>
          && RequiresData(record.value.status) == s.reqData
          && s.jumpersStatus == Some(JumpersOk(record.value.status))
          && s.resistorStatus == Some(ResistorOk(record.value.status)))
  }

  /** What a received frame does to the unit it came from. An Ack marks the
      unit as heard from. A Set echo takes over the echo's data request, reads
      its two status flags, redraws the jumper display, queues the measured
      resistance as the new target when auto-restore applies, and marks the
      unit as heard from. A NAck, a Get and a code outside the enumeration
      change nothing. */
  function AfterFrame(c: Command, s: UnitState, now: int, autoRestore: bool, threshold: int): UnitState
  {
    if c.cmd == AckCode then
      s.(lastUpdated := now, haveConnection := true)
    else if c.cmd == SetCode then
      AfterSet(s, StatusValues(c.status, c.digit, c.analog), now, autoRestore, threshold)
    else
      s
  }

  /** The status record a unit holds after a frame: a Set echo installs the
      echo's record with bit 7 rewritten to the combined data request; any
      other frame keeps the record. */
  function RecordAfterFrame(c: Command, s: UnitState, record: Option<StatusValues>): Option<StatusValues>
  {
    if c.cmd == SetCode then Some(RecordedStatus(s, StatusValues(c.status, c.digit, c.analog)))
    else record
  }

  /** What a Set echo carrying the status record `info` does to a unit. */
  function AfterSet(s: UnitState, info: StatusValues, now: int, autoRestore: bool, threshold: int): UnitState
  {
    s.(reqData := s.reqData || RequiresData(info.status),
       jumpersStatus := Some(JumpersOk(info.status)),
       resistorStatus := Some(ResistorOk(info.status)),
       jumperValueString := JumperText(info.jumperValue, s.requiredJumper),
       metroModeRestore :=
         QueuedRestore(autoRestore, info.resistorValue, s.requiredResistorInOms, threshold, s.metroModeRestore),
       lastUpdated := now,
       haveConnection := true)
  }

  /** The record a Set echo installs: bit 7 becomes the combined data request. */
  function RecordedStatus(s: UnitState, info: StatusValues): StatusValues
  {
    info.(status := WithRequireData(info.status, s.reqData || RequiresData(info.status)))
  }

  /** No frame changes a unit's targets or its pending breaks. */
  lemma AfterFrameKeepsTargets(c: Command, s: UnitState, now: int, autoRestore: bool, threshold: int)
    ensures var t := AfterFrame(c, s, now, autoRestore, threshold);
      && t.requiredJumper == s.requiredJumper && t.requiredResistorInOms == s.requiredResistorInOms
      && t.jumperBreakPending == s.jumperBreakPending && t.resistorBreakPending == s.resistorBreakPending
      && t.jumperSettingValue == s.jumperSettingValue
  {
  }

  /** A Set echo leaves the unit coherent whatever its state before: bit 7
      of the record it installs is the combined data request, and the two
      status flags it reads are those of that record. */
  lemma AfterSetCoherent(s: UnitState, v: StatusValues, now: int, autoRestore: bool, threshold: int)
    ensures Coherent(AfterSet(s, v, now, autoRestore, threshold), Some(RecordedStatus(s, v)))
  {
    var req := s.reqData || RequiresData(v.status);
    WithRequireDataBits(v.status, req);
  }

  /** Every frame keeps the data-request flag, bit 7 of the recorded status
      and the reported statuses in step. */
  lemma AfterFrameCoherent(c: Command, s: UnitState, record: Option<StatusValues>,
                           now: int, autoRestore: bool, threshold: int)
    requires Coherent(s, record)
    ensures Coherent(AfterFrame(c, s, now, autoRestore, threshold), RecordAfterFrame(c, s, record))
  {
    if c.cmd == SetCode {
      AfterSetCoherent(s, StatusValues(c.status, c.digit, c.analog), now, autoRestore, threshold);
    }
  }

  /** A Set echo leaves work pending exactly when work was pending before, the
      unit asked for data, or a restore was queued; no other frame changes
      whether work is pending. */
  lemma AfterFramePending(c: Command, s: UnitState, now: int, autoRestore: bool, threshold: int)
    ensures c.cmd == SetCode ==>
      (AfterFrame(c, s, now, autoRestore, threshold).Pending() <==>
         s.Pending() || RequiresData(c.status)
         || (autoRestore && ShouldBeRestoredForMetro(c.analog, s.requiredResistorInOms, threshold)))
    ensures c.cmd != SetCode ==> (AfterFrame(c, s, now, autoRestore, threshold).Pending() <==> s.Pending())
  {
  }

  /** After an Ack or a Set echo, the unit is online for the next two seconds;
      any other frame leaves the connection as it was. */
  lemma AfterFrameOnline(c: Command, s: UnitState, now: int, autoRestore: bool, threshold: int)
    ensures var t := AfterFrame(c, s, now, autoRestore, threshold);
      && (c.cmd == AckCode || c.cmd == SetCode ==>
            forall time :: now <= time < now + DelayUntilReset ==> Online(t.haveConnection, t.lastUpdated, time))
      && (c.cmd != AckCode && c.cmd != SetCode ==> t.lastUpdated == s.lastUpdated && t.haveConnection == s.haveConnection)
  {
  }

  /** What dispatching a received frame did to the unit it was routed to,
      given the unit's fields and status record before the dispatch. Only the
      fields named under the frame's kind change: an Ack marks the unit as
      heard from; a Set echo installs a new status record and updates the
      data request, the two status flags, the jumper display and the restore
      queue, and marks the unit as heard from; any other frame changes
      nothing. Targets and pending breaks never change. */
  predicate FrameApplied(c: Command, u: Unit, before: UnitState, beforeRecord: Option<StatusValues>, now: int)
    reads u, u.StatusInfo
  {
    && u.Valid()
    && u.RequiredJumper == before.requiredJumper && u.RequiredResistorInOms == before.requiredResistorInOms
    && u.JumperBreakPending == before.jumperBreakPending && u.ResistorBreakPending == before.resistorBreakPending
    && u.JumperSettingValue == before.jumperSettingValue
    && (c.cmd == AckCode ==>
          && u.LastUpdated == now && u.HaveConnection
          && u.Record() == beforeRecord && u.ReqDataFlag == before.reqData
          && u.JumpersStatus == before.jumpersStatus && u.ResistorStatus == before.resistorStatus
          && u.JumperValueString == before.jumperValueString && u.MetroModeRestore == before.metroModeRestore)
    && (c.cmd == SetCode ==>
          && u.StatusInfo != null
          && u.ReqDataFlag == (before.reqData || RequiresData(c.status))
          && u.StatusInfo.Status == WithRequireData(c.status, u.ReqDataFlag)
          && u.StatusInfo.JumperValue == c.digit && u.StatusInfo.ResistorValue == c.analog
          && u.JumpersStatus == Some(JumpersOk(c.status)) && u.ResistorStatus == Some(ResistorOk(c.status))
          && u.JumperValueString == JumperText(c.digit, u.RequiredJumper)
          && u.MetroModeRestore == QueuedRestore(u.Connector.AutoRestore, c.analog, u.RequiredResistorInOms,
                                                 u.Connector.AutoRepairThreshold, before.metroModeRestore)
          && u.LastUpdated == now && u.HaveConnection)
    && (c.cmd != AckCode && c.cmd != SetCode ==> u.State() == before && u.Record() == beforeRecord)
  }

  /** A dispatched frame takes the unit's own fields to AfterFrame of the
      old ones and its status record to RecordAfterFrame of the old one. */
  lemma FrameAppliedIsAfterFrame(c: Command, u: Unit, before: UnitState, beforeRecord: Option<StatusValues>, now: int)
    requires FrameApplied(c, u, before, beforeRecord, now)
    ensures u.State() == AfterFrame(c, before, now, u.Connector.AutoRestore, u.Connector.AutoRepairThreshold)
    ensures u.Record() == RecordAfterFrame(c, before, beforeRecord)
  {
  }

  /** What the poll tick's service does to a unit, as values: its fields and
      status record before and after, and the record a data request
      reloaded, if any. Nothing is pending afterwards. The jumper target is
      the break's pattern (chosen, or drawn with 3 to 5 bits set), else the
      reloaded one, else the old one. The resistor target is a queued
      restore, else a new nominal for a break, else the reloaded or old one.
      Bit 7 of the status record is cleared when data was requested. The
      connection, the reported statuses, the chosen pattern and the display
      do not change. */
  predicate Serviced(before: UnitState, beforeRecord: Option<StatusValues>,
                     after: UnitState, afterRecord: Option<StatusValues>, loaded: Option<UnitStatusData>)
  {
    var reloadedJumper := if loaded.Some? then loaded.value.Jvalue else before.requiredJumper;
    var reloadedOms := if loaded.Some? then GetOms(loaded.value.Rvalue) else before.requiredResistorInOms;
    && !after.Pending()
    && (!before.reqData ==> loaded == None)
    && after.lastUpdated == before.lastUpdated && after.haveConnection == before.haveConnection
    && after.jumperSettingValue == before.jumperSettingValue
    && after.jumpersStatus == before.jumpersStatus && after.resistorStatus == before.resistorStatus
    && after.jumperValueString == before.jumperValueString
    && afterRecord == (if before.reqData && beforeRecord.Some?
                       then Some(beforeRecord.value.(status := WithRequireData(beforeRecord.value.status, false)))
                       else beforeRecord)
    && (before.jumperBreakPending && before.jumperSettingValue.Some? ==>
          after.requiredJumper == before.jumperSettingValue.value)
    && (before.jumperBreakPending && before.jumperSettingValue.None? ==>
          3 <= PopCount(after.requiredJumper) <= 5 && after.requiredJumper != 255)
    && (!before.jumperBreakPending ==> after.requiredJumper == reloadedJumper)
    && (before.metroModeRestore.Some? ==> after.requiredResistorInOms == before.metroModeRestore.value)
    && (before.metroModeRestore.None? && before.resistorBreakPending ==>
          after.requiredResistorInOms in ResistorNominals && after.requiredResistorInOms != reloadedOms)
    && (before.metroModeRestore.None? && !before.resistorBreakPending ==> after.requiredResistorInOms == reloadedOms)
  }

  /** The record a data request reloads for `address` from the store whose
      fields were `before`: the database's record under that address, if
      any, or, without a database, a fresh record with resistor code 0 and a
      jumper pattern with 3 to 5 bits set. */
  predicate ReloadedFrom(before: Option<StoreState>, address: byte, loaded: Option<UnitStatusData>)
  {
    if before.Some? then
      loaded == (if address as int in before.value.units then Some(before.value.units[address as int]) else None)
    else
      && loaded.Some? && loaded.value.Address == address && loaded.value.Rvalue == 0
      && 3 <= PopCount(loaded.value.Jvalue) <= 5 && loaded.value.Jvalue != 255
  }

  /** What a unit's poll-tick service does to the store, as values: a data
      request reloaded `loaded` from it, and the database now holds the
      record `out` of the unit's new targets under its address and lists the
      address as dirty; nothing else of the database changes. */
  predicate Stored(address: byte, requested: bool, out: UnitStatusData,
                   beforeStore: Option<StoreState>, afterStore: Option<StoreState>, loaded: Option<UnitStatusData>)
  {
    && (requested ==> ReloadedFrom(beforeStore, address, loaded))
    && afterStore == (if beforeStore.None? then None
                      else Some(StoreState(beforeStore.value.units[address as int := out],
                                           beforeStore.value.dirty + [address],
                                           beforeStore.value.saved, beforeStore.value.workerAlive)))
  }

  /** The service keeps a coherent unit coherent: the data request and bit 7
      of the record are cleared together, and the status flags stay those of
      the record. */
  lemma ServicedCoherent(before: UnitState, beforeRecord: Option<StatusValues>,
                         after: UnitState, afterRecord: Option<StatusValues>, loaded: Option<UnitStatusData>)
    requires Coherent(before, beforeRecord)
    requires Serviced(before, beforeRecord, after, afterRecord, loaded)
    ensures Coherent(after, afterRecord)
  {
    if before.reqData {
      WithRequireDataBits(beforeRecord.value.status, false);
    }
  }

  /** The service keeps the database keyed by each record's own address and
      every dirty address a key, so the next flush cannot fail. */
  lemma StoredKeyed(address: byte, requested: bool, out: UnitStatusData,
                    beforeStore: Option<StoreState>, afterStore: Option<StoreState>, loaded: Option<UnitStatusData>)
    requires Stored(address, requested, out, beforeStore, afterStore, loaded)
    requires out.Address == address
    requires beforeStore.Some? ==>
      SavedData.KeyedByOwnAddress(beforeStore.value.units) && SavedData.AllKeyed(beforeStore.value.units, beforeStore.value.dirty)
    ensures afterStore.Some? ==>
      SavedData.KeyedByOwnAddress(afterStore.value.units) && SavedData.AllKeyed(afterStore.value.units, afterStore.value.dirty)
  {
    if beforeStore.Some? {
      SavedData.KeyedByOwnAddressUpdate(beforeStore.value.units, out);
    }
  }

  /** Applies a received frame to the unit it came from; `ok` is false for a
      command code outside the enumeration, where the dispatch throws. The
      enumeration's Unknown (-1) is never the value of a byte, so no frame
      reaches HandleUnknown. */
  method ApplyToUnit(c: Command, u: Unit, now: int) returns (ok: bool)
    requires u.Valid()
    modifies u`StatusInfo, u`ReqDataFlag, u`JumpersStatus, u`ResistorStatus
    modifies u`JumperValueString, u`MetroModeRestore, u`LastUpdated, u`HaveConnection
    ensures ok <==> CmdType(c.cmd).Some?
    ensures FrameApplied(c, u, old(u.State()), old(u.Record()), now)
    ensures c.cmd == SetCode ==> fresh(u.StatusInfo)
    ensures c.cmd != SetCode ==> u.StatusInfo == old(u.StatusInfo)
  {
    if c.cmd == AckCode {
      u.AckConn(now);
    } else if c.cmd == NAckCode {
      u.HandleNAck();
    } else if c.cmd == SetCode {
      ApplySet(c, u, now);
    } else if c.cmd == GetCode {
      u.HandleGet();
    } else {
      return false;
    }
    return true;
  }

  /** The Set case of the dispatch: a new status record from the frame's
      status, digit and analog bytes, handed to the unit. */
  method ApplySet(c: Command, u: Unit, now: int)
    requires c.cmd == SetCode
    modifies u`StatusInfo, u`ReqDataFlag, u`JumpersStatus, u`ResistorStatus
    modifies u`JumperValueString, u`MetroModeRestore, u`LastUpdated, u`HaveConnection
    ensures FrameApplied(c, u, old(u.State()), old(u.Record()), now)
    ensures fresh(u.StatusInfo)
  {
    var info := new UnitStatusInfo(c.status, c.digit, c.analog);
    u.HandleSet(info, now);
  }

  class Unit {
    const Address: byte
    const Connector: ComPortConnector
    /** The last status a Set echo reported, if any arrived yet. */
    var StatusInfo: UnitStatusInfo?
    var LastUpdated: int
    var HaveConnection: bool
    /** The unit asked for its saved targets to be sent again. */
    var ReqDataFlag: bool
    var JumperBreakPending: bool
    var ResistorBreakPending: bool
    /** The pattern a pending jumper break installs; None draws one at random. */
    var JumperSettingValue: Option<byte>
    /** A measured resistance queued to become the new target. */
    var MetroModeRestore: Option<nat>
    var RequiredJumper: byte
    var RequiredResistorInOms: nat
    var JumpersStatus: Option<bool>
    var ResistorStatus: Option<bool>
    /** Reported and required jumper patterns as binary strings, "measured/required". */
    var JumperValueString: string

    /** A new unit has never been heard from, has nothing pending, and is
        registered with its connector. */
    constructor (address: byte, connector: ComPortConnector)
      requires connector.Valid()
      modifies connector`units
      ensures Address == address && Connector == connector
      ensures StatusInfo == null && LastUpdated == 0 && !HaveConnection
      ensures !Dirty() && RequiredJumper == 0 && RequiredResistorInOms == 0
      ensures JumpersStatus == None && ResistorStatus == None
      ensures connector.units == old(connector.units) + [this]
      ensures connector.Valid()
    {
      Address := address;
      Connector := connector;
      StatusInfo := null;
      LastUpdated := 0;
      HaveConnection := false;
      ReqDataFlag := false;
      JumperBreakPending := false;
      ResistorBreakPending := false;
      JumperSettingValue := None;
      MetroModeRestore := None;
      RequiredJumper := 0;
      RequiredResistorInOms := 0;
      JumpersStatus := None;
      ResistorStatus := None;
      JumperValueString := "";
      new;
      connector.RegisterUnit(this);
    }

    /** The flag that asks for saved data is only ever raised by a status echo,
        so a status is on record whenever it is set. */
    predicate Valid()
      reads this
    {
      ReqDataFlag ==> StatusInfo != null
    }

    /** Some pending item is waiting for the next poll tick. */
    predicate Dirty()
      reads this
    {
      HasPending(ReqDataFlag, JumperBreakPending, ResistorBreakPending, MetroModeRestore)
    }

    /** The unit's own mutable fields as values. */
    function State(): UnitState
      reads this
    {
      UnitState(
        LastUpdated, HaveConnection, ReqDataFlag, JumperBreakPending, ResistorBreakPending,
        JumperSettingValue, MetroModeRestore, RequiredJumper, RequiredResistorInOms,
        JumpersStatus, ResistorStatus, JumperValueString)
    }

    /** The values of the status record the unit holds, if any. */
    function Record(): Option<StatusValues>
      reads this, StatusInfo
    {
      if StatusInfo == null then None
      else Some(StatusValues(StatusInfo.Status, StatusInfo.JumperValue, StatusInfo.ResistorValue))
    }

    /** The target record sent to the unit and stored for it. */
    function StatusDataOut(): (d: UnitStatusData)
      reads this
      ensures d.Address == Address && d.Jvalue == RequiredJumper
      ensures d.Rvalue as int == OmsToCode(RequiredResistorInOms)
    {
      UnitStatusData(Address, RequiredResistorByte(RequiredResistorInOms), RequiredJumper)
    }

    /** Online: heard from, and less than two seconds ago. */
    predicate IsOnline(now: int)
      reads this
    {
      Online(HaveConnection, LastUpdated, now)
    }

    /** Both reported statuses are known and OK. */
    function IsWorking(): (w: bool)
      reads this
      ensures w <==> JumpersStatus == Some(true) && ResistorStatus == Some(true)
    {
      (if JumpersStatus.Some? then JumpersStatus.value else false)
      && (if ResistorStatus.Some? then ResistorStatus.value else false)
    }

    /** The guard under which the consumption display is non-zero; a unit
        that consumes is working and online. */
    predicate Consumes(now: int)
      reads this
      ensures Consumes(now) ==> IsWorking() && IsOnline(now) && HaveConnection
    {
      StatusInfo != null && ResistorStatus == Some(true) && JumpersStatus == Some(true) && IsOnline(now)
    }

    method RefreshNow() returns (ok: bool)
      modifies Connector.port`outbox
      ensures ok == !Connector.port.outPending
      ensures Connector.port.outbox == old(Connector.port.outbox) + (if ok then [CreateGet(Address).Encode(Connector.calculate)] else [])
    {
      ok := Connector.Send(CreateGet(Address));
    }

    method BreakResistor()
      modifies this`ResistorBreakPending
      ensures ResistorBreakPending && Dirty()
    {
      ResistorBreakPending := true;
    }

    method BreakJumper(jumperValue: Option<byte>)
      modifies this`JumperSettingValue, this`JumperBreakPending
      ensures JumperSettingValue == jumperValue && JumperBreakPending && Dirty()
    {
      JumperSettingValue := jumperValue;
      JumperBreakPending := true;
    }

    /** The RequireData setter: the flag and bit 7 of the current status move together. */
    method SetRequireData(value: bool)
      requires StatusInfo != null
      modifies this`ReqDataFlag, StatusInfo
      ensures ReqDataFlag == value
      ensures StatusInfo.Status == WithRequireData(old(StatusInfo.Status), value)
      ensures StatusInfo.RequireData() == value
    {
      StatusInfo.SetRequireData(value);
      ReqDataFlag := value;
    }

    /** Takes over a saved record as the new targets. The record sent back
        carries the saved jumper pattern and the saved resistor code read as
        ohms and converted back, which ByteThroughOhms puts at the saved code
        or the one below it. */
    method SetRequiredValues(savedData: UnitStatusData)
      modifies this`RequiredResistorInOms, this`RequiredJumper
      ensures RequiredResistorInOms == GetOms(savedData.Rvalue) && RequiredJumper == savedData.Jvalue
      ensures StatusDataOut() == UnitStatusData(Address, RequiredResistorByte(GetOms(savedData.Rvalue)), savedData.Jvalue)
    {
      RequiredResistorInOms := GetOms(savedData.Rvalue);
      RequiredJumper := savedData.Jvalue;
    }

    method HandleUnknown()
    {
    }

    method HandleGet()
    {
    }

    method HandleNAck()
    {
    }

    /** Any answer from the unit: it is online for the next two seconds. */
    method AckConn(now: int)
      modifies this`LastUpdated, this`HaveConnection
      ensures LastUpdated == now && HaveConnection
      ensures forall t :: now <= t < now + DelayUntilReset ==> IsOnline(t)
      ensures State() == old(State()).(lastUpdated := now, haveConnection := true)
    {
      LastUpdated := now;
      HaveConnection := true;
    }

    /** The status part of a Set echo: the record, the data request and the
        two status flags. */
    method RecordStatus(info: UnitStatusInfo)
      modifies this`StatusInfo, this`ReqDataFlag, this`JumpersStatus, this`ResistorStatus, info
      ensures Valid() && StatusInfo == info
      ensures ReqDataFlag == (old(ReqDataFlag) || RequiresData(old(info.Status)))
      ensures info.Status == WithRequireData(old(info.Status), ReqDataFlag)
      ensures JumpersStatus == Some(JumpersOk(old(info.Status))) && ResistorStatus == Some(ResistorOk(old(info.Status)))
    {
      StatusInfo := info;
      SetRequireData(ReqDataFlag || StatusInfo.RequireData());
      JumpersStatus := Some(info.JumpersStatus());
      ResistorStatus := Some(info.ResistorStatus());
    }

    method QueueRestore()
      requires StatusInfo != null
      modifies this`MetroModeRestore
      ensures MetroModeRestore == QueuedRestore(Connector.AutoRestore, StatusInfo.ResistorValue,
                                                RequiredResistorInOms, Connector.AutoRepairThreshold, old(MetroModeRestore))
      ensures State() == old(State()).(metroModeRestore := MetroModeRestore)
    {
      if Connector.AutoRestore
         && ShouldBeRestoredForMetro(StatusInfo.ResistorValue, RequiredResistorInOms, Connector.AutoRepairThreshold)
      {
        MetroModeRestore := Some(GetOms(StatusInfo.ResistorValue));
      }
    }

    /** A Set echo: records the status, redraws the jumper display, queues a
        restore when it applies, and acknowledges. */
    method HandleSet(info: UnitStatusInfo, now: int)
      modifies this`StatusInfo, this`ReqDataFlag, this`JumpersStatus, this`ResistorStatus
      modifies this`JumperValueString, this`MetroModeRestore, this`LastUpdated, this`HaveConnection, info
      ensures Valid() && StatusInfo == info
      ensures ReqDataFlag == (old(ReqDataFlag) || RequiresData(old(info.Status)))
      ensures info.Status == WithRequireData(old(info.Status), ReqDataFlag)
      ensures JumpersStatus == Some(JumpersOk(old(info.Status))) && ResistorStatus == Some(ResistorOk(old(info.Status)))
      ensures JumperValueString == JumperText(info.JumperValue, RequiredJumper)
      ensures MetroModeRestore == QueuedRestore(Connector.AutoRestore, info.ResistorValue,
                                                RequiredResistorInOms, Connector.AutoRepairThreshold, old(MetroModeRestore))
      ensures LastUpdated == now && HaveConnection
    {
      RecordStatus(info);
      JumperValueString := FormatJumpers(StatusInfo.JumperValue, RequiredJumper);
      QueueRestore();
      AckConn(now);
    }

    /** The first step of the poll-tick service: a pending data request
        reloads the saved targets, when the store has a record, and clears the
        request in the flag and in bit 7 of the status. */
    method ReloadSaved() returns (loaded: Option<UnitStatusData>)
      requires Valid()
      modifies this`RequiredResistorInOms, this`RequiredJumper, this`ReqDataFlag, StatusInfo
      ensures Valid() && !ReqDataFlag
      ensures old(ReqDataFlag) ==> StatusInfo.Status == WithRequireData(old(StatusInfo.Status), false)
      ensures !old(ReqDataFlag) ==> loaded == None
      ensures !old(ReqDataFlag) && StatusInfo != null ==> StatusInfo.Status == old(StatusInfo.Status)
      ensures old(ReqDataFlag) && Connector.savedData.Db? ==> loaded == Connector.savedData.db.Get(Address)
      ensures old(ReqDataFlag) && Connector.savedData.NoDb? ==>
        loaded.Some? && loaded.value.Address == Address && loaded.value.Rvalue == 0
        && 3 <= PopCount(loaded.value.Jvalue) <= 5 && loaded.value.Jvalue != 255
      ensures RequiredJumper == if loaded.Some? then loaded.value.Jvalue else old(RequiredJumper)
      ensures RequiredResistorInOms == if loaded.Some? then GetOms(loaded.value.Rvalue) else old(RequiredResistorInOms)
    {
      loaded := None;
      if ReqDataFlag {
        loaded := Connector.GetSaved(Address);
        if loaded.Some? {
          SetRequiredValues(loaded.value);
        }
        SetRequireData(false);
      }
    }

    /** A pending jumper break installs the chosen pattern or a random one. */
    method ApplyJumperBreak()
      modifies this`RequiredJumper, this`JumperBreakPending
      ensures !JumperBreakPending
      ensures old(JumperBreakPending) && JumperSettingValue.Some? ==> RequiredJumper == JumperSettingValue.value
      ensures old(JumperBreakPending) && JumperSettingValue.None? ==>
        3 <= PopCount(RequiredJumper) <= 5 && RequiredJumper != 255
      ensures !old(JumperBreakPending) ==> RequiredJumper == old(RequiredJumper)
    {
      if JumperBreakPending {
        match JumperSettingValue {
          case Some(v) => RequiredJumper := v;
          case None => RequiredJumper := GenerateJumperValue();
        }
        JumperBreakPending := false;
      }
    }

    /** A pending resistor break draws a different nominal. */
    method ApplyResistorBreak()
      modifies this`RequiredResistorInOms, this`ResistorBreakPending
      ensures !ResistorBreakPending
      ensures old(ResistorBreakPending) ==>
        RequiredResistorInOms in ResistorNominals && RequiredResistorInOms != old(RequiredResistorInOms)
      ensures !old(ResistorBreakPending) ==> RequiredResistorInOms == old(RequiredResistorInOms)
    {
      if ResistorBreakPending {
        RequiredResistorInOms := GenerateResistorValue(RequiredResistorInOms);
        ResistorBreakPending := false;
      }
    }

    /** A queued restore becomes the resistor target. */
    method ApplyRestore()
      modifies this`RequiredResistorInOms, this`MetroModeRestore
      ensures MetroModeRestore == None
      ensures RequiredResistorInOms == if old(MetroModeRestore).Some? then old(MetroModeRestore).value else old(RequiredResistorInOms)
    {
      if MetroModeRestore.Some? {
        RequiredResistorInOms := MetroModeRestore.value;
        MetroModeRestore := None;
      }
    }

    /** The break and restore steps of the poll tick, in that order: a queued
        restore overrides a resistor break drawn just before it. */
    method ApplyBreaks()
      modifies this`RequiredJumper, this`JumperBreakPending
      modifies this`RequiredResistorInOms, this`ResistorBreakPending, this`MetroModeRestore
      ensures !JumperBreakPending && !ResistorBreakPending && MetroModeRestore == None
      ensures old(JumperBreakPending) && JumperSettingValue.Some? ==> RequiredJumper == JumperSettingValue.value
      ensures old(JumperBreakPending) && JumperSettingValue.None? ==>
        3 <= PopCount(RequiredJumper) <= 5 && RequiredJumper != 255
      ensures !old(JumperBreakPending) ==> RequiredJumper == old(RequiredJumper)
      ensures old(MetroModeRestore).Some? ==> RequiredResistorInOms == old(MetroModeRestore).value
      ensures old(MetroModeRestore).None? && old(ResistorBreakPending) ==>
        RequiredResistorInOms in ResistorNominals && RequiredResistorInOms != old(RequiredResistorInOms)
      ensures old(MetroModeRestore).None? && !old(ResistorBreakPending) ==>
        RequiredResistorInOms == old(RequiredResistorInOms)
    {
      ApplyJumperBreak();
      ApplyResistorBreak();
      ApplyRestore();
    }

    /** The poll-tick service: reloads saved targets, applies a jumper break,
        a resistor break and a queued restore, in that order, clears them all,
        and stores and sends the resulting targets in one Set. `ok` is false
        when the line was busy and nothing was written. */
    method DoSomething() returns (ok: bool, ghost loaded: Option<UnitStatusData>)
      requires Valid()
      modifies this`RequiredResistorInOms, this`RequiredJumper, this`ReqDataFlag, StatusInfo
      modifies this`JumperBreakPending, this`ResistorBreakPending, this`MetroModeRestore
      modifies Connector.port`outbox, Connector.savedData.Footprint()
      ensures Valid() && !Dirty()
      ensures old(ReqDataFlag) ==> StatusInfo.Status == WithRequireData(old(StatusInfo.Status), false)
      ensures !old(ReqDataFlag) && StatusInfo != null ==> StatusInfo.Status == old(StatusInfo.Status)
      // the reload
      ensures !old(ReqDataFlag) ==> loaded == None
      ensures old(ReqDataFlag) && Connector.savedData.Db? ==> loaded == old(Connector.savedData.db.Get(Address))
      ensures old(ReqDataFlag) && Connector.savedData.NoDb? ==>
        loaded.Some? && loaded.value.Address == Address && loaded.value.Rvalue == 0
        && 3 <= PopCount(loaded.value.Jvalue) <= 5 && loaded.value.Jvalue != 255
      // the jumper target
      ensures old(JumperBreakPending) && JumperSettingValue.Some? ==> RequiredJumper == JumperSettingValue.value
      ensures old(JumperBreakPending) && JumperSettingValue.None? ==>
        3 <= PopCount(RequiredJumper) <= 5 && RequiredJumper != 255
      ensures !old(JumperBreakPending) ==>
        RequiredJumper == if loaded.Some? then loaded.value.Jvalue else old(RequiredJumper)
      // the resistor target: a queued restore overrides a break
      ensures old(MetroModeRestore).Some? ==> RequiredResistorInOms == old(MetroModeRestore).value
      ensures old(MetroModeRestore).None? && old(ResistorBreakPending) ==>
        RequiredResistorInOms in ResistorNominals
        && RequiredResistorInOms != if loaded.Some? then GetOms(loaded.value.Rvalue) else old(RequiredResistorInOms)
      ensures old(MetroModeRestore).None? && !old(ResistorBreakPending) ==>
        RequiredResistorInOms == if loaded.Some? then GetOms(loaded.value.Rvalue) else old(RequiredResistorInOms)
      // the one Set: stored, then sent
      ensures Connector.savedData.Db? ==>
        && Connector.savedData.db.Units == old(Connector.savedData.db.Units)[Address as int := StatusDataOut()]
        && Connector.savedData.db.Dirty == old(Connector.savedData.db.Dirty) + [Address]
        && Connector.savedData.db.Saved == old(Connector.savedData.db.Saved)
        && Connector.savedData.db.WorkerAlive == old(Connector.savedData.db.WorkerAlive)
      ensures ok == !Connector.port.outPending
      ensures Connector.port.outbox == old(Connector.port.outbox)
        + (if ok then [CreateSetFromSavedData(StatusDataOut(), Connector.defaultDifficulty).Encode(Connector.calculate)] else [])
    {
      loaded := ReloadSaved();
      ApplyBreaks();
      ok := Connector.Set(StatusDataOut());
    }
  }

  /** The serial line the connector writes to. */
  class SerialPort {
    /** Every byte array written to the line, in order. */
    var outbox: seq<seq<byte>>
    /** Earlier output is still waiting to go out; a write now throws. */
    var outPending: bool

    /** A freshly opened line: nothing written, nothing pending. */
    constructor ()
      ensures outbox == [] && !outPending
    {
      outbox := [];
      outPending := false;
    }
  }

  class ComPortConnector {
    /** Registered units, in registration order. */
    var units: seq<Unit>
    /** Received bytes not yet consumed by a parse. */
    var buffer: seq<byte>
    /** The serial line. */
    const port: SerialPort
    const savedData: SavedDataStore
    const defaultDifficulty: byte
    const AutoRestore: bool
    const AutoRepairThreshold: int
    const calculate: Checksum

    constructor (defaultDifficulty: byte, savedData: SavedDataStore, autoRestore: bool,
                 autoRepairThreshold: int, calculate: Checksum)
      ensures units == [] && buffer == [] && fresh(port) && port.outbox == [] && !port.outPending
      ensures this.defaultDifficulty == defaultDifficulty && this.savedData == savedData
      ensures AutoRestore == autoRestore && AutoRepairThreshold == autoRepairThreshold
      ensures this.calculate == calculate
      ensures Valid()
    {
      this.defaultDifficulty := defaultDifficulty;
      this.savedData := savedData;
      AutoRestore := autoRestore;
      AutoRepairThreshold := autoRepairThreshold;
      this.calculate := calculate;
      units := [];
      buffer := [];
      port := new SerialPort();
    }

    /** Every registered unit belongs to this connector and is itself valid,
        and no two registered units share a status record: each Set echo
        builds a fresh one. */
    predicate Valid()
      reads this`units, units
    {
      && (forall u :: u in units ==> u.Connector == this && u.Valid())
      && (forall u, v :: u in units && v in units && u != v && u.StatusInfo != null ==> u.StatusInfo != v.StatusInfo)
    }

    /** The serial driver reports whether output is still pending. */
    method SetOutboundPending(pending: bool)
      modifies port`outPending
      ensures port.outPending == pending
    {
      port.outPending := pending;
    }

    method RegisterUnit(unit: Unit)
      modifies this`units
      ensures units == old(units) + [unit]
      ensures old(Valid()) && unit.Connector == this && unit.Valid()
              && (unit.StatusInfo == null || forall v :: v in old(units) && v != unit ==> v.StatusInfo != unit.StatusInfo)
              ==> Valid()
    {
      units := units + [unit];
    }

    method UnRegisterUnit(unit: Unit)
      modifies this`units
      ensures units == RemoveFirst(old(units), unit)
      ensures multiset(units) == multiset(old(units)) - multiset{unit}
      ensures old(Valid()) ==> Valid()
    {
      units := RemoveFirst(units, unit);
      forall u | u in units
        ensures u in old(units)
      {
        assert u in multiset(units);
      }
    }

    /** Writes the command's frame unless earlier output is still pending. */
    method Send(command: Command) returns (ok: bool)
      modifies port`outbox
      ensures ok == !port.outPending
      ensures port.outbox == old(port.outbox) + (if ok then [command.Encode(calculate)] else [])
    {
      var toSend := command.ToBytes(calculate);
      if port.outPending {
        return false;
      }
      port.outbox := port.outbox + [toSend[..]];
      return true;
    }

    /** The indexer of the configured store. */
    method GetSaved(address: byte) returns (r: Option<UnitStatusData>)
      ensures savedData.Db? ==> r == savedData.db.Get(address)
      ensures savedData.NoDb? ==>
        r.Some? && r.value.Address == address && r.value.Rvalue == 0
        && 3 <= PopCount(r.value.Jvalue) <= 5 && r.value.Jvalue != 255
    {
      match savedData {
        case Db(d) =>
          r := d.Get(address);
        case NoDb(n) =>
          var data := n.Get(address);
          r := Some(data);
      }
    }

    /** Stores the record under its own address, then sends it as a Set with
        the default difficulty. */
    method Set(data: UnitStatusData) returns (ok: bool)
      modifies port`outbox, savedData.Footprint()
      ensures savedData.Db? ==>
        && savedData.db.Units == old(savedData.db.Units)[data.Address as int := data]
        && savedData.db.Dirty == old(savedData.db.Dirty) + [data.Address]
        && savedData.db.Saved == old(savedData.db.Saved)
        && savedData.db.WorkerAlive == old(savedData.db.WorkerAlive)
      ensures ok == !port.outPending
      ensures port.outbox == old(port.outbox) + (if ok then [CreateSetFromSavedData(data, defaultDifficulty).Encode(calculate)] else [])
    {
      match savedData {
        case Db(d) =>
          d.Set(data.Address, data);
        case NoDb(n) =>
          n.Set(data.Address, data);
      }
      ok := Send(CreateSetFromSavedData(data, defaultDifficulty));
    }

    /** The linear search behind the first-dirty lookup. */
    method FindFirstDirty() returns (i: nat)
      ensures i == FirstDirty(units)
    {
      i := 0;
      while i < |units| && !units[i].Dirty()
        invariant i <= |units|
        invariant FirstDirty(units) == i + FirstDirty(units[i..])
      {
        assert units[i..][1..] == units[i + 1..];
        i := i + 1;
      }
    }

    /** The linear search behind the lookup of a frame's sender. */
    method FindSender(address: byte) returns (i: nat)
      ensures i == FindUnit(units, address)
    {
      i := 0;
      while i < |units| && units[i].Address != address
        invariant i <= |units|
        invariant FindUnit(units, address) == i + FindUnit(units[i..], address)
      {
        assert units[i..][1..] == units[i + 1..];
        i := i + 1;
      }
    }

    /** What the service step of a poll tick did to the units and the store:
        unit i, when there is one, has nothing pending and its record went to
        the store; every other unit and its status record are untouched, and
        with no unit to service the store is untouched too. */
    twostate predicate TickServiced(i: nat, new loaded: Option<UnitStatusData>)
      reads this, units, (set u | u in units :: u.StatusInfo), savedData.Footprint()
    {
      && Valid() && units == old(units)
      && (forall u :: u in units && (i < |units| ==> u != units[i]) ==> unchanged(u))
      && (forall u :: u in units && (i < |units| ==> u != units[i]) && u.StatusInfo != null ==> unchanged(u.StatusInfo))
      && (i < |units| ==>
            && Serviced(old(units[i].State()), old(units[i].Record()), units[i].State(), units[i].Record(), loaded)
            && Stored(units[i].Address, old(units[i].ReqDataFlag), units[i].StatusDataOut(),
                      old(savedData.State()), savedData.State(), loaded)
            && units[i].StatusInfo == old(units[i].StatusInfo))
      && (i >= |units| ==> unchanged(savedData.Footprint()))
    }

    /** The bytes of the Set that carries a unit's targets. */
    function SetFrame(u: Unit): seq<byte>
      reads u
    {
      CreateSetFromSavedData(u.StatusDataOut(), defaultDifficulty).Encode(calculate)
    }

    /** Poll tick: the first unit with pending work, if any, gets its one Set,
        then a Get goes to the broadcast address. A busy line stops the tick
        at the first write. */
    method SendPing() returns (ok: bool, ghost loaded: Option<UnitStatusData>)
      requires Valid()
      modifies port`outbox, units, (set u | u in units :: u.StatusInfo), savedData.Footprint()
      // TickServiced is stated as one fact, which the broadcast write leaves
      // standing, rather than clause by clause
      ensures var i := old(FirstDirty(units));
        && (TickServiced(i, loaded) == true)
        && ok == !port.outPending
        && port.outbox == old(port.outbox) + PingFrames(i, ok)
    {
      var i, setOk;
      i, setOk, loaded := ServiceFirstDirty();
      if !setOk {
        return false, loaded;
      }
      ok := Send(CreateBroadCastGet());
    }

    /** The frames a poll tick writes once it has chosen index `i`: the Set
        for unit `i`, if there is one, then the broadcast Get; nothing when
        the line was busy. */
    function PingFrames(i: nat, ok: bool): seq<seq<byte>>
      reads this`units, units
    {
      if !ok then []
      else if i < |units| then [SetFrame(units[i]), CreateBroadCastGet().Encode(calculate)]
      else [CreateBroadCastGet().Encode(calculate)]
    }

    /** The service step of a poll tick: finds the first unit with pending
        work and services it; the result is false only when its Set found the
        line busy. */
    method ServiceFirstDirty() returns (i: nat, ok: bool, ghost loaded: Option<UnitStatusData>)
      requires Valid()
      modifies port`outbox, units, (set u | u in units :: u.StatusInfo), savedData.Footprint()
      ensures i == old(FirstDirty(units)) && TickServiced(i, loaded)
      ensures ok == (i == |units| || !port.outPending)
      ensures port.outbox == old(port.outbox) + (if i < |units| && ok then [SetFrame(units[i])] else [])
    {
      i := FindFirstDirty();
      ok, loaded := ServiceAt(i);
    }

    /** Services the unit at index `i`, if there is one. */
    method ServiceAt(i: nat) returns (ok: bool, ghost loaded: Option<UnitStatusData>)
      requires Valid()
      modifies port`outbox, units, (set u | u in units :: u.StatusInfo), savedData.Footprint()
      ensures TickServiced(i, loaded)
      ensures ok == (i >= |units| || !port.outPending)
      ensures port.outbox == old(port.outbox) + (if i < |units| && ok then [SetFrame(units[i])] else [])
    {
      ok, loaded := true, None;
      if i < |units| {
        var u := units[i];
        ok, loaded := ServiceUnit(u);
      }
    }

    /** One unit's poll-tick service as the tick sees it: the unit ends in
        Serviced of its old fields, its old record and the reloaded record,
        the store is Stored of its old fields, and its one Set goes out unless
        the line is busy. */
    method ServiceUnit(u: Unit) returns (ok: bool, ghost loaded: Option<UnitStatusData>)
      requires u.Valid() && u.Connector == this
      modifies u`RequiredResistorInOms, u`RequiredJumper, u`ReqDataFlag, u.StatusInfo
      modifies u`JumperBreakPending, u`ResistorBreakPending, u`MetroModeRestore
      modifies port`outbox, savedData.Footprint()
      ensures Serviced(old(u.State()), old(u.Record()), u.State(), u.Record(), loaded)
      ensures u.StatusInfo == old(u.StatusInfo)
      ensures Stored(u.Address, old(u.ReqDataFlag), u.StatusDataOut(), old(savedData.State()), savedData.State(), loaded)
      ensures ok == !port.outPending
      ensures port.outbox == old(port.outbox)
        + (if ok then [SetFrame(u)] else [])
    {
      ok, loaded := u.DoSomething();
    }

    /** Routes a received frame to the first unit whose address is the frame's
        sender; a frame from an unknown sender is dropped. */
    method AcceptCommand(command: Command, now: int) returns (ok: bool)
      requires Valid()
      modifies units
      ensures Valid()
      ensures var k := FindUnit(units, command.Sender);
        && (k == |units| ==> ok && forall u :: u in units ==> unchanged(u))
        && (k < |units| ==>
              && ok == CmdType(command.cmd).Some?
              && FrameApplied(command, units[k], old(units[k].State()), old(units[k].Record()), now)
              && (command.cmd == SetCode ==> fresh(units[k].StatusInfo))
              && (command.cmd != SetCode ==> units[k].StatusInfo == old(units[k].StatusInfo)))
        && (k < |units| ==> forall u :: u in units && u != units[k] ==> unchanged(u))
    {
      var k := FindSender(command.Sender);
      if k == |units| {
        return true;
      }
      ok := ApplyToUnit(command, units[k], now);
    }

    /** Routes a frame taken out of the buffer; a dispatch that throws
        (an unknown command code from a registered unit) discards the
        buffer. */
    method Dispatch(c: Command, now: int)
      requires Valid()
      modifies this`buffer, units
      ensures Valid()
      ensures var k := FindUnit(units, c.Sender);
        && (k == |units| ==> buffer == old(buffer) && forall u :: u in units ==> unchanged(u))
        && (k < |units| ==> buffer == if CmdType(c.cmd).Some? then old(buffer) else [])
        && (k < |units| ==>
              && FrameApplied(c, units[k], old(units[k].State()), old(units[k].Record()), now)
              && (c.cmd == SetCode ==> fresh(units[k].StatusInfo))
              && (c.cmd != SetCode ==> units[k].StatusInfo == old(units[k].StatusInfo)))
        && (k < |units| ==> forall u :: u in units && u != units[k] ==> unchanged(u))
    {
      var ok := AcceptCommand(c, now);
      if !ok {
        buffer := [];
      }
    }

    /** Appends the received bytes to the buffer and takes the first frame
        out of it, leaving what follows the frame (or the resynchronised
        remainder) in the buffer. */
    method Receive(incoming: seq<byte>) returns (command: Option<Command>)
      modifies this`buffer
      ensures var pr := Parse(calculate, old(buffer) + incoming);
        command == pr.command && buffer == pr.rest
    {
      var i := 0;
      while i < |incoming|
        modifies this`buffer
        invariant 0 <= i <= |incoming|
        invariant buffer == old(buffer) + incoming[..i]
      {
        buffer := buffer + [incoming[i]];
        i := i + 1;
      }
      assert incoming[..i] == incoming;
      var rest;
      command, rest := TryParseCommand(calculate, buffer);
      buffer := rest;
    }

    /** Data arrival: appends the new bytes, extracts at most one intact frame
        and routes it. A frame whose command code is outside the enumeration
        makes the dispatch throw, and then the whole buffer is discarded. */
    method PortDataReceived(incoming: seq<byte>, now: int)
      requires Valid()
      modifies this`buffer, units
      ensures Valid() && units == old(units)
      ensures var pr := Parse(calculate, old(buffer) + incoming);
        && (pr.command.None? ==> buffer == pr.rest && forall u :: u in units ==> unchanged(u))
        && (pr.command.Some? ==>
              var c := pr.command.value;
              var k := FindUnit(units, c.Sender);
              && (k == |units| ==> buffer == pr.rest && forall u :: u in units ==> unchanged(u))
              && (k < |units| ==> buffer == if CmdType(c.cmd).Some? then pr.rest else [])
              && (k < |units| ==>
                    && FrameApplied(c, units[k], old(units[k].State()), old(units[k].Record()), now)
                    && (c.cmd == SetCode ==> fresh(units[k].StatusInfo))
                    && (c.cmd != SetCode ==> units[k].StatusInfo == old(units[k].StatusInfo)))
              && (k < |units| ==> forall u :: u in units && u != units[k] ==> unchanged(u)))
    {
      var command := Receive(incoming);
      if command.Some? {
        Dispatch(command.value, now);
      }
    }
  }
}
