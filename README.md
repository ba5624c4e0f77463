# RepairControl bus core in Dafny

This project models the control core of RepairControl. RepairControl polls a bus of repairable test units over a half-duplex serial line. It speaks a small framed binary protocol with a 16-bit checksum. For each unit it keeps a state machine of pending "repair" work: breaking or restoring a resistor target, and breaking a jumper pattern. The targets are kept in a write-behind cache.

The model is split into modules that follow the source files:

| module (file) | source |
|---|---|
| `ByteExt` (byte_ext.dfy) | RepairControl/ByteExt.cs: the bit test, the LSB-first binary string, the bit count |
| `UnitStatus` (unit_status_info.dfy) | RepairControl/UnitStatusInfo.cs: the status byte and its three flag bits |
| `StatusData` (unit_status_data.dfy) | RepairControl/UnitStatusData.cs: the `(Address, Rvalue, Jvalue)` record |
| `Codec` (command.dfy) | RepairControl/Command.cs: command codes, frame encoding, parsing with resynchronisation, the factories |
| `UnitValues` (unit_values.dfy) | the stateless part of RepairControl/Unit.cs: ohm/code conversions, the self-heal test, the random generators |
| `SavedData` (unit_saved_data.dfy) | RepairControlDb/UnitSavedData.cs: the cache map, the dirty list and the flush step |
| `NullSavedData` (null_unit_saved_data.dfy) | RepairControlPanel/NullUnitSavedData.cs |
| `Bus` (bus.dfy) | RepairControl/Unit.cs and RepairControl/ComPortConnector.cs: the two classes refer to each other, so they share a module |
| `Optional` (option.dfy) | a C# null reference or nullable value |

Objects whose fields the source updates in place are Dafny classes: `Unit`, `ComPortConnector`, `SerialPort`, `UnitStatusInfo` and `UnitSavedData`. A method that changes only some fields of an object names those fields in its `modifies` frame. A method that may reach several units, such as the poll tick or the receive path, names the unit objects and states which of them stay unchanged. Pure code is written as functions and lemmas.

The serial port becomes a `SerialPort` object with two fields. `outbox` is the sequence of byte arrays written, in order. `outPending` is a flag meaning earlier output has not drained yet. In that state a write throws, and `Send` returns `false`. The clock becomes a `now` parameter in 100 ns ticks, with `DateTime.MinValue` as 0. A random draw becomes a nondeterministic choice constrained by the exit condition of its rejection loop.

The checksum routine `Calculate` is not part of this model. Every codec operation takes the checksum as a parameter of type `seq<byte> -> bv16`, and every codec property holds for all checksum functions. The three byte vectors from the unit tests are stated as lemmas. Each takes the checksum value the vector relies on as a hypothesis.

Two details of the code are worth noting:
- In a Set frame, `analog` carries the resistor code and `digit` the jumper pattern. A received Set therefore gives `JumperValue = digit` and `ResistorValue = analog` (RepairControl/Command.cs:192-195, 209).
- Auto-restore queues the *measured* resistance `GetOms(StatusInfo.ResistorValue)`, not the current required one (RepairControl/Unit.cs:210).

## Model

| member | source | states |
|---|---|---|
| ByteExt.BinString | RepairControl/ByteExt.cs:5-13 | the binary string has 8 characters; character i is '1' exactly when bit i is set and '0' exactly when it is clear (least significant bit first) |
| ByteExt.HasBit | RepairControl/ByteExt.cs:15-18 | true exactly when the given bit (0 = least significant) of the byte is set |
| ByteExt.ToBinString | RepairControl/ByteExt.cs:5-13 | the loop builds exactly `BinString(b)`, whose every character is '0' or '1' |
| ByteExt.CountBits | RepairControl/ByteExt.cs:20-31 | the downward loop over bits 7..0 returns the population count, which lies in 0..8 |
| ByteExt.CountBitsMatchesBinString | RepairControl/ByteExt.cs:5-31 | the bit count equals the number of '1' characters in the binary string |
| ByteExt.OnesOfPrefix | RepairControl/ByteExt.cs:5-31 | the '1's among the first n characters plus the set bits from n up make the population count |
| ByteExt.BinStringInjective | RepairControl/ByteExt.cs:8-11 | distinct bytes print as distinct binary strings |
| UnitStatus.FlagBits | RepairControl/UnitStatusInfo.cs:18-30 | resistor OK iff bit 5 is clear, jumpers OK iff bit 6 is clear, data requested iff bit 7 is set |
| UnitStatus.WithRequireDataBits | RepairControl/UnitStatusInfo.cs:31 | the setter makes the getter return the new value and keeps bits 0-6, hence both status flags |
| UnitStatus.WithRequireDataIdempotent | RepairControl/UnitStatusInfo.cs:31 | setting the flag twice to one value equals setting it once |
| UnitStatus.WithRequireDataNoOp | RepairControl/UnitStatusInfo.cs:30-31 | setting the flag to its current value leaves the status byte unchanged |
| UnitStatus.UnitStatusInfo.constructor | RepairControl/UnitStatusInfo.cs:5-10 | stores status, jumper pattern and resistor code; the latter two are constants thereafter |
| UnitStatus.UnitStatusInfo.ResistorStatus | RepairControl/UnitStatusInfo.cs:18-21 | the resistor is OK when bit 5 of the status is clear (FlagBits) |
| UnitStatus.UnitStatusInfo.JumpersStatus | RepairControl/UnitStatusInfo.cs:23-26 | the jumpers are OK when bit 6 of the status is clear (FlagBits) |
| UnitStatus.UnitStatusInfo.RequireData | RepairControl/UnitStatusInfo.cs:28-30 | the unit asks for data when bit 7 of the status is set (FlagBits) |
| UnitStatus.UnitStatusInfo.SetRequireData | RepairControl/UnitStatusInfo.cs:28-32 | rewrites bit 7 in place; afterwards the getter returns the value and the resistor and jumper flags are as before |
| Codec.CmdType | RepairControl/Command.cs:10-17 | a code names a command kind exactly when it is 0, 1, 3 or 4, and the kind's code is that byte; no byte names Unknown (-1) |
| Codec.GetCmdLen | RepairControl/Command.cs:149-152 | the frame length is 7 exactly for the Set code and 3 for every other code |
| Codec.Command.Body | RepairControl/Command.cs:129-142 | header is dest, sender, cmd; the 4 payload bytes follow only for Set |
| Codec.Command.Encode | RepairControl/Command.cs:129-147 | the wire frame is the body plus 2 bytes, and reading the checksum back from it gives the checksum of the body |
| Codec.Command.ToBytes | RepairControl/Command.cs:129-147 | the array, filled slot by slot, holds exactly the encoded frame |
| Codec.GetCrcFromBuffer | RepairControl/Command.cs:187-190 | the checksum's low byte is at offset len and its high byte at len+1, the order the encoder writes |
| Codec.FromBytes | RepairControl/Command.cs:111-127 | a received body fills dest, sender and cmd from bytes 0-2; analog, digit, difficulty and status come from bytes 3-6 when the body is longer than 3 bytes and are 0 otherwise |
| Codec.NewCommand | RepairControl/Command.cs:100-109 | an outgoing command always has sender 0x80 and the kind's code, and carries the given address, analog, digit, difficulty and status |
| Codec.CreateGet | RepairControl/Command.cs:154-157 | a Get to the address, sent by 0x80, with no payload |
| Codec.CreateSet | RepairControl/Command.cs:192-195 | a Set with the resistor code as analog, the jumper pattern as digit, the difficulty and status 0 |
| Codec.CreateBroadCastGet | RepairControl/Command.cs:222-225 | a Get addressed to 0xF0 |
| Codec.CreateSetFromSavedData | RepairControl/Command.cs:227-231 | a Set to the record's address carrying Rvalue as analog, Jvalue as digit and the default difficulty |
| Codec.Parse | RepairControl/Command.cs:159-185 | the remainder is a suffix of the buffer; an incomplete buffer is returned untouched with no command; when no command is found, what remains is incomplete |
| Codec.TryParseCommand | RepairControl/Command.cs:159-185 | the loop that drops one byte per checksum mismatch returns the same command and remainder as the recursion |
| Codec.SkippedAreCorrupt | RepairControl/Command.cs:177-181 | every byte position dropped before the parse stops holds a complete frame with a bad checksum |
| Codec.ParseIsHeadAfterSkip | RepairControl/Command.cs:159-185 | a parse is a single head parse after the dropped bytes, and a complete head there has a good checksum |
| Codec.ParseResync | RepairControl/Command.cs:159-185 | a parse stops at some position k within the buffer; before k every position is a corrupt complete frame; at k it keeps an incomplete buffer whole, or returns the intact frame and keeps exactly the bytes after it |
| Codec.EncodeThenParse | RepairControl/Command.cs:129-185 | parsing the encoding of a factory-built command followed by any bytes gives that command back and leaves those bytes |
| Codec.GetVector | RepairControl/Command.cs:29-60 | Get to unit 5 encodes as 05 80 04 A1 D0 and parses back to itself |
| Codec.AckVector | RepairControl/Command.cs:31-39 | 80 05 00 88 94 parses as an Ack sent by unit 5 with nothing left |
| Codec.SetVector | RepairControl/Command.cs:30-46 | the Set echo vector parses with its whole payload and nothing left |
| Codec.IncompleteVector | RepairControl/Command.cs:62-73 | the truncated Get frame yields no command and leaves the buffer as it was, whatever the checksum |
| Codec.TrailingByteVector | RepairControl/Command.cs:75-85 | one extra byte after the Get frame stays in the buffer |
| UnitValues.GetOms | RepairControl/Unit.cs:147-150 | the ohms read for a byte code, 10000*x/(256-x) truncated; CodeToOmsBounds pins its value |
| UnitValues.CodeToOmsBounds | RepairControl/Unit.cs:147-150 | GetOms is the largest whole number of ohms not above 10000*x/(256-x) |
| UnitValues.OmsToCode | RepairControl/Unit.cs:142-145 | the code for a target resistance is always below 256, so the byte cast never wraps |
| UnitValues.RequiredResistorByte | RepairControl/Unit.cs:142-145 | the byte is exactly the truncated quotient (256*oms)/(oms+10000) |
| UnitValues.OmsToCodeBounds | RepairControl/Unit.cs:142-145 | the code is the largest code whose exact resistance does not exceed the target |
| UnitValues.GetOmsStrictlyIncreasing | RepairControl/Unit.cs:147-150 | a higher code always reads as strictly more ohms |
| UnitValues.CodeToOmsStrictlyIncreasing | RepairControl/Unit.cs:147-150 | the same for the code as a number, by induction over the distance |
| UnitValues.OhmsThroughByte | RepairControl/Unit.cs:142-150 | converting a target to its code and back never yields more ohms than the target |
| UnitValues.ByteThroughOhms | RepairControl/Unit.cs:142-150 | reading a code as ohms and converting back gives the code or the one below it |
| UnitValues.ShouldBeRestoredForMetro | RepairControl/Unit.cs:223-230 | the measured reading differs from the target, is at least the threshold and is not the reading of code 0xFF; RestoreEligibility restates it on codes |
| UnitValues.RestoreEligibility | RepairControl/Unit.cs:223-230 | self-heal applies iff the code is not 0xFF, the reading differs from the target and is at least the threshold |
| UnitValues.GenerateJumperValue | RepairControl/Unit.cs:163-171 | the drawn pattern has 3 to 5 bits set and is never 255 |
| UnitValues.GenerateResistorValue | RepairControl/Unit.cs:300-309 | the drawn value is one of the eight nominals and differs from the current target |
| SavedData.Distinct | RepairControlDb/UnitSavedData.cs:39 | the first occurrences are no longer than the list |
| SavedData.DistinctElements | RepairControlDb/UnitSavedData.cs:39 | an address is among the first occurrences iff it is in the list |
| SavedData.DistinctHasNoDuplicates | RepairControlDb/UnitSavedData.cs:39 | the first occurrences hold no address twice |
| SavedData.DistinctOfPrefix | RepairControlDb/UnitSavedData.cs:39 | the first occurrences of a prefix are a prefix of the first occurrences |
| SavedData.SaveLogEntries | RepairControlDb/UnitSavedData.cs:39-42 | the k-th save is the map's current record for the k-th address |
| SavedData.SaveLogSavesAll | RepairControlDb/UnitSavedData.cs:39-42 | when every address is a key, every address gets its save |
| SavedData.SaveLogAppend | RepairControlDb/UnitSavedData.cs:39-42 | one more address adds its record to the save log, or nothing when it is not a key |
| SavedData.SaveLogStops | RepairControlDb/UnitSavedData.cs:41 | a missing key ends the save log: nothing after it is saved |
| SavedData.UnitSavedData.constructor | RepairControlDb/UnitSavedData.cs:21-31 | starts from loaded rows that are each keyed by their own address, with nothing dirty, nothing saved and the worker running |
| SavedData.UnitSavedData.KeyedByAddress | RepairControlDb/UnitSavedData.cs:24-28 | every cached record is stored under its own address |
| SavedData.UnitSavedData.Get | RepairControlDb/UnitSavedData.cs:49 | the stored record for a known address, nothing otherwise; in a store keyed by address the record carries the requested address |
| SavedData.UnitSavedData.Set | RepairControlDb/UnitSavedData.cs:50-52 | afterwards Get(a) is the value and every other address reads as before; the record's own address is appended to the dirty list; when a == v.Address every dirty address stays a key and the store stays keyed by address |
| SavedData.UnitSavedData.Flush | RepairControlDb/UnitSavedData.cs:35-45 | a pass of a running worker saves the current records of the distinct dirty addresses in first-occurrence order and leaves the map as it was; it succeeds, and empties the dirty list, exactly when every dirty address is a key; otherwise the lookup's failure leaves the dirty list as it was and ends the worker, after which a pass saves nothing |
| NullSavedData.NullUnitSavedData.Get | RepairControlPanel/NullUnitSavedData.cs:11 | always a record: the requested address, resistor code 0, a jumper pattern with 3 to 5 bits set |
| NullSavedData.NullUnitSavedData.Set | RepairControlPanel/NullUnitSavedData.cs:12 | drops the record: the empty frame changes nothing |
| Bus.FirstDirty | RepairControl/ComPortConnector.cs:151 | the index of the first unit with pending work, every unit before it clean, or the length when none is dirty |
| Bus.FindUnit | RepairControl/ComPortConnector.cs:96 | the index of the first unit with the address, none before it has that address, or the length when none does |
| Bus.RemoveFirst | RepairControl/ComPortConnector.cs:111 | the list loses exactly one occurrence of the unit (as multisets) |
| Bus.IndexOf | RepairControl/ComPortConnector.cs:111 | the index `List.Remove` searches for: the unit is there, and it occurs nowhere before it; or the list's length when the unit is absent |
| Bus.RemoveFirstSplices | RepairControl/ComPortConnector.cs:109-112 | unregistering removes the first occurrence only: the result is the units before it followed by the units after it, in their order |
| Bus.RemoveFirstAbsent | RepairControl/ComPortConnector.cs:109-112 | unregistering a unit that is not registered leaves the list unchanged |
| Bus.RegisterThenUnregister | RepairControl/ComPortConnector.cs:104-112 | registering an unregistered unit and unregistering it gives back the original list |
| Bus.RemoveFirstKeepsOthers | RepairControl/ComPortConnector.cs:109-112 | every other unit stays registered |
| Bus.JumperTextDigits | RepairControl/Unit.cs:207 | the jumper display is 17 characters, the two patterns bit by bit around a '/' |
| Bus.FormatJumpers | RepairControl/Unit.cs:207 | builds the jumper display from the two binary strings |
| Bus.AfterFrameKeepsTargets | RepairControl/Command.cs:197-220 | no received frame changes a unit's targets, its pending breaks or its chosen jumper pattern |
| Bus.AfterSetCoherent | RepairControl/Unit.cs:198-203 | after a Set echo, bit 7 of the installed record equals the data-request flag and the two status flags are those of the record, whatever the unit's state before |
| Bus.AfterFrameCoherent | RepairControl/Command.cs:197-220 | every received frame keeps the data-request flag, bit 7 of the recorded status and the two status flags in step |
| Bus.AfterFramePending | RepairControl/Unit.cs:198-216 | a Set echo leaves work pending exactly when work was pending, the echo asks for data, or auto-restore queues a restore; no other frame changes whether work is pending |
| Bus.AfterFrameOnline | RepairControl/Unit.cs:237-241 | after an Ack or a Set echo the unit is online for the next two seconds; a NAck, a Get or an unknown code leaves the connection as it was |
| Bus.FrameApplied | RepairControl/Command.cs:197-220 | the per-kind effect of a dispatched frame on its unit, field by field: Ack marks it heard from, Set installs the record and updates the request, both flags, the jumper display and the restore queue, any other frame changes nothing |
| Bus.FrameAppliedIsAfterFrame | RepairControl/Command.cs:197-220 | the unit's fields after a dispatch are AfterFrame of the fields before, and its status record is RecordAfterFrame of the record before |
| Bus.ApplyToUnit | RepairControl/Command.cs:197-220 | dispatch succeeds exactly for codes 0, 1, 3 and 4; the unit ends in FrameApplied of its old fields and record: NAck, Get and unknown codes change nothing, Ack marks it heard from now, Set installs a fresh status record |
| Bus.ApplySet | RepairControl/Command.cs:208-210 | a Set frame builds a fresh status record from its status, digit and analog bytes and hands it to the unit, which ends in FrameApplied |
| Bus.Unit.constructor | RepairControl/Unit.cs:9-17 | a new unit has never been heard from, has nothing pending, and is appended to its connector's units |
| Bus.Unit.Valid | RepairControl/Unit.cs:243-248 | a unit with a data request holds a status record, so the RequireData setter never meets a null record |
| Bus.Unit.Dirty | RepairControl/Unit.cs:261-264 | work is pending when data is requested, a break is pending or a restore is queued |
| Bus.Unit.IsOnline | RepairControl/Unit.cs:311-314 | heard from, and less than two seconds ago |
| Bus.Unit.StatusDataOut | RepairControl/Unit.cs:137-140 | the outgoing record has the unit's address, the required jumper pattern and the code of the required resistance |
| Bus.Unit.IsWorking | RepairControl/Unit.cs:325-328 | working iff both reported statuses are known and OK |
| Bus.Unit.Consumes | RepairControl/Unit.cs:316-323 | the guard under which the consumption reading is non-zero; a unit that passes it is working and online |
| Bus.Unit.RefreshNow | RepairControl/Unit.cs:127-130 | sends a Get to the unit unless the line is busy |
| Bus.Unit.BreakResistor | RepairControl/Unit.cs:132-135 | a resistor break is pending and the unit is dirty |
| Bus.Unit.BreakJumper | RepairControl/Unit.cs:157-161 | a jumper break with the given pattern (or none) is pending and the unit is dirty |
| Bus.Unit.SetRequireData | RepairControl/Unit.cs:243-248 | the flag and bit 7 of the status record take the value together |
| Bus.Unit.SetRequiredValues | RepairControl/Unit.cs:250-254 | the resistor target becomes the saved code read as ohms and the jumper target the saved pattern; the record sent next carries the saved pattern and the code of that resistance, which ByteThroughOhms puts at the saved code or the one below |
| Bus.Unit.HandleUnknown | RepairControl/Unit.cs:189-191 | empty, as in the source |
| Bus.Unit.HandleGet | RepairControl/Unit.cs:193-195 | empty, as in the source |
| Bus.Unit.HandleNAck | RepairControl/Unit.cs:232-235 | empty, as in the source |
| Bus.Unit.AckConn | RepairControl/Unit.cs:237-241 | the unit counts as online for the two seconds from now, and no other field changes |
| Bus.Unit.RecordStatus | RepairControl/Unit.cs:200-203 | the status record is installed; the data request becomes old flag or bit 7; the two statuses are read from bits 6 and 5 |
| Bus.Unit.QueueRestore | RepairControl/Unit.cs:208-211 | the measured resistance is queued exactly when auto-restore is on and self-heal applies, and no other field changes |
| Bus.Unit.HandleSet | RepairControl/Unit.cs:198-216 | the whole Set echo: the record is installed, the data request merged into the flag and bit 7, both status flags read, the jumper display redrawn, the restore queued when it applies, and the unit acknowledged |
| Bus.Unit.ReloadSaved | RepairControl/Unit.cs:272-280 | a data request reloads the stored record when there is one and clears the request in the flag and in bit 7 |
| Bus.Unit.ApplyJumperBreak | RepairControl/Unit.cs:281-285 | a jumper break installs the chosen pattern or a random one with 3 to 5 bits set |
| Bus.Unit.ApplyResistorBreak | RepairControl/Unit.cs:286-290 | a resistor break draws a different nominal |
| Bus.Unit.ApplyRestore | RepairControl/Unit.cs:291-295 | a queued restore becomes the resistor target and the queue is emptied |
| Bus.Unit.ApplyBreaks | RepairControl/Unit.cs:281-295 | the breaks then the restore, so a queued restore overrides a resistor break |
| Bus.Unit.DoSomething | RepairControl/Unit.cs:266-298 | every pending item is cleared; the targets are reloaded, broken and restored in source order; the resulting record is stored under the unit's address and sent as one Set unless the line is busy; the saved log and the worker flag of the database are unchanged |
| Bus.Serviced | RepairControl/Unit.cs:266-298 | what a poll-tick service does to a unit, on values: nothing pending afterwards; the jumper target is the chosen or drawn break pattern (3 to 5 bits, not 255), else the reloaded one, else the old one; the resistor target is a queued restore, else a nominal different from the reloaded or old one, else that one; bit 7 of the record cleared exactly when data was requested; connection, reported statuses, chosen pattern and display unchanged |
| Bus.ReloadedFrom | RepairControl/Unit.cs:272-279 | a data request reloads the database's record for the address, or, without a database, a fresh record with resistor code 0 and a jumper pattern of 3 to 5 bits |
| Bus.Stored | RepairControl/ComPortConnector.cs:159-163 | after a service the database holds the unit's new record under its address and lists the address as dirty, with the saved log and the worker flag unchanged; a data request reloaded the record ReloadedFrom gives |
| Bus.ServicedCoherent | RepairControl/Unit.cs:266-298 | a service keeps the data-request flag, bit 7 of the record and the two status flags in step |
| Bus.StoredKeyed | RepairControlDb/UnitSavedData.cs:48-53 | a service keeps every cached record under its own address and every dirty address a key of the cache, so the next flush cannot fail |
| Bus.ComPortConnector.constructor | RepairControl/ComPortConnector.cs:15-44 | no units, empty buffer, a freshly opened port with nothing written and nothing pending, the configuration stored |
| Bus.ComPortConnector.Valid | RepairControl/Command.cs:208-209 | every registered unit belongs to this connector and is valid, and no two registered units share a status record, since each Set echo builds a fresh one |
| Bus.ComPortConnector.SetOutboundPending | RepairControl/ComPortConnector.cs:141 | the driver's report of pending output becomes the flag that makes a write throw |
| Bus.ComPortConnector.RegisterUnit | RepairControl/ComPortConnector.cs:104-107 | appends the unit; the connector stays valid when the unit belongs to it, is valid and shares no status record with another unit |
| Bus.ComPortConnector.UnRegisterUnit | RepairControl/ComPortConnector.cs:109-112 | removes the first occurrence of the unit and keeps the other units valid |
| Bus.ComPortConnector.Send | RepairControl/ComPortConnector.cs:135-147 | fails exactly when output is pending; otherwise writes exactly the command's encoding |
| Bus.ComPortConnector.GetSaved | RepairControl/ComPortConnector.cs:165-168 | the configured store's record for the address |
| Bus.ComPortConnector.Set | RepairControl/ComPortConnector.cs:159-163 | stores the record under its own address, then sends it as a Set with the default difficulty; the saved log and the worker flag of the database are unchanged |
| Bus.ComPortConnector.FindFirstDirty | RepairControl/ComPortConnector.cs:151 | the search loop returns the first dirty unit's index |
| Bus.ComPortConnector.FindSender | RepairControl/ComPortConnector.cs:96 | the search loop returns the first index whose unit has the sender's address |
| Bus.ComPortConnector.ServiceUnit | RepairControl/ComPortConnector.cs:154 | the serviced unit ends in Serviced of its old fields and record, keeps its status record object, and the store ends in Stored of its old fields; its one Set goes out unless the line is busy |
| Bus.ComPortConnector.SendPing | RepairControl/ComPortConnector.cs:149-157 | the first dirty unit is serviced (TickServiced); the port gets its Set and then one broadcast Get; a busy line stops the tick at the first write |
| Bus.ComPortConnector.TickServiced | RepairControl/ComPortConnector.cs:151-155 | only the first dirty unit changes: it ends in Serviced of its old fields and record, with the same status record object, and the store in Stored; every other unit and its status record stay unchanged; with no dirty unit the store is unchanged |
| Bus.ComPortConnector.ServiceFirstDirty | RepairControl/ComPortConnector.cs:151-155 | services the first dirty unit, if any, ending in TickServiced; the result is false only when that unit's Set found the line busy |
| Bus.ComPortConnector.ServiceAt | RepairControl/ComPortConnector.cs:152-155 | services the unit at the given index, if there is one, ending in TickServiced; only its Set is written, unless the line is busy |
| Bus.ComPortConnector.AcceptCommand | RepairControl/ComPortConnector.cs:93-102 | a frame from an unknown sender changes no unit; otherwise the first unit with that address ends in FrameApplied of its old fields and record and every other unit is unchanged; the result is false exactly for an unknown command code |
| Bus.ComPortConnector.Dispatch | RepairControl/ComPortConnector.cs:71-83 | routes the frame as AcceptCommand does; the buffer is emptied only when a registered unit sent an unknown command code |
| Bus.ComPortConnector.Receive | RepairControl/ComPortConnector.cs:67-73 | appends the bytes in order and takes out the first intact frame, leaving what Parse leaves |
| Bus.ComPortConnector.PortDataReceived | RepairControl/ComPortConnector.cs:54-91 | appends the bytes and extracts at most one frame; the routed unit ends in FrameApplied and the others are unchanged; the buffer is emptied only when a registered unit sent an unknown command code, and otherwise keeps the bytes after the frame |

## Left out

- Serial port plumbing (opening, configuration, `BytesToRead`/`Read`/`Write`, `ErrorReceived`, `ClosePort`): these are foreign I/O. They become the `SerialPort` object with its `outbox` sequence and `outPending` flag, and the `incoming` bytes parameter.
- The drain of pending output is driven by the serial driver, not by this code. The environment sets the flag through `SetOutboundPending`, and `Send` neither raises nor lowers it.
- Locks, the background worker thread, its `AutoResetEvent` and `Thread.Sleep(20)`: concurrency is not modelled. Arrivals, poll ticks and flushes are separate sequential calls.
- The checksum routine `Calculate` is not part of this model. It is a parameter of every codec operation, and the test vectors carry the checksum values they rely on as hypotheses.
- The SQL layer (RepairControlDb/DBC.cs, `Save`, `LoadDataTable`): these are foreign database calls. `Save` is the `Saved` log of records handed to it, and the loaded rows are a constructor argument.
- `IUnitSavedData` is not part of this model. The two stores are the datatype `SavedDataStore`, with one case per implementation.
- SavedData.Cache: the dictionary is keyed by the address as an integer, not as a byte. The values are the same.
- Codec.TryParseCommand: it returns the remaining bytes instead of removing the consumed ones from the caller's list in place.
- Bus.Unit.RequiredResistorInOms: a `nat`. The source's `int` never becomes negative, since it only takes ohm readings, nominals and queued readings.
- Floating point and display text: `ResistorValueInOms`, `GetConsumeValue`, `UpdatedString`, `ResistorValueString`, `StatusString`, `GetStatusString` and the `PropertyChanged` notifications. Only the guard of `GetConsumeValue` (`Bus.Unit.Consumes`) and the jumper display are modelled.
- `Dispose` and the finalizers: object lifetime is not modelled. `UnRegisterUnit` itself is.
- The UI windows (RepairControlPanel/Window1.xaml.cs, UnitStatus.xaml.cs, LogWindow.xaml.cs) and logging (RepairControl/Log.cs), including `Log.WritePacket` in `AcceptCommand` and `Send`.
- Randomness: `Random.Next` is a nondeterministic choice constrained by the exit condition of each rejection loop. The loops themselves, and their termination, are not modelled.
- `HandleNAck`, `HandleGet` and `HandleUnknown` are empty methods, as in the source. No byte value casts to `Unknown` (-1), so `HandleUnknown` is never reached.
- Exceptions: a thrown exception is a `false` result. Examples are a busy line in `Send`, an unknown command code in `ApplyToUnit`, and a missing key in `Flush`. The callers stop where the exception would propagate.
- SavedData.UnitSavedData.Flush: the `KeyNotFoundException` of a missing key (RepairControlDb/UnitSavedData.cs:41) is unhandled on the background thread started at RepairControlDb/UnitSavedData.cs:29. Under the .NET 2.0 and later policy for unhandled exceptions on any thread, that terminates the whole process. The model does not capture process termination: it records only a dead worker (`WorkerAlive` false, so a later pass saves nothing), while the bus keeps running.
- Codec: the checksum is a function of the bytes it covers. The source calls `Calculate(len)` on the whole (len+2)-byte output array (RepairControl/Command.cs:143) and on a len-byte copy in the parser (RepairControl/Command.cs:176); the model assumes `Calculate` reads only the first len bytes in both places.
- Bus.Unit.HandleSet: the `ResistorValueString` display and the `PropertyChanged` notifications are not modelled.
