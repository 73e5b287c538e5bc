# SMA Sunny Boy Modbus → OPC UA gateway, modelled in Dafny

The gateway polls an SMA Sunny Boy inverter over Modbus TCP and publishes each
configured register as an OPC UA variable node. Every entry of the mapping
table names a register address, a data type (`U16`, `S16`, `U32`, `S32`,
`U64`), a poll interval and an OPC UA node id. The newer `src/` tree adds a
format per entry (`FIXn`, `ENUM`, `FW`, `DT`/`TM`, `Duration`, `TEMP`) that
turns the raw register value into a typed OPC UA value. The legacy tree at the
repository root multiplies the value by a float scale factor instead.

This project models the sequential core of both trees:

- `registers.dfy` (`Registers`): 16-bit words, big-endian reassembly of 1, 2
  or 4 words, and the `int16_t` / `int32_t` / `uint32_t` casts.
- `text.dfy` (`Text`): `%x` and `%d` rendering of a number, and `atoi`.
- `config.dfy` (`Config`): the mapping records of `include/config.h` and
  `config.h`, and the `strcmp` / `strncmp` dispatch on data type and format text.
- `decoder.dfy` (`Decoder`): `process_modbus_value_formatted`. It covers
  reassembly, the SMA "NaN" sentinels, the NULL-format check, and each format
  branch. That includes the FIXn scale loop, the firmware string, and OPC UA
  DateTime ticks (100 ns since 1601-01-01).
- `legacy_decoder.dfy` (`LegacyDecoder`): the legacy `process_modbus_value`.
- `modbus_client.dfy` (`ModbusClient`): `read_modbus_data` of both clients.
  This covers the register count, the Read Input Registers request (function
  code 0x04), and the 0 / -1 / -2 return code. It also covers
  `modbus_tcp_connect`, where every failure after creation frees the context.
- `opcua_server.dfy` (`OpcuaServer`): the shutdown flag set by `stop_handler`,
  the access-control choice, and the node datatype chosen from the format.
  It also has the address space `add_opcua_nodes` builds and the typed and
  float node writes.
- `gateway.dfy` (`Gateway`): the run loop of `src/main.c`. It has the
  per-mapping `next_poll_times` array, the connection that is present or
  absent, one pass over the mappings per iteration that can end early, and the
  ENUM label lookup.
- `legacy_gateway.dfy` (`LegacyGateway`): the run loop of the legacy `main.c`.

The run loops are classes whose methods update the due-time array (an
`array<int>`), the connection, the OPC UA address space and an event log in
place. Each method is proved against a specification function on values:
`TickStep` for one loop iteration and `RunUpTo` for the first k iterations.
The program's promises are lemmas about those functions.

Everything outside the program is an input:

- the clock reading of each iteration;
- whether the shutdown flag is seen at each check;
- the outcome of creating and connecting a Modbus context;
- the device's reply to each read.

A `Tick` bundles these for one loop iteration and a `Probe` for one mapping
visit (`LegacyTick` and `LegacyProbe` in the legacy loop). Floats are exact
reals.

## Model

| member | source | states |
|---|---|---|
| Registers.BigEndian | src/main.c:55-61 | reassembling n words gives a value below 2^(16n) |
| Registers.BigEndianOfToWords | src/main.c:55-61 | splitting a value into n words and reassembling them gives the value back |
| Registers.ToWordsOfBigEndian | src/main.c:55-61 | reassembling words and splitting the result gives the same words back |
| Registers.BigEndianInjective | src/main.c:55-61 | different register contents of the same length give different raw values |
| Registers.BigEndianTwo | src/main.c:54-59 | a U32/S32 raw value is w0·2^16 + w1 |
| Registers.BigEndianFour | src/main.c:60-62 | a U64 raw value is w0·2^48 + w1·2^32 + w2·2^16 + w3 |
| Registers.Low32 | src/main.c:106 | the `uint32_t` cast is below 2^32 and leaves a value below 2^32 unchanged |
| Registers.AsInt16 | main.c:47-49 | the `int16_t` cast lies in [-2^15, 2^15), agrees with the word modulo 2^16, and is negative iff the top bit is set |
| Registers.AsInt32 | main.c:55-58 | the `int32_t` cast lies in [-2^31, 2^31), agrees with the value modulo 2^32, and is negative iff the top bit is set |
| Registers.AsInt32Injective | src/main.c:101 | two different 32-bit values never cast to the same Int32 |
| Config.ParseDataType | src/main.c:48-66 | a data type is recognised iff it is U16, S16, U32, S32 or U64 |
| Config.ParseFormat | src/main.c:79-154 | FIXn is chosen iff the text starts with "FIX"; an unrecognised format keeps its text |
| Config.ParseFormatFix | src/main.c:79-84 | "FIX" followed by the decimal digits of n selects n places |
| Text.DigitValueOfChar | src/main.c:120 | every digit below 16 prints as a lowercase hex character that reads back as the same digit |
| Text.Render | src/main.c:120 | `%x` / `%d` print at least one digit of the radix, with a leading '0' only for zero |
| Text.ParseRender | src/main.c:120 | reading the printed digits back gives the number |
| Text.RenderInjective | src/main.c:120 | different numbers print differently |
| Text.AtoiOfDigits | src/main.c:83 | `atoi` of a digit run followed by a non-digit is the run's value |
| Text.AtoiOfDec | src/main.c:83 | `atoi` of the decimal text of n, followed by a non-digit, is n |
| Text.AtoiOfNegativeDec | src/main.c:83 | `atoi` of "-" and the decimal text of n is -n |
| Text.AtoiNoDigits | src/main.c:82-84 | `atoi` of text that starts with no sign, space or digit is 0 |
| Decoder.RawValue | src/main.c:48-62 | the raw value fits the width of its type |
| Decoder.RawValueLayout | src/main.c:48-62 | U16/S16 use w0 only; U32/S32 and U64 reassemble big-endian |
| Decoder.RawValueReadsPrefix | src/main.c:48-62 | only the registers the type occupies affect the raw value |
| Decoder.SentinelWords | src/main.c:18-22 | the NaN check fires exactly on 0xFFFF, 0x8000, FFFF FFFF, 8000 0000 and four 0xFFFF words, per type |
| Decoder.Prepare | src/main.c:41-76 | a value goes on to the format step only for a recognised type, and its raw value fits that type |
| Decoder.DecodeRejectsIff | src/main.c:63-76 | the decoder fails iff the type is unsupported, the raw value is the type's sentinel, or the format is NULL, with the sentinel checked first; otherwise it succeeds |
| Decoder.DecodeReadsPrefix | src/main.c:48-62 | the result depends only on the registers the type occupies |
| Decoder.FixScale | src/main.c:85-88 | the scale loop yields 10^-n, and 1 when n ≤ 0 |
| Decoder.FixValue | src/main.c:91-95 | corrected FIXn: the value times 10^n is the register value, two's complement for S16/S32 |
| Decoder.DecodeFix | src/main.c:79-96 | a FIXn mapping decodes to the corrected FIX value, and as written to the unsigned reading |
| Decoder.FixSign | src/main.c:91-95 | the corrected FIX value is negative iff the type is S16/S32 and the sign bit is set |
| Decoder.FixAsWrittenNeverNegative | src/main.c:91-92 | the FIX branch as written never yields a negative value |
| Decoder.FixSignExtensionFinding | src/main.c:91-92 | registers FFFF CFC7 read as S32 with FIX2 give 42949549.51 as written and -123.45 corrected |
| Decoder.AsWrittenDiffersOnlyOnSignedFix | src/main.c:79-154 | the as-written decoder differs from the corrected one iff the format is FIXn and the signed reading is negative |
| Decoder.EnumInverse | src/main.c:98-102 | ENUM yields an Int32 that agrees with the raw value modulo 2^32 |
| Decoder.FwBytes | src/main.c:106-110 | major, minor and build are bytes, and the four bytes recompose the low 32 bits |
| Decoder.FirmwareRoundTrip | src/main.c:104-124 | reading the firmware string back gives major, minor, build and the release letter |
| Decoder.FirmwareStringDistinguishes | src/main.c:104-124 | equal firmware strings have equal major, minor, build and release letter |
| Decoder.FirmwareExample | src/main.c:104-124 | 0x01020304 prints as "1.2.3.R" |
| Decoder.FirmwareExampleHex | src/main.c:120 | major and minor print in lowercase hex and build in decimal: 0xFF0B1E03 prints as "ff.b.30.B" |
| Decoder.DateTimeTicks | src/main.c:126-131 | DT/TM ticks fit in int64 |
| Decoder.DateTimeTicksInverse | src/main.c:128-130 | DT/TM ticks are whole seconds, and the Unix time they encode is the low 32 bits of the raw value |
| Decoder.DateTimeTicksMonotone | src/main.c:128-130 | DT/TM ticks strictly increase with the low 32 bits |
| Decoder.DateTimeInverse | src/main.c:126-131 | DT and TM yield a non-negative int64 DateTime that encodes the low 32 bits |
| Decoder.ScaledFormatsInverse | src/main.c:133-154 | Duration is raw × 1000, TEMP is raw × 0.1 (two's complement only for S32), and an unknown format is raw |
| Decoder.FormatExamples | src/main.c:133-147 | 5 s is 5000 ms; TEMP FFFFFF6A as S32 is -15.0, but FF6A as S16 is 6538.6 |
| Decoder.VariantTypeByFormat | src/main.c:79-154 | ENUM yields Int32, FW yields String, DT/TM yield DateTime, and every other format yields Float |
| LegacyDecoder.ProcessValueFailsIff | main.c:43-69 | the decoder fails iff the type is unsupported (FLOAT32 included) or the value is the type's sentinel, and then leaves the output untouched |
| LegacyDecoder.ProcessValueScales | main.c:44-63 | on success the output is the interpreted integer times the scale |
| LegacyDecoder.ProcessValueInverse | main.c:44-63 | on success, dividing by a non-zero scale gives back the integer, which determines the words |
| LegacyDecoder.ProcessValueReadsPrefix | main.c:44-63 | only the registers the type occupies affect the result |
| LegacyDecoder.InterpretWraps | main.c:47-58 | the signed or unsigned reading agrees with the reassembled words modulo the type's span |
| LegacyDecoder.InterpretDeterminesWords | main.c:47-58 | the integer read determines the registers it came from |
| LegacyDecoder.SignedExamples | main.c:47-58 | S32 FFFF CFC7 × 0.01 is -123.45, and S16 FF6A × 0.1 is -15.0 |
| ModbusClient.RegisterCount | src/modbus_client.c:42-47 | S32/U32 read 2 registers, U64 reads 4, and any other type reads 1 |
| ModbusClient.LegacyRegisterCount | modbus_client.c:42-47 | the legacy client also reads 2 registers for FLOAT32 |
| ModbusClient.RegisterCountMatchesDecoders | src/modbus_client.c:42-47 | every supported type reads exactly the registers its decoder uses; the two clients differ only on FLOAT32 |
| ModbusClient.LegacyFloat32NeverDecoded | modbus_client.c:43 | a FLOAT32 mapping is read as 2 registers but never decoded by the legacy decoder |
| ModbusClient.ReturnCode | src/modbus_client.c:70-79 | 0 iff the read succeeded; -2 iff it failed with EINTR while shutdown was requested; -1 otherwise |
| ModbusClient.ReadInputRegisters | src/modbus_client.c:50-53 | on success the first count registers of the buffer hold the reply; on failure they are unchanged; the rest of the buffer is never touched |
| ModbusClient.ReadModbusData | src/modbus_client.c:41-80 | sends the request for the data type and returns its code, filling the buffer only on success |
| ModbusClient.LegacyReadModbusData | modbus_client.c:41-60 | the same, with the legacy register count |
| ModbusClient.ConnectErrorLogged | src/modbus_client.c:14-35 | only a connect interrupted by shutdown fails silently; the connect succeeds iff the context was created and connected |
| ModbusClient.Context.constructor | src/modbus_client.c:13 | a new context is neither connected nor freed |
| ModbusClient.TcpConnect | src/modbus_client.c:12-39 | the result is non-null iff the connect succeeded, with the configured slave id and a timeout of whole seconds; every failure after creation frees the context; errors are logged except on the interrupted path |
| ModbusClient.Close | src/main.c:283-285 | the context is closed and freed |
| OpcuaServer.AfterSignalsMeaning | src/opcua_server.c:8-22 | shutdown is requested iff some signal was handled, and the reported signal is the latest one, or 0 before any |
| OpcuaServer.FlagMonotone | src/opcua_server.c:11-18 | once requested, shutdown stays requested whatever signals follow |
| OpcuaServer.ShutdownFlag.constructor | src/opcua_server.c:8-9 | both statics start at zero |
| OpcuaServer.ShutdownFlag.StopHandler | src/opcua_server.c:11-14 | the handler records the signal number and sets the flag |
| OpcuaServer.ShutdownFlag.ShutdownRequested | src/opcua_server.c:16-18 | the flag is set iff some signal has been handled |
| OpcuaServer.ShutdownFlag.ShutdownSignal | src/opcua_server.c:20-22 | the most recently handled signal number, or 0 if none |
| OpcuaServer.ConfigureAccess | src/opcua_server.c:49-63 | user/password access is set up iff the username is present and non-empty and the password is present (an empty password is allowed), using exactly those credentials |
| OpcuaServer.InitialValue | src/opcua_server.c:78-114 | a node's initial value has its declared type |
| OpcuaServer.NewNode | src/opcua_server.c:71-114 | a created node is read-only, named after the mapping, typed by the mapping's format, and holds a value of that type |
| OpcuaServer.FormatSelectsType | src/opcua_server.c:78-114 | ENUM is Int32, FW is String, DT/TM is DateTime, and Duration, FIXn, TEMP, any other format and no format are Float |
| OpcuaServer.AddAllKeeps | src/opcua_server.c:68-119 | adding nodes keeps the existing ones and leaves every node read-only and holding a value of its type |
| OpcuaServer.AddAllDomain | src/opcua_server.c:68-119 | after adding, the server has a node for every mapping, and only existing or mapped ids |
| OpcuaServer.AddAllFirstWins | src/opcua_server.c:68-119 | the node under an id is the one created for the first mapping with that id |
| OpcuaServer.AddressSpace.constructor | src/opcua_server.c:44 | a new server has no nodes |
| OpcuaServer.AddressSpace.AddNodes | src/opcua_server.c:68-119 | add_opcua_nodes adds the mappings' nodes in table order |
| OpcuaServer.AddressSpace.WriteValue | src/opcua_server.c:124 | a write to a known node with a value of its type succeeds and changes only that node's value; any other write changes nothing |
| OpcuaServer.AddressSpace.UpdateTyped | src/opcua_server.c:122-125 | the typed update writes to the node `add_opcua_nodes` created for the mapping |
| OpcuaServer.AddressSpace.UpdateFloat | src/opcua_server.c:127-133 | the float update writes a Float to the mapping's node |
| OpcuaServer.DecodedTypeMatchesNode | src/opcua_server.c:78-114 | every value the decoder produces (corrected or as written) has the type of its mapping's node |
| OpcuaServer.TypedWriteAccepted | src/opcua_server.c:122-125 | writing a decoded value to a freshly built server succeeds when no earlier mapping has the same node id |
| Gateway.EnumLabelMeaning | src/main.c:253-260 | the label is that of the first entry with the value, or "Unknown" when none has it |
| Gateway.LookupEnumLabel | src/main.c:254-260 | the lookup loop returns that label |
| Gateway.PassEndFrom | src/main.c:230-289 | a pass either completes or ends at a mapping where it stops |
| Gateway.PassEndMeaning | src/main.c:230-289 | before the end every mapping saw no shutdown, and a due one read successfully; the pass ends on a shutdown check, an interrupted read (-2) or a failed read (-1) at a due mapping |
| Gateway.NoStopBefore | src/main.c:230-289 | without a stop before mapping i, the pass ends as it would starting from i |
| Gateway.NoStopUntilEnd | src/main.c:230-289 | no mapping before the end of the pass stops it |
| Gateway.NextAfterPass | src/main.c:234-238 | the pass keeps one due time per mapping |
| Gateway.NextAfterPassMeaning | src/main.c:234-238 | a polled mapping's due time becomes now + interval, even when its read fails; others keep theirs; before the end, polled means due; after the stop, nothing is polled |
| Gateway.PolledNotDueAgain | src/main.c:238 | a polled mapping with a positive interval is not due again before now + interval |
| Gateway.FirstPassAllDue | src/main.c:194 | with the zeroed due times and a non-negative clock, every mapping the first pass reaches is polled |
| Gateway.DecodedPublication | src/main.c:240-279 | a read is published iff it decodes; the publication goes to the mapping's node and carries the decoded value, of the node's type, with the ENUM label logged for it |
| Gateway.PublicationsAreDecoded | src/main.c:242-274 | every publication of a pass comes from a polled mapping with a successful, decodable read, carries its decoded value, label, node and node type |
| Gateway.PublicationsInOrder | src/main.c:242-274 | publications of a pass come in mapping order, at most one per mapping |
| Gateway.PublicationsComplete | src/main.c:242-274 | every polled mapping with a successful, decodable read is published with its decoded value and label |
| Gateway.ApplyWritesKeepsTypes | src/main.c:274 | publishing keeps the set of nodes and their declared types |
| Gateway.PublicationsAccepted | src/main.c:274 | with distinct node ids, every publication of a pass is accepted by the server |
| Gateway.AfterPass | src/main.c:228-289 | the state after one pass on an open connection keeps one due time per mapping; TickPassed and PollPass give its content |
| Gateway.TickStep | src/main.c:217-292 | one loop iteration keeps one due time per mapping; TickStopped, TickConnectFailed and TickPassed give its cases |
| Gateway.RunUpTo | src/main.c:217-293 | the first k iterations keep one due time per mapping; RunOrdered and StoppedStays give its properties |
| Gateway.TickStopped | src/main.c:217 | an iteration that sees shutdown at its head stops and changes nothing |
| Gateway.TickConnectFailed | src/main.c:218-225 | a failed reconnect logs the attempt, then stops if shutdown is now requested, else backs off 5 s |
| Gateway.TickPassed | src/main.c:218-289 | with a connection (kept or new), the iteration makes one pass |
| Gateway.TickOrdered | src/main.c:217-293 | one iteration keeps the event history well ordered |
| Gateway.RunOrdered | src/main.c:217-293 | over any run, connects happen only when disconnected, back-offs follow failed connects, passes are made only on a connection, and the connection state is what the history implies |
| Gateway.FirstEventIsAttempt | src/main.c:218-219 | a run that starts without a connection begins with a connect attempt |
| Gateway.ReconnectAfterReadFailure | src/main.c:282-288 | a pass ended by a failed read is followed by a connect attempt |
| Gateway.StoppedStays | src/main.c:217 | once the loop has stopped, nothing changes any more |
| Gateway.RunEndsStopped | src/main.c:217 | a run whose last iteration sees shutdown ends stopped |
| Gateway.InitialState | src/main.c:194 | the loop starts with one due time per mapping, no connection, and nothing published |
| Gateway.Gateway.constructor | src/main.c:179-194 | start-up: zeroed due times, a server holding the mappings' nodes, and no connection |
| Gateway.Gateway.PollMapping | src/main.c:238-279 | sets the mapping's due time to now + interval before the read, returns the read code, and publishes the value iff it decodes |
| Gateway.Gateway.VisitMapping | src/main.c:231-288 | one visit: the stop it causes, its due time, its publication; a failed read closes and drops the connection |
| Gateway.Gateway.PollLoop | src/main.c:230-289 | the for loop stops at the first stopping mapping; the due times up to it follow the pass and the later ones are unchanged |
| Gateway.Gateway.PollPass | src/main.c:228-289 | a pass matches the pass function: its end, due times, publications and node values; only a failed read drops the connection |
| Gateway.Gateway.Reconnect | src/main.c:218-219 | a reconnect records the attempt, and a connection exists iff it succeeded |
| Gateway.Gateway.PassTick | src/main.c:228-289 | the pass of an iteration, recorded in the event history |
| Gateway.Gateway.Iterate | src/main.c:217-292 | one loop iteration matches the iteration function; every dropped context is freed |
| Gateway.Gateway.RunLoop | src/main.c:217-293 | the while loop reaches the stopped state the run function gives |
| Gateway.Gateway.Advance | src/main.c:217-292 | one iteration of the while loop moves the state from the k-th to the (k+1)-th state of the run, and every dropped context is freed |
| Gateway.Gateway.Run | src/main.c:217-316 | the loop ends stopped in the state the run function gives, then closes any connection and exits with success; every context it made is freed |
| Gateway.Serve | src/main.c:183-316 | exits with success iff server start-up and the due-time allocation succeed; then the final state is that of the run and its history is well ordered |
| LegacyGateway.PassEndFrom | main.c:125-153 | a legacy pass either completes or ends at a due mapping whose read failed |
| LegacyGateway.PassEndMeaning | main.c:125-153 | before the end every due mapping read successfully, and the end is a failed read of a due mapping |
| LegacyGateway.NoFailureBefore | main.c:125-153 | without a failure before mapping i, the pass ends as it would starting from i |
| LegacyGateway.NoFailureUntilEnd | main.c:145-152 | no mapping before the end of the pass fails |
| LegacyGateway.NextAfterPass | main.c:127-132 | the pass keeps one due time per mapping |
| LegacyGateway.NextAfterPassMeaning | main.c:127-132 | a polled mapping's due time becomes now + interval, even when its read fails; up to the end, polled means due; after a failure, nothing is polled |
| LegacyGateway.FirstPassAllDue | main.c:107 | with the zeroed due times and a non-negative clock, every mapping the first pass reaches is polled |
| LegacyGateway.OutcomeOf | main.c:135-144 | a visit writes a value iff the read succeeded and the value decodes |
| LegacyGateway.WritesAreDecoded | main.c:135-144 | every write of a pass comes from a polled mapping with a successful read, carries its decoded value and node, and writes come in mapping order |
| LegacyGateway.WritesComplete | main.c:135-144 | every polled mapping with a successful, decodable read is written |
| LegacyGateway.AfterPass | main.c:123-153 | the state after one legacy pass keeps one due time per mapping; TickPassed and PollPass give its content |
| LegacyGateway.TickStep | main.c:113-158 | one legacy loop iteration keeps one due time per mapping; TickStopped, TickConnectFailed and TickPassed give its cases |
| LegacyGateway.RunUpTo | main.c:113-159 | the first k legacy iterations keep one due time per mapping; RunOrdered, RunBacksOff and StoppedStays give its properties |
| LegacyGateway.TickStopped | main.c:113 | an iteration that sees `running` false stops and changes nothing |
| LegacyGateway.TickConnectFailed | main.c:114-120 | a failed reconnect always backs off 5 s, with no shutdown check |
| LegacyGateway.TickPassed | main.c:114-153 | with a connection (kept or new), the iteration makes one pass |
| LegacyGateway.TickOrdered | main.c:113-159 | one iteration keeps the event history well ordered |
| LegacyGateway.RunOrdered | main.c:113-159 | over any run the history is well ordered and matches the connection state |
| LegacyGateway.RunBacksOff | main.c:114-121 | every failed connect is immediately followed by a 5 s back-off |
| LegacyGateway.StoppedStays | main.c:113 | once the loop has stopped, nothing changes any more |
| LegacyGateway.RunEndsStopped | main.c:113 | a run whose last iteration sees `running` false ends stopped |
| LegacyGateway.InitialState | main.c:107 | the loop starts with one due time per mapping, no connection and no writes |
| LegacyGateway.LegacyGateway.constructor | main.c:92-107 | start-up: zeroed due times, no connection, no writes |
| LegacyGateway.LegacyGateway.PollMapping | main.c:127-144 | sets the due time before the read, returns the read code, and writes the value iff the read succeeds and decodes |
| LegacyGateway.LegacyGateway.VisitMapping | main.c:127-152 | one visit: whether it fails, its due time and its write; a failure closes and drops the connection |
| LegacyGateway.LegacyGateway.PollLoop | main.c:125-153 | the for loop stops at the first failing mapping; later due times are unchanged |
| LegacyGateway.LegacyGateway.PollPass | main.c:123-153 | a pass matches the pass function: its end, due times and writes |
| LegacyGateway.LegacyGateway.Reconnect | main.c:114-115 | a reconnect records the attempt, and a connection exists iff it succeeded |
| LegacyGateway.LegacyGateway.PassTick | main.c:123-153 | the pass of an iteration, recorded in the event history |
| LegacyGateway.LegacyGateway.Iterate | main.c:113-158 | one loop iteration matches the iteration function; every dropped context is freed |
| LegacyGateway.LegacyGateway.RunLoop | main.c:113-159 | the while loop reaches the stopped state the run function gives |
| LegacyGateway.LegacyGateway.Advance | main.c:113-158 | one iteration of the while loop moves the state from the k-th to the (k+1)-th state of the run, and every dropped context is freed |
| LegacyGateway.LegacyGateway.Run | main.c:113-174 | the loop ends stopped in the state the run function gives, then closes any connection and exits with success |
| LegacyGateway.LegacyServe | main.c:96-174 | exits with failure iff server start-up fails; a failed due-time allocation skips the loop but still exits with success; the history is well ordered and backs off after every failed connect |

## Left out

- Gateway.DecodedPublication, Gateway.Gateway.PollMapping: publish the
  corrected FIX value, sign-extended for S16 and S32, where the program as
  written (src/main.c:91-92) publishes the unsigned reading. Gateway.Gateway.PollPass,
  Gateway.Gateway.Iterate, Gateway.Gateway.Run and Gateway.Serve inherit this.
  `Decoder.DecodeFormattedAsWritten` models the written behaviour, and
  `Decoder.AsWrittenDiffersOnlyOnSignedFix` states exactly which readings the
  two publish differently (see "## Findings").
- Floating point: FIX, TEMP, Duration and the legacy scale factor are exact
  reals. The single-precision rounding of the `float` results and of the
  `0.1f` factors is not modelled.
- Integer widths of the surrounding code: the clock and `next_poll_times` are
  unbounded integers, so the `int64_t` overflow of `now + poll_interval_ms` is
  not modelled. `atoi` is not cut to `int`.
- The clock is a free input per iteration, read with `gettimeofday`. No
  monotonicity is assumed, because the code does not assume it either.
- Log messages are not modelled as text. The model keeps only what they
  record: the ENUM label, whether an error is logged on connect, and the
  published values.
- libmodbus and open62541 are inputs or small models.
  - A `Device` answers each read.
  - A `ConnectEnv` gives the outcome of `modbus_new_tcp` and `modbus_connect`.
  - The address space is a map from node id to node, with the write status
    rules `UA_Server_writeValue` applies. Parent nodes, browse names and
    attributes other than datatype, access level and value are left out.
- ModbusClient.ReadInputRegisters: assumes the library returns exactly the
  requested number of registers on success.
- Signal delivery is asynchronous in the program. The model sees the flag only
  as the value each shutdown check reads. The flag's own monotonicity is proved
  in `OpcuaServer`, but the run-loop inputs are not forced to agree with it.
- `UA_Server_run_iterate`, `usleep(100 ms)` and `sleep(5)` are not modelled.
  A back-off is only recorded as an event.
- Gateway.Gateway.Run, Gateway.Serve, LegacyGateway.LegacyGateway.Run and
  LegacyGateway.LegacyServe cover only runs that end. The inputs must end with
  an iteration that sees shutdown, so a run that never stops is not modelled.
- The final log line with the signal number (src/main.c:296-301) is not
  modelled. The signal number itself is `OpcuaServer.ShutdownFlag.ShutdownSignal`.
- Configuration loading (src/config_parser.cpp), `logger_init` and the
  command-line check are left out. Their failures exit before the part
  modelled here, and the mapping table is a given value.
- `usernamePasswordLogin` (src/opcua_server.c:30-38) is never registered, so
  it is not modelled. Access control is only the choice `ConfigureAccess` makes.
- The root opcua_server.c is not part of this model. The legacy loop records
  its float writes as a list of `Write`s instead of an address space.
- The register buffer `regs[4]` is left uninitialised by the program. In the
  legacy model it is padded with zeros past the registers read. No supported
  type reads past its register count, so the padding never affects a result
  (`LegacyDecoder.ProcessValueReadsPrefix`).
- TEMP on S16 is read unsigned, as written (src/main.c:142-145). The model
  keeps this and does not treat it as an error.
- A data type that is not recognised, including FLOAT32, is rejected before any
  format is applied, as the code does.

## Findings

| source | as written | input that shows it | evidently intended | confidence | as-written member | corrected member |
|---|---|---|---|---|---|---|
| src/main.c:91-92 | for S16/S32, FIXn casts the zero-extended `uint64_t` raw value to `int64_t`, so a negative register value is scaled as a large positive number | registers 0xFFFF 0xCFC7, data type S32, format FIX2: 4294954951 × 0.01 = 42949549.51 | the two's complement value -12345 × 0.01 = -123.45, as the legacy decoder computes for the same registers | not executed | Decoder.FixSignExtensionFinding | Decoder.FixValue |

The as-written branch is `Decoder.FixValueAsWritten`, used by
`Decoder.DecodeFormattedAsWritten`. `Decoder.FixAsWrittenNeverNegative` shows
it never produces a negative value. `Decoder.AsWrittenDiffersOnlyOnSignedFix`
shows the two decoders differ exactly on FIX with a negative signed reading.
The run loop publishes the corrected `Decoder.DecodeFormatted`.
