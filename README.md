# SCI protocol core in Dafny

This project models the core of SCI, an ASCII request/response protocol between a host and an embedded device. Frames travel between the control characters STX (0x02) and ETX (0x03). A request reads `<number><kind>[v1,v2,...]` and an answer `<number><kind><designator>[;len][;v1,v2,...]`. The kind characters are `?` (GETVAR), `!` (SETVAR), `:` (COMMAND), `>` (UPSTREAM) and `<` (DOWNSTREAM). All numbers and values travel as upper-case hex digits, so only the hex value mode is modelled.

Several generations of the same modules coexist in the repository. Each one is modelled on its own, as written:

- `Base`, `Bits`, `Protocol`: fixed-width integer types with explicit wrap-around, integer bit operations, and the protocol's tables: identifier characters, the designators `ACK DAT UPS ERR NAK`, and the byte widths `{1,1,2,2,4,4,4}`.
- `HexCodec` (Helpers.c): `strToHex` and `hexToStr` as methods over buffers. They are proved against the reference reading `HexValue` and the text `HexText`, including the round trip.
- `Text`: Python's `split`/`join`, the "write over a buffer" view `Overlay`, and the comma-separated value scan that the three C request parsers share.
- `Fifo` (Buffer.c): the `FIFO_BUF` class, with its index/space invariant.
- `Datalink` (Datalink.c): the byte-wise receive and debug-activation state machine and the transmit state machine, as a class. Each method is proved against a pure step function, about which the framing lemmas are proved.
- `Values`: the value packer shared by `_SCIFillBufferWithValues` and `fillBufferWithValues`, and the per-field value conversion of the request parsers.
- `SlaveDataframe` (C/Slave/Src/SCISlaveDataframe.c), `MidSci` (Src/SCI.c), `OldSci` (SCI.c): the request parsers and response builders of the three generations.
- `SlaveTransfer` (C/Slave/Src/SCISlaveTransfer.c), `OldCommands` (SCICommands.c): request execution and the multi-packet response control.
- `VarStore`: the variable table, the EEPROM word layout (split and reassembly, with the round trip) and the start-up pass that assigns EEPROM addresses. It holds what the VarAccess generations share. `SlaveVarAccess` models C/Slave/Src/VarAccess.c, whose shared functions are identical in Src/VarAccess.c. `MidVarAccess` models Src/VarAccess.c where it differs, and `OldVarAccess` models VarAccess.c.
- `MasterTransfer` (C/Master/Src/SCIMasterTransfer.c): the master's accumulator of multi-frame results and upstreams, with callbacks recorded as an event log.
- `HostDriver` (Python/SCI.py) and `LegacyHost` (Python/SerialProtocol.py): the two host drivers. The serial port is a list of replies still to come, and the writes are a log.

Callbacks are modelled in one of two ways. Some are parameters: the EEPROM, the command table's result, the busy and transmit answers, and allocation success. The others appear as recorded calls: action procedures, debug functions, the frees, and the master's result callbacks. Where the source has a defect, the model keeps the code as written in a member of its own, exhibits the defect in a lemma, and builds the rest of the model on the corrected member (see "## Findings").

Two behaviours of the middle generation's parser are modelled as written and have no corrected member. `commandParser` (Src/SCI.c:170-200) returns at the first byte that is not an identifier. So a request is accepted only when its identifier is at offset 0, and its number is always 0 (`MidSci.ParsedNumberIsZero`, `MidSci.NumberedPollRefused`).

## Model

| member | source | states |
|---|---|---|
| Base.ToInt8 | Helpers.c:144-147 | the `int8_t` a count is stored in: congruent to it modulo 256, and equal to it when in range |
| Base.ToInt16 | C/Slave/Src/SCISlaveDataframe.c:99 | the `int16_t` reinterpretation of the low 16 bits: congruent modulo 65536, unchanged in range |
| Base.ToUint8 | Buffer.c:34 | the `uint8_t` truncation: congruent modulo 256, unchanged in range |
| Base.ToUint16 | C/Slave/Src/SCISlaveDataframe.c:168 | the `uint16_t` truncation: congruent modulo 65536, unchanged in range |
| Base.ToUint32 | C/Master/Src/SCIMasterTransfer.c:110 | the `uint32_t` wrap-around of a counter: congruent modulo 2^32, unchanged in range |
| Protocol.IdCharRoundTrip | C/Slave/Src/SCISlaveDataframe.c:30-80 | the identifier written for each kind is the one the parser reads back as that kind; the UNKNOWN identifier '#' is never accepted |
| Protocol.TypeOfIdInverse | C/Common/Inc/SCITransferCommon.h:23-28 | every accepted identifier character is the table entry of the kind it maps to |
| Protocol.Designator | C/Slave/Src/SCISlaveDataframe.c:29 | every designator is three characters long, indexed by the acknowledge code |
| Protocol.ByteLength | Src/SCI.c:37 | every width is 1, 2 or 4 bytes |
| HexCodec.StrToHex | Helpers.c:136-184 | the flag and value `strToHex` returns are those of `StrToHexSpec` on the text before the NUL, and the value fits 32 bits |
| HexCodec.CountChars | Helpers.c:143-147 | the counting loop finds the length before the NUL and keeps it in an `int8_t` |
| HexCodec.ScanDigits | Helpers.c:168-181 | the right-to-left digit loop computes the scan `Scanned` of the counted characters |
| HexCodec.StrToHexShortStrings | Helpers.c:168-181 | for 1 to 8 characters, accepted exactly when all are digits '0'-'9' or 'A'-'F', with value the positional sum of the digits (lower case refused) |
| HexCodec.StrToHexEmptyAndLong | Helpers.c:149-166 | the empty text reads as valid 0; 9 or more characters are refused with value 0 |
| HexCodec.StrToHexBound | Helpers.c:136-184 | whatever is left in the 32-bit output fits 32 bits |
| HexCodec.HexToStr | Helpers.c:187-219 | writes exactly `HexText(v)` at the offset, leaves the rest of the buffer alone, and returns its length, between 1 and 8 |
| HexCodec.TopNibble | Helpers.c:193-203 | finds the highest nonzero nibble (-1 for zero), whose index plus one is the length of the text |
| HexCodec.WriteDigits | Helpers.c:205-216 | writes one digit per nibble, highest first, over exactly the text's cells |
| HexCodec.HexTextAllHex | Helpers.c:187-219 | the text written for a value is all digits and reads back, positionally, as that value |
| HexCodec.HexTextNoLeadingZero | Helpers.c:201-206 | the text starts with '0' only for zero, which is the single digit "0" |
| HexCodec.HexTextDigits | Helpers.c:205-216 | with `len` significant nibbles, the text is their digits, highest first |
| HexCodec.HexTextAtMostEight | Helpers.c:193-203 | a 32-bit value never needs more than 8 digits |
| HexCodec.HexRoundTrip | Helpers.c:136-219 | `strToHex` of the text `hexToStr` writes for any 32-bit value is valid and that value |
| HexCodec.ScannedAllHex | Helpers.c:168-181 | scanning the last `c` digits of an all-digit text is valid with their positional value |
| HexCodec.ScannedInvalid | Helpers.c:176-179 | one non-digit among the characters scanned makes the result invalid |
| HexCodec.ScannedStops | Helpers.c:168-181 | once the scan has failed, further rounds change nothing |
| HexCodec.FacbText | C/Test/UnitTests.c:75 | the text of 0xFACB3B03 is "FACB3B03" |
| Text.SplitJoin | Python/SCI.py:100 | splitting a join of separator-free fields gives the fields back |
| Text.JoinSplit | Python/SCI.py:111 | joining the fields of a split gives the text back |
| Text.SplitFieldsFree | Python/SCI.py:123 | no field of a split contains the separator |
| Text.ScanFields | C/Slave/Src/SCISlaveDataframe.c:111-156 | the value scan of the C parsers gives the first `maxCount` fields of the text after the identifier split at ',' (the same loop as Src/SCI.c:235-280 and SCI.c:212-252) |
| Text.NextField | C/Slave/Src/SCISlaveDataframe.c:118-127 | one round of the scan collects the next field and says whether the end was reached |
| Text.WriteText | C/Slave/Src/SCISlaveDataframe.c:212 | `memcpy` of text writes it at the offset and nothing else |
| Text.Emit | C/Slave/Src/SCISlaveDataframe.c:179 | a pointer write appends its text right behind what is already written |
| Fifo.FifoBuf.PutElem | Buffer.c:18-29 | with room: one less space, the index one up, the byte appended to the contents, the rest of the array unchanged; without room: only the overflow flag is set; the invariant is kept |
| Fifo.FifoBuf.ReadBuf | Buffer.c:32-41 | returns idx+1 as a byte, which is the number of bytes stored, points at the start, and changes nothing |
| Fifo.FifoBuf.FlushBuf | Buffer.c:44-49 | idx = -1, space = length, no overflow, empty contents; establishes the invariant |
| Fifo.FifoBuf.GetNextFreeBufSpace | Buffer.c:52-63 | succeeds exactly when there is space, pointing just behind the contents |
| Fifo.FifoBuf.IncreaseBufIdx | Buffer.c:66-79 | succeeds exactly when idx+size < length, then moves idx up and space down by size; fails without any change; keeps the invariant |
| Fifo.FifoBuf.GetActualIdx | Buffer.c:82-85 | returns the index, one less than the number of bytes stored |
| Datalink.ReceiveStep | Datalink.c:23-93 | one byte keeps the receive FIFO within its capacity |
| Datalink.ReceiveAllAppend | Datalink.c:23-93 | receiving two byte runs is receiving their concatenation |
| Datalink.ReceiveBody | Datalink.c:53-56 | inside a frame every non-framing byte is stored while there is room and raises the overflow flag otherwise; no debug function fires |
| Datalink.FrameReceived | Datalink.c:25-56 | from IDLE, STX, a payload without STX/ETX and ETX leave the frame PENDING with the payload in the FIFO, cut at its capacity, overflow raised exactly when it did not fit, and no debug call |
| Datalink.DebugActivation | Datalink.c:59-92 | between frames, 'D','b','g' and a digit call that digit's debug function when it is present, and the debug state is idle again |
| Datalink.DebugReset | Datalink.c:59-92 | a wrong byte in the activation sequence sends the debug state back to idle |
| Datalink.TxStep | Datalink.c:124-162 | a step keeps the chunk still to send inside the buffer |
| Datalink.TxRunReady | Datalink.c:124-162 | the state machine does nothing in READY |
| Datalink.TxRunFromBuffer | Datalink.c:131-156 | from SEND_BUFFER the rest of the buffer and ETX go out, from SEND_ETX only ETX |
| Datalink.FrameTransmitted | Datalink.c:108-162 | whatever the busy answers and chunk sizes, a run from SEND_STX that reaches READY has sent STX, the buffered bytes in order and ETX, and nothing else |
| Datalink.Link.Receive | Datalink.c:23-93 | one call of `receive` changes the FIFO, the frame and debug states and the debug calls as `ReceiveStep` says, and leaves the transmit side alone |
| Datalink.Link.ReceiveFraming | Datalink.c:25-56 | the frame half of `receive` |
| Datalink.Link.DebugActivationStep | Datalink.c:58-92 | the debug-activation half of `receive`, on the frame state just produced |
| Datalink.Link.Transmit | Datalink.c:108-121 | true exactly when both callbacks exist; only from IDLE does it capture the FIFO's contents and move to SEND_STX |
| Datalink.Link.TransmitStateMachine | Datalink.c:124-162 | one call of `transmitStateMachine` is `TxStep` of the busy answers and bytes sent |
| Datalink.Link.AcknowledgeTx | Datalink.c:165-168 | the transmit state goes back to IDLE and nothing else changes |
| Values.JoinHexReadBack | C/Slave/Src/SCISlaveDataframe.c:111-156 | splitting a packed list at ',' and converting each field gives the values back |
| Values.FieldValuesOfTexts | C/Slave/Src/SCISlaveDataframe.c:133-142 | converting the digit texts of values gives the values |
| Values.JoinHexNonEmpty | C/Slave/Src/SCISlaveDataframe.c:325-370 | a packed list of at least one value is not empty |
| Values.JoinHexGrows | C/Slave/Src/SCISlaveDataframe.c:325-370 | each further value lengthens the packed text |
| Values.PackValues | C/Slave/Src/SCISlaveDataframe.c:325-370 | the packing loop writes the first `k` values joined by ',' at the offset (plus the withdrawn ','), returns their length below `max`, and takes values only while their text fits (same loop as C/Slave/Src/SCISlaveTransfer.c:240-285) |
| Values.PackRound | C/Slave/Src/SCISlaveDataframe.c:336-356 | one round converts the next value and appends it and a ',' exactly when it still fits below `max` |
| Values.AppendValue | C/Slave/Src/SCISlaveDataframe.c:344-356 | the copy of one converted value and its ',' behind the text packed so far |
| Values.PackCountIs | C/Slave/Src/SCISlaveDataframe.c:325-370 | any count with the loop's stopping property is `PackCount` |
| Values.PackCountUnique | C/Slave/Src/SCISlaveDataframe.c:325-370 | the number of values taken is determined: the longest prefix whose text stays below `max` |
| Values.Pack | C/Slave/Src/SCISlaveDataframe.c:325-370 | the packing loop against `PackCount`: those values and their separators are written and counted |
| Values.EmitHex | C/Slave/Src/SCISlaveDataframe.c:191 | `hexToStrDword` through the write pointer appends the digits of the value |
| Values.ConvertFields | C/Slave/Src/SCISlaveDataframe.c:133-142 | every field is converted by `strToHex` in order, the first failure failing the list; the entries written are `Converted`, including the failing field's (same loop as Src/SCI.c:257-266) |
| Values.Stored | C/Slave/Src/SCISlaveDataframe.c:141-142 | the converted values stored from entry 0 on, the entries after them unchanged (same store as Src/SCI.c:265-266) |
| Values.WrittenValue | Helpers.c:136-184 | what `strToHex` leaves in its output for a field: its value when accepted, and whatever it had accumulated when it gave up |
| Values.Converted | C/Slave/Src/SCISlaveDataframe.c:133-142 | the entries the conversion writes: all the values when every field converts, else as many as up to and including the first failing field |
| Values.ConvertedEntries | C/Slave/Src/SCISlaveDataframe.c:141 | every written entry holds what `strToHex` wrote for its field |
| Values.ConvertedBeforeFailure | C/Slave/Src/SCISlaveDataframe.c:133-142 | on failure, the entries before the failing field are exactly the converted values of the fields before it |
| Values.FailedConversionStore | C/Slave/Src/SCISlaveDataframe.c:133-142 | after a failing conversion the array holds the earlier values, the failing field's written value, and the untouched rest (same loop as Src/SCI.c:257-266) |
| Values.ConvertField | C/Slave/Src/SCISlaveDataframe.c:133-142 | one field's `strToHex` call: accepted exactly when it converts, leaving its written value |
| Values.ConvertRoundGoes | C/Slave/Src/SCISlaveDataframe.c:133-142 | a field that converts extends both the converted list and the entries written |
| Values.ConvertRoundFails | C/Slave/Src/SCISlaveDataframe.c:133-142 | a field that fails fails the list, and its written value is the last entry |
| Values.FieldValuesAppend | C/Slave/Src/SCISlaveDataframe.c:133-142 | converting `a + b` fails exactly when `a` or `b` fails, else gives both value lists in order |
| SlaveDataframe.FindIdIs | C/Slave/Src/SCISlaveDataframe.c:48-78 | the identifier scan stops at the first identifier character |
| SlaveDataframe.RequestParser | C/Slave/Src/SCISlaveDataframe.c:41-159 | `SCISlaveRequestParser` returns the status and request `ParseRequest` gives, including the values stored before a conversion fails |
| SlaveDataframe.StoreValues | C/Slave/Src/SCISlaveDataframe.c:111-155 | the value scan after the identifier: the fields split at ',' (at most eleven), converted and stored, with the conversion's partial store on failure |
| SlaveDataframe.ParseRequestRoundTrip | C/Slave/Src/SCISlaveDataframe.c:41-159 | a request written as the digits of a number, an identifier and up to eleven values parses into that number (as the `int16_t` of its low 16 bits), kind and value list |
| SlaveDataframe.ParsePollThree | C/Test/UnitTests.c:32 | "3?" is GETVAR 3 with no values |
| SlaveDataframe.SetFromDefaults | C/Slave/Src/SCISlave.c:113 | "3!5" parsed from the defaults is SETVAR 3 with the value 5; the model stores it in storage of its own, where the defaults' NULL `uValArr` makes the source's store undefined (see "## Left out") |
| SlaveDataframe.ParseWithoutId | C/Slave/Src/SCISlaveDataframe.c:78-80 | without an identifier the request is refused with REQUEST_IDENTIFIER_NOT_FOUND and left unchanged |
| SlaveDataframe.ParseBadNumber | C/Slave/Src/SCISlaveDataframe.c:96-98 | number text that is not 1 to 8 hex digits (or empty) is refused with VARIABLE_NUMBER_CONVERSION_FAILED, the kind already taken over |
| SlaveDataframe.FillBufferWithValues | C/Slave/Src/SCISlaveDataframe.c:282-374 | writes the next packet at the offset, returns its size, the new index and remaining length, as `FillSpec` (corrected per-value index) says |
| SlaveDataframe.FillUpstream | C/Slave/Src/SCISlaveDataframe.c:286-299 | copies the next min(DatLen, max) raw bytes from the index |
| SlaveDataframe.PackFrom | C/Slave/Src/SCISlaveDataframe.c:325-370 | packs the values from the index on, advancing the index per value |
| SlaveDataframe.ReadAsWritten | C/Slave/Src/SCISlaveDataframe.c:338-349 | as written round one reads `puRespVals[*pui32DataIdx]`, the entry at the caller's index; later rounds index through the words after `ui32DataIdx`, which the model leaves open |
| SlaveDataframe.PackAsWritten | C/Slave/Src/SCISlaveDataframe.c:325-370 | the loop as written packs those reads and returns the caller's index unchanged |
| SlaveDataframe.PackAsWrittenSecondValue | C/Slave/Src/SCISlaveDataframe.c:349 | as written the values 1 and 2 go out as "1," and the digits of the untracked second read, which is "1,2" only if that word happens to be 2 |
| SlaveDataframe.FillPairCorrected | C/Slave/Src/SCISlaveDataframe.c:325-370 | corrected, the values 1 and 2 go out as "1,2" and the index moves past both |
| SlaveDataframe.FillCarriesNextValues | C/Slave/Src/SCISlaveDataframe.c:325-370 | corrected, a packet's values read back in order as the next values from the index, which moves past them while DatLen drops by their number |
| SlaveDataframe.CommandFillText | C/Slave/Src/SCISlaveDataframe.c:325-370 | a COMMAND packet is the packed text of the next values and never ends with ',' |
| SlaveDataframe.FillFitsPacket | C/Slave/Src/SCISlaveDataframe.c:325-370 | a packet stays below `max` characters and stops early only for lack of room |
| SlaveDataframe.FillUpstreamBytes | C/Slave/Src/SCISlaveDataframe.c:286-299 | an upstream packet is the next min(DatLen, max) bytes, and DatLen and the index move by that amount |
| SlaveDataframe.ResponseBuilder | C/Slave/Src/SCISlaveDataframe.c:162-279 | writes `Build`'s text at the start of the buffer and returns its size, the new index and the response with its remaining length |
| SlaveDataframe.PrefixOut | C/Slave/Src/SCISlaveDataframe.c:165-176 | the number's digits and the identifier |
| SlaveDataframe.PlainBody | C/Slave/Src/SCISlaveDataframe.c:182-202 | the GETVAR, SETVAR and refusal answers (also lines 248-276) |
| SlaveDataframe.CommandBody | C/Slave/Src/SCISlaveDataframe.c:204-239 | the COMMAND answer after the prefix |
| SlaveDataframe.LeadOut | C/Slave/Src/SCISlaveDataframe.c:206-233 | the designator and data length on the first packet, and the ';' before data |
| SlaveDataframe.DataOut | C/Slave/Src/SCISlaveDataframe.c:234 | the next values behind the header |
| SlaveDataframe.UpstreamBody | C/Slave/Src/SCISlaveDataframe.c:241-246 | the raw upstream bytes from the start of the buffer, with no number and identifier |
| SlaveDataframe.PollAnswer | C/Slave/Src/SCISlaveDataframe.c:182-195 | a successful GETVAR is answered by the prefix, "ACK;" and the digits of value 0 |
| SlaveDataframe.PollAnswerU8 | C/Test/UnitTests.c:33 | the poll of 8-bit variable 3 holding 0xF5 is answered "3?ACK;F5" |
| SlaveDataframe.PollAnswerU16 | C/Test/UnitTests.c:54 | the poll of 16-bit variable 4 holding 0x86E6 is answered "4?ACK;86E6" |
| SlaveDataframe.PollAnswerI32 | C/Test/UnitTests.c:75 | the poll of 32-bit variable 5 holding 0xFACB3B03 is answered "5?ACK;FACB3B03" |
| SlaveDataframe.BuildEchoesRequest | C/Slave/Src/SCISlaveDataframe.c:165-176 | every answer but an upstream packet starts with the number's digits and the identifier, which parse back as that number and kind |
| SlaveDataframe.BuildRefusal | C/Slave/Src/SCISlaveDataframe.c:248-276 | an ERROR or UNKNOWN answer is "NAK" when no error number is set, else "ERR;" and the error's digits; the size is exactly that text |
| SlaveDataframe.BuildSize | C/Slave/Src/SCISlaveDataframe.c:162-279 | the size returned never exceeds what was written, and only a withdrawn ',' or the tail of an overwritten prefix lies beyond it |
| MidSci.ParseCommand | Src/SCI.c:163-283 | refused with COMMAND_IDENTIFIER_NOT_FOUND exactly when the first byte is not an identifier, and then the command is unchanged; stores at most ten values; on a failing value keeps the entries the conversion wrote |
| MidSci.CommandParser | Src/SCI.c:163-283 | `commandParser` returns the status and command `ParseCommand` gives |
| MidSci.FailedValuesStored | Src/SCI.c:257-272 | a command whose values fail to convert keeps the values before the failing one, what `strToHex` left for it, and the caller's later entries |
| MidSci.ValuesAsWritten | Src/SCI.c:243-280 | the value loop as written converts up to eleven fields |
| MidSci.ElevenValuesOverrun | Src/SCI.c:243-266 | with eleven values the loop as written stores the eleventh at `valArr[10]`, past the ten entries; the corrected parse keeps ten |
| MidSci.ParsedNumberIsZero | Src/SCI.c:170-229 | every request that passes the identifier scan has number 0 and the kind of its first byte |
| MidSci.NumberedPollRefused | Src/SCI.c:170-200 | "3?" is refused: its first byte is not an identifier |
| MidSci.ValuesReadBack | Src/SCI.c:235-280 | up to ten values packed after an identifier are read back in order and counted |
| MidSci.Build | Src/SCI.c:286-399 | the answer stays within the packet, keeps the response control consistent, and starts with the prefix |
| MidSci.DataBehind | Src/SCI.c:360-366 | the next packet behind the header stays within the packet |
| MidSci.ResponseBuilder | Src/SCI.c:286-399 | writes `Build`'s text at the start of the buffer, returns its size, updates the response control and records the frees |
| MidSci.PrefixOut | Src/SCI.c:290-300 | the number's digits and `cmdIdArr[e_cmdType]` |
| MidSci.PlainBody | Src/SCI.c:303-326 | the GETVAR, SETVAR, default and refusal answers (also lines 369-396) |
| MidSci.CommandBody | Src/SCI.c:328-363 | the COMMAND answer after the prefix |
| MidSci.LeadOut | Src/SCI.c:330-359 | the designator and data length on the first packet, and the ';' before data |
| MidSci.DataOut | Src/SCI.c:360-366 | the next packet of the transfer behind the text written |
| MidSci.PollAnswer | Src/SCI.c:307-318 | a successful GETVAR is answered by the prefix, "ACK;" and the value's digits, which read back as the value |
| MidSci.BuildRefusal | Src/SCI.c:373-398 | "NAK" when no error number is set, else "ERR;" and the error's digits; the size is exactly that text and the control is untouched |
| MidSci.BuildEchoesKind | Src/SCI.c:36 | every answer starts with the number's digits and the identifier of its kind, which the parser maps back to that kind |
| MidSci.CommandPackets | Src/SCI.c:328-363 | the first packet of a value transfer carries "DAT;", the length and ';' before the values; later ones carry the values right after the identifier |
| OldSci.OldTypeOfId | SCI.c:166-180 | only '?', '!' and ':' are identifiers |
| OldSci.FirstId | SCI.c:161-187 | the offset of the first identifier |
| OldSci.LeadingDigits | SCI.c:203 | the digits `atoi` reads |
| OldSci.Atoi | SCI.c:203 | text starting with anything but white space, a sign or a digit reads as 0 |
| OldSci.DecValueOfText | SCI.c:203 | the decimal digits of a number read back as that number |
| OldSci.AtoiOfIntText | SCI.c:203 | `atoi` reads back the text of any whole number |
| OldSci.ToInt16Keeps | SCI.c:203 | the `int16_t` cast keeps a value that fits |
| OldSci.CommandParser | SCI.c:157-255 | `commandParser` returns the command `ParseOld` gives |
| OldSci.ParseOldRefusal | SCI.c:161-187 | the kind is NONE exactly when no identifier is present, and then the default command comes back |
| OldSci.ParseOldRoundTrip | SCI.c:157-255 | a request written as a number's decimal text, an identifier and separator-free fields parses into that number, kind and fields |
| OldSci.IdAfter | SCI.c:161-187 | the first identifier splits the request into the text before and after it |
| OldSci.ElevenFieldsCounted | SCI.c:220-250 | eleven or more fields are counted as eleven, one more than `f_valArr` holds |
| OldSci.ResponseIdAsWritten | SCI.c:261-268 | as written the identifier lookup `cmdIdArr[e_cmdType]` has an entry only for enum codes below 3 |
| OldSci.ResponseIdShifted | SCI.c:261-268 | as written GETVAR is tagged '!', SETVAR ':', and COMMAND indexes past the array |
| OldSci.ResponseId | SCI.c:261 | the corrected lookup gives each kind the identifier the parser reads as that kind |
| OldSci.ResponseIdInverse | SCI.c:261 | every accepted identifier is the corrected lookup's entry for its kind |
| OldSci.ResponseBuilder | SCI.c:258-275 | writes the number's text, the identifier and the value text at the start and returns their length |
| OldSci.AnswerReadsBack | SCI.c:258-275 | an answer with value fields parses back into its number, kind and fields |
| SlaveTransfer.Freed | C/Slave/Src/SCISlaveTransfer.c:298-304 | exactly the buffers marked dynamic are freed |
| SlaveTransfer.GetVarSpec | C/Slave/Src/SCISlaveTransfer.c:48-72 | an invalid number is VAR_NUMBER_INVALID with nothing changed; success answers the value read; a failure leaves the variables alone |
| SlaveTransfer.SetVarSpec | C/Slave/Src/SCISlaveTransfer.c:73-115 | success assigns the value and answers it as re-read; an invalid number changes nothing |
| SlaveTransfer.CommandSpec | C/Slave/Src/SCISlaveTransfer.c:116-168 | the result is no error or COMMAND_UNKNOWN; an unknown command changes nothing; success answers the saved response under the request's number |
| SlaveTransfer.UpstreamSpec | C/Slave/Src/SCISlaveTransfer.c:169-187 | accepted exactly when the saved number matches and an upstream was announced, else UPSTREAM_NOT_INITIATED with nothing changed |
| SlaveTransfer.Step | C/Slave/Src/SCISlaveTransfer.c:201-286 | the next packet stays within `max` and advances index and length consistently |
| SlaveTransfer.Advance | C/Slave/Src/SCISlaveTransfer.c:212-213 | only the index and the remaining length change |
| SlaveTransfer.NextPacket | C/Slave/Src/SCISlaveTransfer.c:197-293 | the packet stays within `max` and the control stays consistent |
| SlaveTransfer.SciCommands.ClearResponseControl | C/Slave/Src/SCISlaveTransfer.c:296-308 | frees the dynamic buffers and resets the control to its default |
| SlaveTransfer.SciCommands.GetVarCase | C/Slave/Src/SCISlaveTransfer.c:48-72 | GETVAR as `GetVarSpec`: success answers the value and clears the control; failure leaves response and control as they were |
| SlaveTransfer.SciCommands.ReloadIfEeprom | C/Slave/Src/SCISlaveTransfer.c:52-59 | an EEPROM variable is reloaded first |
| SlaveTransfer.SciCommands.SetVarCase | C/Slave/Src/SCISlaveTransfer.c:73-115 | SETVAR as `SetVarSpec`; success calls the action procedure if present, answers the re-read value and clears the control |
| SlaveTransfer.SciCommands.StoreValue | C/Slave/Src/SCISlaveTransfer.c:85-99 | the assignment and, for an EEPROM variable, the save with write-back of the former value on failure |
| SlaveTransfer.SciCommands.SaveOrRestore | C/Slave/Src/SCISlaveTransfer.c:89-98 | a failed EEPROM save writes the former value back |
| SlaveTransfer.SciCommands.CommandCase | C/Slave/Src/SCISlaveTransfer.c:116-168 | COMMAND as `CommandSpec`; the table entry is called only for a new command that is known |
| SlaveTransfer.SciCommands.UpstreamCase | C/Slave/Src/SCISlaveTransfer.c:169-187 | UPSTREAM as `UpstreamSpec` |
| SlaveTransfer.SciCommands.ExecuteCmd | C/Slave/Src/SCISlaveTransfer.c:36-194 | dispatches on the kind; any other kind changes nothing, so an ongoing transfer survives it |
| SlaveTransfer.SciCommands.FillBufferWithValues | C/Slave/Src/SCISlaveTransfer.c:197-293 | writes `NextPacket`'s text at the offset, returns its size, updates the control and records the frees |
| SlaveTransfer.SciCommands.SendStep | C/Slave/Src/SCISlaveTransfer.c:201-286 | the copy or packing loop writes `Step`'s text and advances the control by it |
| SlaveTransfer.SetVarRollsBack | C/Slave/Src/SCISlaveTransfer.c:89-98 | a failed SETVAR leaves every variable as it was |
| SlaveTransfer.SetThenGet | C/Slave/Src/SCISlaveTransfer.c:48-115 | a GETVAR after a successful SETVAR of `v` answers `v` cut to the variable's width |
| SlaveTransfer.CommandContinues | C/Slave/Src/SCISlaveTransfer.c:121-165 | asking again with the same number continues a started transfer: the saved status and info come back, the table is not called, only the first-packet bit drops |
| SlaveTransfer.UpstreamNeedsAnnouncement | C/Slave/Src/SCISlaveTransfer.c:143-185 | after a new command, UPSTREAM is accepted exactly when that command announced an upstream of positive length under the same number |
| SlaveTransfer.FillProgress | C/Slave/Src/SCISlaveTransfer.c:226-286 | with room for one value and its ',', every packet takes at least one value |
| SlaveTransfer.FillEndsTransfer | C/Slave/Src/SCISlaveTransfer.c:289-290 | the remaining length reaches 0 exactly when the control is reset to its default |
| OldCommands.GetVarSpec | SCICommands.c:33-52 | a valid answer echoes number and kind with the variable's value; otherwise the invalid default response; the EEPROM is untouched |
| OldCommands.SetVarSpec | SCICommands.c:54-92 | a valid answer holds the assigned value as re-read; otherwise the invalid default response and no call |
| OldCommands.CommandSpec | SCICommands.c:93-113 | always valid; value 0 exactly when the table entry exists and reported success; the entry is called only for 1..size |
| OldCommands.GetVarCase | SCICommands.c:33-52 | the GETVAR branch is `GetVarSpec` |
| OldCommands.SetVarCase | SCICommands.c:54-92 | the SETVAR branch is `SetVarSpec` |
| OldCommands.SaveOrRestore | SCICommands.c:63-76 | a failed EEPROM save writes the former value back |
| OldCommands.ExecuteCmd | SCICommands.c:26-121 | dispatches on the kind; other kinds answer the invalid default response |
| OldCommands.GetVarMatchesLaterGeneration | SCICommands.c:33-52 | with a read callback the valid flag is exactly the later generation's "no error", with the same value; without one an EEPROM variable is never answered |
| OldCommands.SetVarRollsBack | SCICommands.c:63-76 | an unanswered SETVAR leaves every variable as it was |
| OldCommands.SetThenGet | SCICommands.c:33-92 | a GETVAR after an answered SETVAR answers the value cut to the variable's width |
| OldCommands.SetVarNeedsWriteCallback | SCICommands.c:63-76 | SETVAR of an EEPROM variable is never answered without a write callback |
| VarStore.Narrow | C/Slave/Src/VarAccess.c:165-225 | the narrow union member keeps the value's low bytes, which fit the type |
| VarStore.NarrowFits | C/Slave/Src/VarAccess.c:165-225 | narrowing a value that fits changes nothing |
| VarStore.Incs | C/Slave/Src/VarAccess.c:252-253 | a variable occupies max(width / address type, 1) addresses, whose words fit 32 bits |
| VarStore.Words | C/Slave/Src/VarAccess.c:263-273 | the words read from consecutive addresses |
| VarStore.FailedFromZero | C/Slave/Src/VarAccess.c:374-383 | the write loop finishes exactly when no word fails |
| VarStore.SplitAssemble | C/Slave/Src/VarAccess.c:263-383 | splitting a value into words and ORing them back in place gives the value |
| VarStore.StoreFromAt | C/Slave/Src/VarAccess.c:374-383 | each written word reads back |
| VarStore.StoreFromElsewhere | C/Slave/Src/VarAccess.c:374-383 | a store changes no other cell |
| VarStore.StoreThenWords | C/Slave/Src/VarAccess.c:374-383 | reading back a complete store gives the stored words |
| VarStore.EepromRoundTrip | C/Slave/Src/VarAccess.c:229-387 | write-then-read against a faithful EEPROM reproduces the value |
| VarStore.LookupFirst | C/Slave/Src/VarAccess.c:390-407 | the lookup gives the address of the first entry for the number |
| VarStore.LookupMissing | C/Slave/Src/VarAccess.c:390-407 | without an entry the lookup gives 0xFFFF |
| VarStore.Eeprom.Read | C/Slave/Src/VarAccess.c:265 | the read callback gives the stored word unless the address fails |
| VarStore.Eeprom.Write | C/Slave/Src/VarAccess.c:379 | the write callback stores the word unless the address fails |
| VarStore.ValueOf | C/Slave/Src/VarAccess.c:68-146 | succeeds exactly for 1..SIZE_OF_VAR_STRUCT, else VAR_NUMBER_INVALID with no value |
| VarStore.Assigned | C/Slave/Src/VarAccess.c:149-226 | succeeds exactly for a valid number, changing no other variable |
| VarStore.AssignThenRead | C/Slave/Src/VarAccess.c:68-226 | reading after assigning gives the value cut to the width, and the value itself when it fits |
| VarStore.AssignReadBack | C/Slave/Src/VarAccess.c:68-226 | assigning the value read before restores the variables |
| VarStore.Reload | C/Slave/Src/VarAccess.c:229-305 | NONE, ADDRESS_UNKNOWN or READOUT_FAILED; a failure leaves the variables; only the variable reloaded changes, within its width |
| VarStore.Save | C/Slave/Src/VarAccess.c:308-387 | NONE, ADDRESS_UNKNOWN or WRITE_FAILED; an unknown address leaves the EEPROM alone |
| VarStore.SaveThenReload | C/Slave/Src/VarAccess.c:229-387 | a successful save then a successful reload leave the variable as it was |
| VarStore.EepromCount | C/Slave/Src/VarAccess.c:39-61 | counts the EEPROM variables among the first `i` |
| VarStore.InitLaysOutTable | C/Slave/Src/VarAccess.c:39-61 | entry k names the k-th EEPROM variable and starts where the words of the earlier ones end; unused entries are untouched |
| VarStore.InitCounts | C/Slave/Src/VarAccess.c:39-61 | until the loop returns every EEPROM variable has an entry |
| VarStore.InitOverflow | C/Slave/Src/VarAccess.c:44-45 | the pass stops with PARTITION_TABLE_NOT_SUFFICIENT exactly when there are more EEPROM variables than entries |
| VarStore.InitLookup | C/Slave/Src/VarAccess.c:39-61 | after the pass the lookup finds for each entered variable the address its entry gives |
| VarStore.StepStops | C/Slave/Src/VarAccess.c:41-46 | a round of the start-up pass stops exactly at an EEPROM variable when the table is full |
| VarStore.InitStopped | C/Slave/Src/VarAccess.c:44-45 | once the pass has stopped, later variables change nothing |
| VarStore.ReadWords | C/Slave/Src/VarAccess.c:263-273 | succeeds exactly when no read fails, assembling the words little-endian |
| VarStore.MakeMask | C/Slave/Src/VarAccess.c:368-371 | the mask is 2^(8·address type) - 1 |
| VarStore.WriteWords | C/Slave/Src/VarAccess.c:374-383 | writes the value's words highest first, stopping at the first failure, and succeeds exactly when none fails |
| SlaveVarAccess.GetEEPROMAddress | C/Slave/Src/VarAccess.c:390-407 | the address of the first entry for the number, else 0xFFFF (same code as Src/VarAccess.c:387-404) |
| SlaveVarAccess.ReadValFromVarStruct | C/Slave/Src/VarAccess.c:68-146 | the status and value `ValueOf` gives (same code as Src/VarAccess.c:65-143) |
| SlaveVarAccess.WriteValToVarStruct | C/Slave/Src/VarAccess.c:149-226 | the status and variables `Assigned` gives (same code as Src/VarAccess.c:146-223) |
| SlaveVarAccess.ReadEEPROMValueIntoVarStruct | C/Slave/Src/VarAccess.c:229-305 | the status and variables `Reload` gives (same code as Src/VarAccess.c:226-302) |
| SlaveVarAccess.LoadFrom | C/Slave/Src/VarAccess.c:263-301 | the read loop and the narrowing store |
| SlaveVarAccess.WriteEEPROMwithValueFromVarStruct | C/Slave/Src/VarAccess.c:308-387 | the status and EEPROM `Save` gives (same code as Src/VarAccess.c:305-384) |
| SlaveVarAccess.EnterEepromVar | C/Slave/Src/VarAccess.c:47-60 | enters the variable in the next entry, reloads it, and moves the address past its words |
| SlaveVarAccess.InitRound | C/Slave/Src/VarAccess.c:41-61 | one round of the start-up loop is one step of `InitUpTo` |
| SlaveVarAccess.InitVarstruct | C/Slave/Src/VarAccess.c:32-65 | the start-up pass as `InitUpTo` without stopping on read errors: the last reload's status, or PARTITION_TABLE_NOT_SUFFICIENT |
| SlaveVarAccess.GetVarAsWritten | C/Slave/Src/VarAccess.c:410-419 | as written the guard passes exactly for positive numbers |
| SlaveVarAccess.GetVarAcceptsPastEnd | C/Slave/Src/VarAccess.c:412 | the number one past the table passes the guard as written |
| SlaveVarAccess.GetVar | C/Slave/Src/VarAccess.c:410-419 | corrected: succeeds exactly for a valid number, with its descriptor |
| SlaveVarAccess.GetVarAgrees | C/Slave/Src/VarAccess.c:410-419 | the corrected getter agrees with the one as written wherever that stays in bounds |
| MidVarAccess.initVarstruct | Src/VarAccess.c:31-62 | the start-up pass as `InitUpTo` stopping at the first failed reload with its status |
| MidVarAccess.GetVarPtrAsWritten | Src/VarAccess.c:407-416 | as written the pointer is handed out exactly for positive numbers |
| MidVarAccess.GetVarPtrPastEnd | Src/VarAccess.c:409 | as written the number one past the table gets a pointer past its end |
| MidVarAccess.GetVarPtr | Src/VarAccess.c:407-416 | corrected: every pointer handed out is inside the table |
| MidVarAccess.GetVarPtrAgrees | Src/VarAccess.c:407-416 | the corrected getter agrees with the one as written wherever that stays in bounds |
| OldVarAccess.ReadValAsWritten | VarAccess.c:60-134 | valid numbers read their value; for others the result is the uninitialised `b_success` |
| OldVarAccess.ReadValAsWrittenInvalid | VarAccess.c:60-134 | an invalid number can be reported as read with no value |
| OldVarAccess.readValFromVarStruct | VarAccess.c:60-134 | corrected: true exactly for a valid number, with its value |
| OldVarAccess.WriteValAsWritten | VarAccess.c:137-211 | valid numbers are assigned; for others the result is uninitialised and nothing changes |
| OldVarAccess.WriteValAsWrittenInvalid | VarAccess.c:137-211 | an invalid number can be reported as written while nothing changes |
| OldVarAccess.writeValToVarStruct | VarAccess.c:137-211 | corrected: true exactly for a valid number, and the variables `Assigned` gives |
| OldVarAccess.LookupAsWritten | VarAccess.c:376-391 | as written only entry 0 is compared |
| OldVarAccess.getEEPROMAdressAsWritten | VarAccess.c:376-391 | the loop as written is `LookupAsWritten` |
| OldVarAccess.LookupAsWrittenMisses | VarAccess.c:376-391 | the second EEPROM variable is in the table but not found |
| OldVarAccess.LookupAsWrittenAgrees | VarAccess.c:376-391 | where entry 0 matches, both lookups agree |
| OldVarAccess.GuardAsWritten | VarAccess.c:244-247 | `~(addr == 0xFFFF)` is -1 or -2 |
| OldVarAccess.GuardAsWrittenAlwaysPasses | VarAccess.c:244-247 | the guard is nonzero for every address, 0xFFFF included |
| OldVarAccess.ReloadAsWritten | VarAccess.c:214-289 | as written a failed reload leaves the variables |
| OldVarAccess.OldReload | VarAccess.c:214-289 | corrected: true only for an EEPROM variable with a read callback and a known address |
| OldVarAccess.ReloadAsWrittenReadsWrongAddress | VarAccess.c:244-285 | as written the second of two byte variables is reloaded from 0xFFFF instead of address 1 |
| OldVarAccess.OldSave | VarAccess.c:292-373 | corrected: true only for an EEPROM variable with a write callback and a known address |
| OldVarAccess.SaveAsWrittenWritesWrongAddress | VarAccess.c:316-369 | as written saving the second of two byte variables overwrites 0xFFFF and leaves address 1 alone |
| OldVarAccess.OldSaveThenReload | VarAccess.c:214-373 | a successful save then a successful reload leave the variable as it was |
| OldVarAccess.readEEPROMValueIntoVarStruct | VarAccess.c:214-289 | corrected reload: the result and variables `OldReload` gives |
| OldVarAccess.writeEEPROMwithValueFromVarStruct | VarAccess.c:292-373 | corrected save: the result and EEPROM `OldSave` gives |
| OldVarAccess.initVarstruct | VarAccess.c:30-57 | the start-up pass ignoring reload results; false exactly when the pass stopped on a full table |
| OldVarAccess.InitFailsOnOverflow | VarAccess.c:30-57 | it fails exactly when there are more EEPROM variables than entries |
| MasterTransfer.StartAsWritten | C/Master/Src/SCIMasterTransfer.c:35-48 | as written a result is defined only when the request is rejected |
| MasterTransfer.StartAcceptedHasNoResult | C/Master/Src/SCIMasterTransfer.c:35-48 | an accepted request returns no defined value |
| MasterTransfer.Start | C/Master/Src/SCIMasterTransfer.c:35-48 | corrected: the result says whether the request was accepted, and it is stored only then |
| MasterTransfer.ReleaseUnless | C/Master/Src/SCIMasterTransfer.c:62-65 | the protocol is released unless the callback asks for a repeat |
| MasterTransfer.Copied | C/Master/Src/SCIMasterTransfer.c:103-105 | `memcpy` replaces exactly the target range |
| MasterTransfer.SetVarGuardAsWritten | C/Master/Src/SCIMasterTransfer.c:58 | as written `SetVarCB` is called when `GetVarCB` is set |
| MasterTransfer.SetVarGuardMismatch | C/Master/Src/SCIMasterTransfer.c:58 | with only `SetVarCB` set it is never called; with only `GetVarCB` set the missing one is called |
| MasterTransfer.DatCopyAsWritten | C/Master/Src/SCIMasterTransfer.c:103-105 | as written the copy stays in bounds exactly when the frame holds DatLen values and the buffer has room for them |
| MasterTransfer.DatStep | C/Master/Src/SCIMasterTransfer.c:86-145 | a DAT frame fails exactly when it is the first and allocation fails |
| MasterTransfer.UpstreamStep | C/Master/Src/SCIMasterTransfer.c:191-229 | an UPSTREAM frame never fails |
| MasterTransfer.Transfer.TransferStart | C/Master/Src/SCIMasterTransfer.c:35-48 | offers the request and stores it as `Start` says |
| MasterTransfer.Transfer.TransferControl | C/Master/Src/SCIMasterTransfer.c:50-236 | the info, result and callbacks are those of `Control` |
| MasterTransfer.Transfer.DatFrame | C/Master/Src/SCIMasterTransfer.c:86-145 | the DAT branch is `DatStep` |
| MasterTransfer.Transfer.UpsAck | C/Master/Src/SCIMasterTransfer.c:148-175 | the UPS branch is `UpsStep` |
| MasterTransfer.Transfer.UpstreamFrame | C/Master/Src/SCIMasterTransfer.c:191-229 | the UPSTREAM branch is `UpstreamStep` |
| MasterTransfer.VarAnswerReleases | C/Master/Src/SCIMasterTransfer.c:57-80 | a SETVAR or GETVAR answer leaves the info alone, calls its callback exactly when set, and releases unless a repeat is asked |
| MasterTransfer.ControlFailsOnlyOnAllocation | C/Master/Src/SCIMasterTransfer.c:50-236 | false only for a failed allocation on the first DAT frame or a UPS acknowledge |
| MasterTransfer.DatFrameContinues | C/Master/Src/SCIMasterTransfer.c:103-144 | an incomplete DAT frame extends the received values by its own, counts the frame and re-issues the request without arguments |
| MasterTransfer.UpsAckRequestsStream | C/Master/Src/SCIMasterTransfer.c:148-174 | a UPS acknowledge allocates the buffer, expects DatLen, starts stream mode and re-issues as UPSTREAM with the same number |
| MasterTransfer.ConcatLength | C/Master/Src/SCIMasterTransfer.c:86-145 | frames of at least one value each carry at least as many values as frames |
| MasterTransfer.CopiedExtends | C/Master/Src/SCIMasterTransfer.c:103-105 | copying behind the values received extends them |
| MasterTransfer.DatResponse | C/Master/Src/SCIMasterTransfer.c:86 | a DAT frame of a COMMAND result carries its part |
| MasterTransfer.FeedDatDelivers | C/Master/Src/SCIMasterTransfer.c:86-145 | a result sent as DAT frames reaches `CommandCB` complete and in order after the last frame; every earlier frame re-issues the request |
| MasterTransfer.FeedDatRest | C/Master/Src/SCIMasterTransfer.c:86-145 | the induction step of `FeedDatDelivers` |
| MasterTransfer.FeedDatMore | C/Master/Src/SCIMasterTransfer.c:103-144 | the case of a frame that leaves values outstanding |
| MasterTransfer.DatNext | C/Master/Src/SCIMasterTransfer.c:103-144 | the counters and buffer after an incomplete DAT frame |
| MasterTransfer.DatNextInProgress | C/Master/Src/SCIMasterTransfer.c:103-144 | after such a frame its values follow those received before |
| MasterTransfer.DatFrameStep | C/Master/Src/SCIMasterTransfer.c:86-145 | one DAT frame, completing or not |
| MasterTransfer.FeedDatNext | C/Master/Src/SCIMasterTransfer.c:135-144 | an incomplete frame re-issues the request and feeds on |
| MasterTransfer.FeedDatLast | C/Master/Src/SCIMasterTransfer.c:113-132 | the completing frame hands the buffer to `CommandCB` |
| MasterTransfer.UpstreamResponse | C/Master/Src/SCIMasterTransfer.c:191 | an UPSTREAM frame carries its chunk |
| MasterTransfer.UpstreamDelivers | C/Master/Src/SCIMasterTransfer.c:191-229 | an upstream reaches `UpstreamCB` complete and in order after its last frame; every earlier frame re-issues the request |
| MasterTransfer.FeedUpstreamRest | C/Master/Src/SCIMasterTransfer.c:191-229 | the induction step of `UpstreamDelivers` |
| MasterTransfer.FeedUpstreamMore | C/Master/Src/SCIMasterTransfer.c:191-229 | the case of a frame that leaves bytes outstanding |
| MasterTransfer.UpstreamNext | C/Master/Src/SCIMasterTransfer.c:194-200 | the counters and buffer after an incomplete UPSTREAM frame |
| MasterTransfer.UpstreamNextInProgress | C/Master/Src/SCIMasterTransfer.c:194-200 | after such a frame its bytes follow those received before |
| MasterTransfer.UpstreamFrameStep | C/Master/Src/SCIMasterTransfer.c:191-229 | one UPSTREAM frame, completing or not |
| MasterTransfer.FeedUpstreamNext | C/Master/Src/SCIMasterTransfer.c:203-207 | an incomplete frame re-issues the request and feeds on |
| MasterTransfer.FeedUpstreamLast | C/Master/Src/SCIMasterTransfer.c:208-228 | the completing frame finishes the stream and hands the buffer to `UpstreamCB` |
| MasterTransfer.DatCopyOverread | C/Master/Src/SCIMasterTransfer.c:103-105 | as written a first frame announcing three values and carrying two is over-read; copying the frame's own count delivers all three in order |
| HostDriver.Chars | Python/SCI.py:98 | `decode()` of ASCII bytes: one character per byte |
| HostDriver.Ascii | Python/SCI.py:195 | `bytearray(s, 'ASCII')` decodes back to the text |
| HostDriver.ParseHexText | Python/SCI.py:104 | `int(_, 16)` reads the device's digit text of any value back as that value |
| HostDriver.ParseHexDigits | Python/SCI.py:104 | `int(_, 16)` reads upper-case digits as the device does and refuses the empty text |
| HostDriver.ParseAllTexts | Python/SCI.py:122-125 | a packed value list reads back field by field |
| HostDriver.FromHex | Python/SCI.py:118 | `bytearray.fromhex` gives one byte per two digits |
| HostDriver.FromHexOf | Python/SCI.py:118 | `bytearray.fromhex` inverts `hex()` |
| HostDriver.Unsigned | Python/SCI.py:172 | the word packed for a value is its two's complement at the format's width |
| HostDriver.StripZeros | Python/SCI.py:159 | `lstrip('0')` leaves no leading zero |
| HostDriver.StripZerosValue | Python/SCI.py:159 | stripping keeps the value, and only zero strips to nothing |
| HostDriver.BigEndianValue | Python/SCI.py:159 | the hex of the big-endian bytes reads back as the word |
| HostDriver.FieldReadBack | Python/SCI.py:159-172 | a packed field reads back as the word packed, through the device's `strToHex` and through `int(_, 16)`, except that zero packs to the empty field |
| HostDriver.ValueFields | Python/SCI.py:171-172 | `zip` packs the pairs up to the shorter list; it fails exactly when a value is out of its format's range |
| HostDriver.PacketTextAscii | Python/SCI.py:141-195 | `_encode` fails exactly for an out-of-range number or value or a missing identifier or value list, and its text is ASCII |
| HostDriver.Encode | Python/SCI.py:141-195 | the encoded bytes are the packet text |
| HostDriver.EncodeReadBack | Python/SCI.py:159-175 | a device reads an encoded packet back into its number and one field per packed pair, each the unsigned word packed |
| HostDriver.PacketLayout | Python/SCI.py:174-175 | the packet is the number field, the identifier and the value fields joined by ',' |
| HostDriver.PackedFieldsReadBack | Python/SCI.py:172 | every value field is separator-free and reads back as its word |
| HostDriver.DecodeChecksFrame | Python/SCI.py:91-96 | decoding refuses exactly the empty and the unframed messages before reading text |
| HostDriver.ReplySplits | Python/SCI.py:100-111 | a reply splits back into number and fields |
| HostDriver.Reply | Python/SCI.py:91-98 | a device reply on the wire is its text between STX and ETX |
| HostDriver.DecodeReply | Python/SCI.py:75-138 | `_decode` gives back the number, the designator verbatim, field 1 as data length (0 if absent) and field 2 as value list (None if absent), for every kind but UPSTREAM |
| HostDriver.DecodeReplyText | Python/SCI.py:100-136 | the text-level half of `DecodeReply` |
| HostDriver.DecodeUpstreamReply | Python/SCI.py:114-119 | for UPSTREAM field 0 becomes the bytes and there is no designator |
| HostDriver.AckText | C/Slave/Src/SCISlaveDataframe.c:182-195 | a GETVAR answer with one value is the number, "?ACK;" and the value's digits |
| HostDriver.DecodeAck | Python/SCI.py:128-136 | a framed GETVAR answer decodes with the value as data length and no value list |
| HostDriver.DecodeByteReply | Python/SCI.py:128-136 | "3?ACK;F5" decodes to number 3, "ACK" and data length 0xF5 |
| HostDriver.DecodeHalfWordReply | Python/SCI.py:128-136 | "4?ACK;86E6" decodes to number 4, "ACK" and data length 0x86E6 |
| HostDriver.DecodeWordReply | Python/SCI.py:128-136 | "5?ACK;FACB3B03" decodes to number 5, "ACK" and data length 0xFACB3B03 |
| HostDriver.SendCheck | Python/SCI.py:200-201 | corrected: refuses exactly the packets longer than the limit, naming both sizes |
| HostDriver.OversizeRaisesTypeError | Python/SCI.py:201 | as written every oversized packet raises the formatting TypeError instead |
| HostDriver.ErrReplyLosesNumber | Python/SCI.py:238-239 | as written an ERR reply's number is lost (the value list is None); corrected it is the data length |
| HostDriver.Receive | Python/SCI.py:226-227 | one round decodes the next reply; with none left the empty read is refused |
| HostDriver.RoundsEnd | Python/SCI.py:229-241 | a failed decode or a stopping designator ends the exchange in that round |
| HostDriver.RoundsAppend | Python/SCI.py:242-246 | an appending round leaves the rest of the exchange to the remaining replies |
| HostDriver.RoundsGathered | Python/SCI.py:220 | once enough values are gathered no further round is made |
| HostDriver.RoundStep | Python/SCI.py:220-246 | the bookkeeping of one round over the replies |
| HostDriver.CommandSpecStart | Python/SCI.py:220-225 | a packet that fits starts with nothing gathered and one value wanted; any other writes nothing |
| HostDriver.Repeat | Python/SCI.py:222-225 | `n` copies of a value |
| HostDriver.SentOneMore | Python/SCI.py:222-225 | each round writes one more copy of the framed packet |
| HostDriver.ReadOneMore | Python/SCI.py:226 | each read consumes one reply |
| HostDriver.CommandCollectsDat | Python/SCI.py:220-246 | DAT replies that make up the announced total yield exactly those values, one request per reply |
| HostDriver.RoundsCollectDat | Python/SCI.py:220-246 | the induction over the DAT replies |
| HostDriver.DatRound | Python/SCI.py:242-246 | one DAT reply appends its values and makes its length the target |
| HostDriver.HandleCases | Python/SCI.py:229-246 | ACK and UPS stop, ERR and NAK raise, DAT appends and sets the target |
| HostDriver.CommandAcknowledged | Python/SCI.py:230-231 | an ACK reply ends the exchange with no values |
| HostDriver.CommandDeviceError | Python/SCI.py:238-239 | an ERR reply ends it with the device's error number |
| HostDriver.CommandRefused | Python/SCI.py:240-241 | a NAK reply ends it as an unknown command |
| HostDriver.Driver.Decode | Python/SCI.py:75-138 | `_decode` returns `DecodeFrame` and strips STX and ETX from the caller's array in place exactly when it is framed |
| HostDriver.Driver.Send | Python/SCI.py:198-205 | refuses an oversized packet unchanged; otherwise frames it in place and writes it |
| HostDriver.Driver.ReadUntilEtx | Python/SCI.py:226 | the next reply, or nothing once none is left |
| HostDriver.Driver.Exchange | Python/SCI.py:222-227 | encode, send and read one frame, or fail before writing |
| HostDriver.Driver.Command | Python/SCI.py:208-248 | `command` returns `CommandSpec`'s result, writes one framed packet per round and consumes one reply per round |
| HostDriver.Driver.Transact | Python/SCI.py:220-246 | the loop of `command` against `CommandSpec` |
| HostDriver.Driver.Round | Python/SCI.py:222-246 | one pass of the loop |
| LegacyHost.Find | Python/SerialProtocol.py:32 | the first occurrence of a character, or the length |
| LegacyHost.After | Python/SerialProtocol.py:34 | the text behind the first occurrence |
| LegacyHost.SplitHead | Python/SerialProtocol.py:32-33 | `split(c)[0]` is the text before the first `c`, and there are two or more parts exactly when `c` occurs |
| LegacyHost.SplitSecond | Python/SerialProtocol.py:34-36 | `split(c)[1]` is the text between the first and second `c` |
| LegacyHost.DecodeMessage | Python/SerialProtocol.py:31-39 | IndexError exactly when the operator is absent, or no STX precedes it; otherwise the number is the text after the first STX up to the next STX, and the value the text after the operator up to the next operator and then ETX |
| LegacyHost.DecodeReply | Python/SerialProtocol.py:31-39 | a well-formed reply is taken apart into its number and value |
| LegacyHost.DecodeWithoutOperator | Python/SerialProtocol.py:32-34 | a reply without the operator raises IndexError |
| LegacyHost.DecodeStopsAtSecondOperator | Python/SerialProtocol.py:32-38 | a value followed by a second operator loses what follows it |
| LegacyHost.FormatFew | Python/SerialProtocol.py:42-47 | one to three parameters are formatted one after the other |
| LegacyHost.CommandPayload | Python/SerialProtocol.py:55-64 | `command` puts the number, ':' and only the first parameter on the wire |
| LegacyHost.GetValuePayload | Python/SerialProtocol.py:89-95 | `getvalue` sends the number and '?' |
| LegacyHost.SetValuePayload | Python/SerialProtocol.py:76-82 | `setvalue` sends the number, '!' and the value |
| LegacyHost.SerialProtocol.SendMessage | Python/SerialProtocol.py:41-53 | no parameter raises IndexError before writing; otherwise STX, the first up to three parameters formatted, and ETX are written |
| LegacyHost.SerialProtocol.ReadUntilEtx | Python/SerialProtocol.py:65 | the next reply, or nothing |
| LegacyHost.SerialProtocol.Exchange | Python/SerialProtocol.py:62-67 | send, read one reply and decode it at the operator |
| LegacyHost.SerialProtocol.Command | Python/SerialProtocol.py:55-74 | sends as `CommandPayload` says and returns the reply's value text |
| LegacyHost.SerialProtocol.SetValue | Python/SerialProtocol.py:76-87 | sends as `SetValuePayload` says and returns the reply's value text |
| LegacyHost.SerialProtocol.GetValue | Python/SerialProtocol.py:89-100 | sends as `GetValuePayload` says and returns the reply's value text |
| LegacyHost.GetValueAnswered | Python/SerialProtocol.py:89-100 | against a device answering `<number>?<value>` between STX and ETX, `getvalue` returns the value text |

## Left out

- Serial I/O, `flush` and the resource locks of both Python drivers: the port is a list of replies still to come and the writes are a log.
- Floating point: `ftoa`, `atof` and the float value mode. F32 variables are 32-bit patterns, and `struct.pack('f')` is not modelled. The old generation's values (SCI.c, SCICommands.c, VarAccess.c) travel as opaque field text or 32-bit patterns.
- LegacyHost.SerialProtocol.Command, SetValue, GetValue: return the reply's value text; the `float()`/`int(... + 0.5)` conversion of the result is left out.
- OldSci.ResponseBuilder: the value text written by `ftoa` is a parameter; the number is written as `ftoa` writes a whole number.
- `malloc`/`free`/`memcpy`: buffers are sequences, allocation success is a parameter, and frees are recorded calls.
- The top-level state machines and init glue (`SCI_statemachine`, `SCI_init`, `SCISlaveStatemachine`), and functions declared without a body (the master dataframe and master API, the slave transfer header's functions).
- The stale Python `SCI.setvalue`/`getvalue`, which use attributes the class does not define.
- HostDriver.DecodeFrame: replies are read one byte per character, as ASCII; Python's UTF-8 `decode()` raising on invalid bytes or joining a multi-byte sequence into one character is not modelled.
- HostDriver.FromHex: white space between digit pairs, which `bytearray.fromhex` skips, is refused rather than skipped.
- SlaveDataframe.ReadAsWritten: the words after `ui32DataIdx` in `tsRESPONSECONTROL`, through which later rounds index as written, are not tracked; what those rounds read is a parameter.
- HostDriver.ParseInt: Python's `int(x, 16)` is modelled for an optional sign and hex digits of either case; white space, `0x` prefixes and underscores are not.
- HexCodec.StrToHex: the `int8_t` counter's wrap is modelled, but texts of 128 characters or more cannot occur with the 128-byte buffers and are not discussed further.
- OldCommands.ExecuteCmd: answers an invalid variable number for GETVAR and SETVAR with the default (invalid) response. For GETVAR the source reads `p_varStruct[num - 1]` at SCICommands.c:38 before any check; for SETVAR the checks inside `readValFromVarStruct` and `writeValToVarStruct` (SCICommands.c:58 and 64) leave `b_success` uninitialised (VarAccess.c:60-134 and 137-211), and when that lets the number through, SCICommands.c:68 reads `p_varStruct[num - 1]` unchecked. Both reads are undefined for such a number.
- SlaveDataframe.RequestParser / SlaveDataframe.StoreValues: the model supplies storage for the values that the source's only caller does not: `SCISlaveStatemachine` passes `tsREQUEST_DEFAULTS` (C/Slave/Src/SCISlave.c:113), whose `uValArr` is NULL (C/Common/Inc/SCITransferCommon.h:101), so every request with values, such as "3!5", is written through NULL at C/Slave/Src/SCISlaveDataframe.c:141. The model's `vals` grows to hold them and the parse ends in NoError.
- SlaveTransfer.GetVarSpec: an invalid number is answered VAR_NUMBER_INVALID; the source reads `p_varStruct[num - 1].vartype` (C/Slave/Src/SCISlaveTransfer.c:53) before the check, which is undefined for such a number.
- OldSci.ParseOld: the eleventh field is counted and kept; the source writes it past the 10-entry `f_valArr` (SCI.c:241), which a list of fields cannot show.
- VarStore.ValueOf: the UNKNOWN_DATATYPE branches cannot occur, since the data type is one of the seven listed.
- Datalink.Link: the debug functions and the tx/busy callbacks are recorded calls and parameters; the transmit callback's own behaviour is not modelled.
- MasterTransfer.Transfer: the master's callbacks are an event log; their effects on the caller are not modelled.

## Findings

| source | as written | input that shows it | evidently intended | confidence | as-written member | corrected member |
|---|---|---|---|---|---|---|
| C/Slave/Src/SCISlaveDataframe.c:349 | `*pui32DataIdx++` moves the local pointer, not the index: round one reads the right entry, later rounds read `puRespVals` at indices taken from the words after `ui32DataIdx` in `tsRESPONSECONTROL`, and the caller's index never moves | values [1, 2] with room for both | "1,2" and the index advanced per value, as C/Slave/Src/SCISlaveTransfer.c does | high, not executed | SlaveDataframe.PackAsWrittenSecondValue | SlaveDataframe.FillCarriesNextValues |
| Src/SCI.c:243 | the value loop runs while `ui8_numOfVals <= MAX_NUM_COMMAND_VALUES`, storing an eleventh value at `valArr[10]` | "?" followed by eleven comma-separated values | at most ten values stored | high, not executed | MidSci.ElevenValuesOverrun | MidSci.ParseCommand |
| SCI.c:261-268 | `cmdIdArr[e_cmdType]` with a 3-entry array indexed by enum codes 1..3 | a GETVAR answer | the identifier of the request's own kind | high, not executed | OldSci.ResponseIdShifted | OldSci.ResponseIdInverse |
| C/Slave/Src/VarAccess.c:412 | the guard `i16VarNum > 0 && i16VarNum` has no upper bound | variable number SIZE_OF_VAR_STRUCT + 1 | VAR_NUMBER_INVALID above the table | high, not executed | SlaveVarAccess.GetVarAcceptsPastEnd | SlaveVarAccess.GetVar |
| Src/VarAccess.c:409 | the same unbounded guard in `getVarPtr` | variable number SIZE_OF_VAR_STRUCT + 1 | VAR_NUMBER_INVALID above the table | high, not executed | MidVarAccess.GetVarPtrPastEnd | MidVarAccess.GetVarPtr |
| VarAccess.c:376-391 | the `break` after the unbraced `if` is unconditional, so only entry 0 is compared | the second of two EEPROM variables | the first matching entry | high, not executed | OldVarAccess.LookupAsWrittenMisses | OldVarAccess.LookupAsWrittenAgrees |
| VarAccess.c:244-247 | `~(addr == 0xFFFF)` is never zero, so an unknown address is read and written | the second of two one-byte EEPROM variables | stop when the address is unknown | high, not executed | OldVarAccess.GuardAsWrittenAlwaysPasses | OldVarAccess.OldSaveThenReload |
| VarAccess.c:60-134 | `b_success` is returned uninitialised for an invalid number | variable number 0 | false for an invalid number | medium, not executed | OldVarAccess.ReadValAsWrittenInvalid | OldVarAccess.readValFromVarStruct |
| VarAccess.c:137-211 | `b_success` is returned uninitialised for an invalid number | variable number 0 | false for an invalid number | medium, not executed | OldVarAccess.WriteValAsWrittenInvalid | OldVarAccess.writeValToVarStruct |
| Python/SCI.py:201 | the message calls `len()` on the integer limit | any packet longer than `maxPacketSize` | the size exception naming both sizes | high, not executed | HostDriver.OversizeRaisesTypeError | HostDriver.SendCheck |
| Python/SCI.py:239 | ERR raises with `rsp.dataArray[0]`, but the device puts the error number in field 1, so `dataArray` is None | the reply "5!ERR;3" | report the error number from field 1 | high, not executed | HostDriver.ErrReplyLosesNumber | HostDriver.CommandDeviceError |
| C/Master/Src/SCIMasterTransfer.c:58 | the SETVAR branch tests `GetVarCB` before calling `SetVarCB` | callbacks with only `SetVarCB` set | test `SetVarCB` | high, not executed | MasterTransfer.SetVarGuardMismatch | MasterTransfer.VarAnswerReleases |
| C/Master/Src/SCIMasterTransfer.c:103-105 | each DAT frame copies `ui32DatLen` entries while the count advances by `ui8MessageDataCnt` | a first frame announcing 3 values and carrying 2 | copy the frame's own count | high, not executed | MasterTransfer.DatCopyOverread | MasterTransfer.FeedDatDelivers |
| C/Master/Src/SCIMasterTransfer.c:35-48 | no return statement after an accepted request | an accepted request | return true | high, not executed | MasterTransfer.StartAcceptedHasNoResult | MasterTransfer.Start |
