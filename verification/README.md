# Air quality sensor node: a model and proofs

The repository is the firmware of an air quality sensor node (C, on Zephyr) and the server
that collects its measurements (Go). This project models the parts of it that carry state
or arithmetic worth arguing about, and proves what they keep over all inputs and all runs:

- **The modem stack.** The UART callback splits one byte stream into a reply ring and an URC
  ring (`Comms`, `UrcSelection`, `UrcNotices`, `LostNotices`, `UrcOverruns`), `decode_input` turns
  replies into callbacks (`AtCommands`, `AtLines`, `AtDecoders`, `NsorfRoundTrip`, `NsorfFields`,
  `ReplyRoundTrips`), and a table of seven sockets is changed by callers and by the URC thread
  (`SocketTable`, `SocketRuns`, `SlotHistory`, `SocketSlots`, `N2Offload`). `EndToEnd` puts the receiving side
  together: what the caller decodes and what the URC thread reports, in the same run;
  `NoticesToPoll` goes on to what `offload_poll` reports.
- **Framing and integrity codes.** The CRC-16 of the particle sensor (`ShiftRegister`, `Crc16`),
  NMEA 0183 sentences checked, split in place and assembled byte by byte (`Nmea`,
  `NmeaSentences`, `GpsLines`, `Gps`, `GpsReceiver`, `GpsAbandoned`, `GpsSentences`), and the records of firmware
  update messages (`Fota`).
- **The streaming broker** and the writers of its clients (`Broker`, `StreamWriter`), and both
  together (`Streaming`).
- **Server data structures.** The calibration cache (`Calibration`), the backlog fetcher
  (`Fetch`) and the ring of recent messages (`CircularBuffer`).

`Bytes`, `Text`, `Numerals` and `Separated` hold the arithmetic on bytes, C strings, the text
forms of numbers, and text made of separated parts; `Common` two definitions more. Bytes are
unsigned; words and bytes are bounded integers, and shifts and exclusive-or are written out.

Code that works by changing state is modelled by methods and classes over arrays and fields,
each proved against a function of the old state; the lemmas then speak of those functions.
Where a definition serves both the code and its specification, some theorem says what it means in
characters, numbers or fields, without it: the constants of the code stand in the modules beside
the code, and the theorems write the values out.
Code run by several parties is a step relation over its kernel calls or critical sections,
and the lemmas quantify over all runs of it. `dafny verify dfyconfig.toml` checks everything.

## Where the code falls short

Each of these is stated exactly, as an equivalence or for every input concerned:

- The `valid` flag that `opc_n3_sample_data` stores is set for the frames that *fail* the
  checksum (`Crc16.SampleData`).
- A GPS line that stops right after its `$` is handed to a decoder chosen by bytes of an
  earlier, abandoned line; for every other line the choice depends on the line alone
  (`Gps.DispatchDependsOnLineIff`, and `GpsAbandoned` for a stream that brings it about).
- What the reply ring has no room for is not remembered either. The URC side recognises a `+` by
  the last byte that was not lost, and does so rightly at every position exactly if no `+`
  outside an open line meets a memory that is wrong about the line feed before it
  (`UrcSelection.SelectionIsRightIff`). Whatever the rings, there is a run in which a complete
  notification leads to no call, although the URC ring has room (`LostNotices.NotificationIsLost`).
- The URC thread writes past its buffer exactly when 64 bytes of a line are followed by anything
  but a line feed (`UrcOverruns.OverrunIff`); whatever the rings, there is a run that comes to it
  without anything being dropped (`UrcOverruns.OverrunIsReachable`).
- The CIMI decoder writes past its caller's buffer exactly when the identity leaves no room for
  its terminator, and the buffer is shorter than the 256 bytes its index can reach
  (`ReplyRoundTrips.IdentityOverrunsIff`).
- If the modem answers the request for the identity with OK alone, those two letters are taken for
  the identity, and the caller is told that all is well (`ReplyRoundTrips.MissingIdentityReadsOk`).
- The NSORF decoder leaves its field buffer exactly when a field has more than 16 characters, or
  exactly 16 and is one that is read as a string (`NsorfFields.FieldOverrunsIff`).
- A notification without a comma makes the URC thread read the count through a pointer it never set
  (`UrcNotices.ThreadCalls`).
- The fetcher skips messages exactly when a page ends between two messages of the same receive
  time (`Fetch.CollectedIsCompleteIff`); and, where no page ends so, a run brings in everything
  that is missing exactly when all of it is newer than the newest message stored
  (`Fetch.LaterRunCoversIff`), so what an interrupted run has not stored is lost to all later
  ones (`Fetch.InterruptedRunLosesTheRest`).
- Unregistering a client keeps it out exactly if the broker has accepted it before; a reader
  that gives up earlier is not heard (`Broker.UnregisterIsHeardIff`).
- The NSORF decoder always reports that nothing remains, so a read that returns data clears
  what was announced, even if the modem holds more (`SocketTable.NothingRemains`). The comment
  in the source admits this.
- `VALID_SOCKET` keeps its index in the table exactly for descriptors below 107, where its range
  test goes on to 107 (`SocketTable.GuardReadsTableIff`); it admits exactly the open sockets if
  and only if what lies there reads as zero (`SocketTable.GuardIsExactIff`).

## Model

| member | source | states |
|---|---|---|
| `ShiftRegister.StepIsABijection` | Firmware/src/opc_n3.c:213-221 | one shift of the register can be undone, in both directions |
| `ShiftRegister.StepsInjective` | Firmware/src/opc_n3.c:211-222 | any number of shifts keeps different registers different |
| `ShiftRegister.FeedLinear` | Firmware/src/opc_n3.c:208-223 | the register after the sum of two bit streams is the sum of the registers after each |
| `ShiftRegister.FeedWord` | Firmware/src/opc_n3.c:210-222 | adding up to 16 bits at once and shifting is the same as shifting them in one by one |
| `ShiftRegister.ShortWordLeavesATrace` | Firmware/src/opc_n3.c:208-223 | a non-zero word of at most 16 bits never leaves an empty register empty |
| `ShiftRegister.BurstLeavesATrace` | Firmware/src/opc_n3.c:208-223 | an error pattern within a 16-bit window leaves a trace whatever its position and however long the message |
| `ShiftRegister.GeneratorLeavesNoTrace` | Firmware/src/opc_n3.c:201-221 | of the 17-bit patterns that start with a set bit, exactly the polynomial x^16 + x^15 + x^2 + 1 leaves no trace |
| `ShiftRegister.StepKeepsParity` | Firmware/src/opc_n3.c:201-221 | a shift keeps the parity of the register |
| `ShiftRegister.FeedParity` | Firmware/src/opc_n3.c:208-223 | the parity of the register is that of everything fed into it |
| `Crc16.CellsOfShift` | Firmware/src/opc_n3.c:213-221 | both arms of the inner loop are one shift of the register, for every word |
| `Crc16.CrcSnoc` | Firmware/src/opc_n3.c:208-223 | one turn of the outer loop feeds the eight bits of a byte, low bit first |
| `Crc16.CalcCrc` | Firmware/src/opc_n3.c:199-225 | the nested loops compute the register after all the bits of the message; of no bytes the checksum is 0xFFFF |
| `Crc16.CrcDifference` | Firmware/src/opc_n3.c:199-225 | two checksums differ by what the difference of the messages leaves in an empty register |
| `Crc16.CrcAffine` | Firmware/src/opc_n3.c:199-225 | crc(a) ^ crc(b) ^ crc(c) = crc(a ^ b ^ c) for messages of equal length |
| `Crc16.BurstErrorsAreDetected` | Firmware/src/opc_n3.c:199-225 | different messages of equal length that differ only within 16 consecutive bits never share a checksum |
| `Crc16.SeventeenBitErrorsAreMissedIff` | Firmware/src/opc_n3.c:199-225 | sixteen is the best possible: messages that differ within 17 consecutive bits, in the first of them, share a checksum if and only if they differ in exactly the bits of x^16 + x^15 + x^2 + 1 |
| `Crc16.LeadingZeroIsDetected` | Firmware/src/opc_n3.c:202-205 | what the non-zero start is for: a zero byte in front of a message always changes the checksum |
| `Crc16.SilenceIsNoFrame` | Firmware/src/opc_n3.c:202-283 | and zeros alone, of any length, never leave the register empty, so a silent bus is never accepted |
| `Crc16.OneWrongBitSurvives` | Firmware/src/opc_n3.c:201-221 | a difference of 0xA001 in the register cannot vanish in fewer than 16 bits, whatever they are |
| `Crc16.OddErrorsAreDetected` | Firmware/src/opc_n3.c:199-225 | messages that differ in an odd number of bits never share a checksum |
| `Crc16.CellsOfUint16` | Firmware/src/opc_n3.c:171-182 | the two bytes of a value are its bits in the order they are shifted |
| `Crc16.ResidueIsZero` | Firmware/src/opc_n3.c:281-283 | appending two bytes gives checksum zero if and only if they are the low and high byte of the checksum before |
| `Crc16.OpcSample` | Firmware/src/opc_n3.c:281-291 | a frame is accepted if and only if the checksum of all its 86 bytes is zero |
| `Crc16.SampleData` | Firmware/src/opc_n3.c:316-319 | the stored flag is set if and only if the frame fails the check |
| `Nmea.NmeaValid` | Firmware/src/nmealib.c:42-90 | accepts exactly the buffers with a preamble, printable characters after it up to the end of the sentence, and, if there is a checksum mark, the right two digits after it |
| `Nmea.SplitFields` | Firmware/src/nmealib.c:104-135 | finds where every field starts, and clears exactly the separators of the sentence |
| `Nmea.NmeaParse` | Firmware/src/nmealib.c:92-159 | leaves a rejected buffer alone; terminates each field of an accepted one in place, and reports fields, talker and type |
| `Separated.SplitOfJoin` | Firmware/src/nmealib.c:104-117 | splitting undoes joining, for parts without a separator: fields and commas here, messages and line feeds in the frames of client.go |
| `Separated.JoinOfSplit` | Firmware/src/nmealib.c:104-117 | joining undoes splitting, for every text |
| `NmeaSentences.OpenedIsSplit` | Firmware/src/nmealib.c:104-141 | the offsets the parser finds are those of the comma-separated parts of the text after the preamble |
| `NmeaSentences.FieldsAreParts` | Firmware/src/nmealib.c:104-141 | after parsing, each field is NUL-terminated in place and reads as its part |
| `NmeaSentences.PrintedIsValid` | Firmware/src/nmealib.c:42-90 | a printed sentence is accepted, whatever follows it in the buffer |
| `NmeaSentences.MarkedIsValidIff` | Firmware/src/nmealib.c:30-90 | a sentence between `$` and `*` is accepted if and only if its characters are 32 to 126 and the two behind the mark are upper-case hexadecimal digits of the exclusive-or of its body |
| `NmeaSentences.UnmarkedIsValidIff` | Firmware/src/nmealib.c:42-90 | one that ends in CR, LF or NUL is accepted if and only if its characters are 32 to 126 |
| `NmeaSentences.XorAllIsColumnParity` | Firmware/src/nmealib.c:65-70 | each bit of that exclusive-or is set if and only if it is set in an odd number of the characters |
| `NmeaSentences.TalkerOfPrint` | Firmware/src/nmealib.c:143-157 | talker and type are a `P` and the rest of the first field, or its first two characters and the rest |
| `NmeaSentences.ParseOfPrint` | Firmware/src/nmealib.c:92-141 | parsing a printed sentence gives back exactly its fields |
| `NmeaSentences.JoinOfParse` | Firmware/src/nmealib.c:92-141 | on any terminated sentence with one preamble, joining the returned fields gives back the body |
| `NmeaSentences.PrintOfParse` | Firmware/src/nmealib.c:80-141 | an accepted sentence with a checksum is, up to its line end, what the printer writes for its fields |
| `NmeaSentences.OneWrongCharacterIsRejected` | Firmware/src/nmealib.c:65-88 | replacing one character of the body by any other that is not a preamble or terminator makes a printed sentence rejected |
| `GpsLines.ReceivedIsSplitLines` | Firmware/src/gps.c:38-50 | for every byte stream, the lines handed to the parser are those of a splitter that cuts after line feeds and discards 254-byte chunks |
| `Gps.LineEnd` | Firmware/src/nmealib.c:56-88 | for every line handed over, the checker stops inside it and its two-character lookahead stays inside the buffer |
| `Gps.StaleBytesDoNotMatter` | Firmware/src/gps.c:40-51 | acceptance, field positions and the cleared line do not depend on what an earlier line left in the buffer |
| `Gps.LineReport` | Firmware/src/gps.c:49-51 | the fields and talker reported depend on the line alone |
| `Gps.KindFromLine` | Firmware/src/gps.c:53-105 | so does the decoder picked, when the line goes on after its preamble |
| `Gps.KindBeyondLine` | Firmware/src/gps.c:53-105 | when it does not, the decoder is picked by the three bytes behind the line |
| `Gps.DispatchDependsOnLineIff` | Firmware/src/gps.c:53-105 | the choice depends on the line alone if and only if the line does not stop right after its preamble |
| `Gps.KindIff` | Firmware/src/gps.c:53-105 | GGA, GSA, RMC, GSV and VTG are each picked if and only if the three type bytes spell that name |
| `GpsSentences.SentencePicksItsDecoder` | Firmware/src/gps.c:38-111 | a printed sentence with a two-letter talker and one of those names, sent to a receiver with nothing pending, is handed over as one line, reported with its fields and talker, and picks exactly that decoder |
| `GpsSentences.FirstSentencePicksItsDecoder` | Firmware/src/gps.c:38-111 | in particular from a receiver just started |
| `GpsReceiver.FollowsStep` | Firmware/src/gps.c:38-111 | lines, decoders picked, pending bytes and buffer, computed byte by byte, are those of the whole stream |
| `GpsReceiver.Receiver.RxData` | Firmware/src/gps.c:38-111 | after every byte the buffer holds the splitter's remainder and behind it what the stream left there, the parser has had exactly its lines, and the decoders picked are those of the stream; a line reports what it alone determines |
| `GpsReceiver.Receiver.ParseLine` | Firmware/src/gps.c:47-109 | the line-feed branch: the line's own report, the decoder picked in the buffer as it is, and the buffer cleared |
| `GpsAbandoned.PreambleAlone` | Firmware/src/nmealib.c:42-141 | a `$` and a line feed is an accepted line that stops at its preamble |
| `GpsAbandoned.AbandonedLineShowsThrough` | Firmware/src/gps.c:38-111 | for every such line: from a receiver just started, the line alone picks no decoder, and the line behind an abandoned one is handed over just so, and picks GGA |
| `AtCommands.LineBuffer.Add` | Firmware/src/at_commands.c:38-45 | keeps the first ten bytes of the line and its length in 16 bits |
| `AtCommands.LineBuffer.Is` | Firmware/src/at_commands.c:47-54 | holds if and only if the line starts with the pattern |
| `AtCommands.FinalCode` | Firmware/src/at_commands.c:92-104 | a code is reported if and only if the whole line is OK or ERROR with its line end |
| `AtCommands.Turn` | Firmware/src/at_commands.c:83-122 | one turn of the loop extends the line, or ends it, and calls the callbacks with the right flags |
| `AtCommands.RunIsDecode` | Firmware/src/at_commands.c:81-124 | the byte-at-a-time machine, started anywhere inside a line, ends as the line-by-line reading does |
| `AtCommands.DecodeInput` | Firmware/src/at_commands.c:74-125 | the loop returns the code, context and number of bytes consumed of the line-by-line reading |
| `AtLines.EveryInputIsLines` | Firmware/src/at_commands.c:105-113 | every input is complete lines followed by part of one |
| `AtLines.CodeOfFirstFinal` | Firmware/src/at_commands.c:74-125 | on every input, the first line equal to OK or ERROR, written out with CR LF, gives AT_OK or AT_ERROR and exactly the input through it is consumed; without one it is a timeout and everything is consumed |
| `AtLines.FirstFinalLineDecides` | Firmware/src/at_commands.c:92-104 | code, context and consumption when a final line is reached |
| `AtLines.NoFinalLineTimesOut` | Firmware/src/at_commands.c:81-124 | the same when none is |
| `AtLines.EolBeforeFinal` | Firmware/src/at_commands.c:105-113 | the end-of-line callback is called once for each line before the final one, in order, with its first ten bytes |
| `AtLines.CodeIsShared` | Firmware/src/at_commands.c:74-125 | code and consumption do not depend on the decoder |
| `AtLines.RepliesDecide` | Firmware/src/at_commands.c:83-113 | dropping every line that starts with `+` changes neither code nor context, for any decoder that disregards them |
| `AtLines.UrcsAreInvisible` | Firmware/src/at_commands.c:83-113 | two replies that agree up to such lines are the same to it |
| `AtLines.LineDecides` | Firmware/src/at_commands.c:74-125 | a reply of several lines and OK comes to what one of them comes to, if those behind it change nothing |
| `AtLines.OneLineDecides` | Firmware/src/at_commands.c:74-125 | a reply of one line and OK, with blank and unsolicited lines before each, comes to what its line comes to |
| `AtDecoders.AtnsocrDecode` | Firmware/src/at_commands.c:220-235 | the NSOCR decoder is its callback run over the lines, starting from -2 |
| `ReplyRoundTrips.SentRoundTrip` | Firmware/src/at_commands.c:240-272 | an NSOST reply, among blank and unsolicited lines, is read as its socket and length |
| `ReplyRoundTrips.FirstLengthCounts` | Firmware/src/at_commands.c:246-261 | and once a positive length is read, no other line changes it |
| `AtDecoders.AtnsostDecode` | Firmware/src/at_commands.c:264-272 | the byte loop with the NSOST callback; what it comes to is in the rows above |
| `AtDecoders.AtnsorfDecode` | Firmware/src/at_commands.c:280-378 | the same for NSORF |
| `ReplyRoundTrips.IdentityRoundTrip` | Firmware/src/at_commands.c:388-455 | an identity that fits the caller's buffer, after blank and unsolicited lines and before any others, is stored there with its NUL, and nothing else is written |
| `ReplyRoundTrips.IdentityOverrunsIff` | Firmware/src/at_commands.c:403-422 | for every identity and every buffer, among blank and unsolicited lines: the decoder writes past the buffer if and only if the identity is at least as long as the buffer and the buffer shorter than 256 bytes |
| `ReplyRoundTrips.MissingIdentityReadsOk` | Firmware/src/at_commands.c:403-455 | if the modem says OK without an identity, the buffer holds the letters OK |
| `AtDecoders.AtcimiDecode` | Firmware/src/at_commands.c:446-455 | the byte loop with the CIMI callbacks on the caller's buffer; what they come to is in the rows above |
| `AtDecoders.UrcInsertionIsInvisible` | Firmware/src/at_commands.c:220-455 | inserting or removing any `+` lines at line boundaries changes neither code nor any output of the four decoders |
| `Numerals.AtoiOfDec` | Firmware/src/at_commands.c:225-331 | atoi reads back a printed number, whatever follows that is no digit |
| `Numerals.AtoiOfText` | Firmware/src/at_commands.c:225-331 | also behind blanks and a sign |
| `Numerals.FromHexPairOfHex` | Firmware/src/at_commands.c:276-354 | a byte written with TO_HEX is read back |
| `Numerals.FromHexPairOfDigits` | Firmware/src/at_commands.c:276-354 | the decoder reads two upper-case hexadecimal digits as the number they stand for |
| `Numerals.HexIsPairs` | Firmware/src/n2_offload.c:303-309 | the sender writes two such digits for each byte, in order |
| `NsorfRoundTrip.ScanHex` | Firmware/src/at_commands.c:350-358 | the characters of a payload in hexadecimal add exactly that payload to the received data |
| `NsorfRoundTrip.ScanHeader` | Firmware/src/at_commands.c:318-347 | the fields before the payload are stored where they belong |
| `NsorfRoundTrip.RoundTrip` | Firmware/src/at_commands.c:276-378 | for every datagram, its reply line after blank and unsolicited lines, then whatever lines and OK, decode to AT_OK with exactly its payload, length, socket, address and port |
| `NsorfRoundTrip.MachineNumbersFit` | Firmware/src/at_commands.c:278-290 | 31-bit numbers fit the decoder's field buffer |
| `NsorfFields.BlanksAreSkipped` | Firmware/src/at_commands.c:306-313 | spaces, tabs and line ends anywhere change nothing |
| `NsorfFields.SpacedRoundTrip` | Firmware/src/at_commands.c:276-378 | however blanks are strewn over the reply line, the same datagram is decoded from it |
| `NsorfFields.FieldOverrunsIff` | Firmware/src/at_commands.c:306-361 | a field leaves the field buffer if and only if it has more than 16 characters, or exactly 16 and is looked at as a string |
| `ReplyRoundTrips.DescriptorRoundTrip` | Firmware/src/at_commands.c:220-235 | every socket id of up to ten digits is read back from its NSOCR reply, whatever lines stand before it |
| `ReplyRoundTrips.NoDescriptor` | Firmware/src/at_commands.c:230-235 | if the modem says OK and names no socket, the id is -2 |
| `Comms.RxConservation` | Firmware/src/comms.c:102-156 | under every interleaving, bytes in the reply ring = semaphore count + takes without a get + puts without a give; delivered and queued bytes are the accepted ones |
| `Comms.ReadersGetTheBytes` | Firmware/src/comms.c:129-156 | a successful take always yields a byte, the next one accepted; the semaphore never saturates; what is delivered is a prefix of what was accepted |
| `Comms.LineStartSeenIff` | Firmware/src/comms.c:104-130 | outside an unsolicited line, a `+` after a line feed opens one if and only if the line feed was accepted or the last accepted byte was one |
| `Comms.LineMiddleMistakenIff` | Firmware/src/comms.c:104-130 | a `+` behind the first byte of an ordinary line opens one if and only if that byte was dropped |
| `LostNotices.FullRingIsReachable` | Firmware/src/comms.c:102-131 | whatever the rings, a run leads to a full reply ring with an empty URC ring, from which a line feed and a `+` open nothing |
| `LostNotices.NotificationIsLost` | Firmware/src/comms.c:56-131 | for every notification, a run in which it arrives complete, the URC ring drops nothing and is emptied, and no call is made |
| `Comms.HandledIsItsSteps` | Firmware/src/comms.c:102-131 | the whole callback is the sequence of its steps when nothing interrupts it |
| `Comms.Modem.HandleChar` | Firmware/src/comms.c:102-131 | the code leads where the whole callback should |
| `Comms.Modem.ModemRead` | Firmware/src/comms.c:141-156 | returns the oldest byte of the ring, by one take and one get |
| `Comms.Modem.UrcTurn` | Firmware/src/comms.c:61-96 | one turn of the URC thread is one take and one get of the model |
| `Comms.Modem.EndOfUrc` | Firmware/src/comms.c:66-90 | the comma loop cuts the line at every comma and calls back with the numbers behind the prefix and behind the last comma |
| `UrcSelection.UrcConservation` | Firmware/src/comms.c:56-131 | in every run, whatever the reply ring drops: the callback remembers the last byte not lost, and while the URC ring drops nothing, what the URC thread has read and what is queued is exactly what that memory selects |
| `UrcSelection.SelectionIsRightIff` | Firmware/src/comms.c:104-122 | that is the right choice at every position if and only if no `+` outside an open line meets a memory that is wrong about the line feed before it |
| `UrcSelection.SpareIsUndisturbed` | Firmware/src/comms.c:104-130 | in particular if the reply ring drops no line feed and no first byte of a line |
| `UrcSelection.NoByteIsStranded` | Firmware/src/comms.c:56-131 | in every run, whatever is dropped, every byte in the URC ring has its wake-up: when the thread waits and the callback is idle, the ring is empty |
| `UrcNotices.SelectedStream` | Firmware/src/comms.c:110-122 | from well-formed lines the callback selects exactly those that start with `+`, each with its carriage return |
| `UrcNotices.ThreadLine` | Firmware/src/comms.c:64-95 | a complete unsolicited line makes exactly the calls it means, and stays inside the thread's buffer |
| `UrcOverruns.OverrunIff` | Firmware/src/comms.c:58-95 | the thread writes past its buffer if and only if 64 or more bytes of a line are followed by a byte that is no line feed |
| `UrcOverruns.OverrunIsReachable` | Firmware/src/comms.c:56-131 | whatever the rings, a run comes to it although neither ring drops anything and every byte is taken before the next arrives |
| `UrcNotices.NoticeOfNotification` | Firmware/src/comms.c:72-87 | a notification line is read with its own two numbers |
| `UrcNotices.ThreadCalls` | Firmware/src/comms.c:64-95 | a line with more numbers is called back with the one behind its last comma, one without a comma without a count, and a line with another beginning not at all |
| `UrcNotices.NoticesInOrder` | Firmware/src/comms.c:56-131 | at every moment of a run in which the URC ring drops nothing and the selection is undisturbed, the calls made are a prefix of those asked for |
| `UrcNotices.EveryNoticeExactlyOnce` | Firmware/src/comms.c:56-131 | once all is processed in such a run, the callback has been called exactly once for each notification, in stream order, with its numbers; and if nothing at all was dropped, readers have had every byte |
| `EndToEnd.NoticesAndReplies` | Firmware/src/comms.c:56-156 | in every run without a dropped byte, the calls made are those the notifications ask for, and a decoder over what the readers were given sees the reply lines alone |
| `EndToEnd.DatagramAndNotices` | Firmware/src/at_commands.c:276-378 | a datagram sent while notifications arrive is decoded with exactly its payload, length and sender, and each notification leads to exactly one call, whatever the interleaving |
| `SocketTable.SocketKeepsInv` | Firmware/src/n2_offload.c:354-399 | opening keeps the table's invariant, given fresh non-negative ids, and hands out descriptors 100 to 106 |
| `SocketTable.CloseKeepsInv` | Firmware/src/n2_offload.c:64-98 | so does closing |
| `SocketTable.SocketFailsIff` | Firmware/src/n2_offload.c:369-398 | a socket is refused, with ENOMEM, if and only if every slot is in use or the modem does not say OK |
| `SocketTable.CloseAndConnectReturn` | Firmware/src/n2_offload.c:79-121 | closing fails with ENOMEM if and only if the modem does not say OK, connecting with EISCONN if and only if the slot is free; a closed slot is blank, and a failure changes nothing |
| `SocketTable.CloseUndoesSocket` | Firmware/src/n2_offload.c:79-98 | closing what was just opened frees that slot and changes no other; only its port is used up |
| `SocketTable.ConnectKeepsInv` | Firmware/src/n2_offload.c:100-121 | so does connecting |
| `SocketTable.RecvKeepsInv` | Firmware/src/n2_offload.c:148-218 | so does reading, whatever the reply |
| `SocketTable.NotifyKeepsInv` | Firmware/src/n2_offload.c:446-458 | so does a notification |
| `SocketTable.NothingRemains` | Firmware/src/at_commands.c:295-304 | the NSORF decoder never reports anything remaining |
| `SocketTable.RecvEmpties` | Firmware/src/n2_offload.c:165-217 | a read that returns data leaves nothing pending; any other leaves the table alone |
| `SocketTable.RecvReturns` | Firmware/src/n2_offload.c:165-217 | a read returns the number of bytes handed over; zero if there are none; ENOMEM if and only if the modem was asked and did not say OK |
| `SocketTable.CountIsLength` | Firmware/src/at_commands.c:350-358 | on every input, the number of bytes reported is the number of bytes stored |
| `SocketRuns.EveryRunKeepsInv` | Firmware/src/n2_offload.c:64-458 | over every run: in use if and only if the id is not -1; distinct ids and ports of open slots; nothing pending and no address on free ones; pending bytes = bytes announced since opened or last read |
| `SocketRuns.PendingIsOutstanding` | Firmware/src/n2_offload.c:446-458 | a positive count is pending if and only if some positive announcement has not been settled since |
| `SocketRuns.PollInIffOutstanding` | Firmware/src/n2_offload.c:123-146 | the answer of poll for an open socket is POLLIN if and only if a positive number of bytes was announced for its id since it was opened or last read; no notification is lost to a racing read |
| `SocketRuns.OpenSlotWasSettled` | Firmware/src/n2_offload.c:354-399 | every open slot has a last event that opened it or read data from it |
| `SocketSlots.PortsAreCounted` | Firmware/src/n2_offload.c:354-399 | in every run the next local port is 6000 plus the number of sockets opened |
| `SocketSlots.OpenSlotWasOpened` | Firmware/src/n2_offload.c:354-399 | every open slot was opened by some event and has been open since; its id is the one the modem gave then, its port 6000 plus the number of sockets opened before |
| `SocketSlots.AddressIsLastConnected` | Firmware/src/n2_offload.c:100-121 | an open slot holds an address if and only if it was connected to it, last, since it was opened, and is connected if and only if it holds one |
| `NoticesToPoll.IncomingIsTotal` | Firmware/src/n2_offload.c:446-458 | what an open slot believes to be pending is the sum of what the calls announced for its id since that event |
| `NoticesToPoll.PollReportsTheWire` | Firmware/src/n2_offload.c:123-146 | with all calls of the URC thread in the table: for every open socket, what is pending is what the modem's lines announced for its id after the point handled when it was opened or last read, and the answer of poll is POLLIN if and only if one of them announced a positive number |
| `SocketTable.GuardReadsTableIff` | Firmware/src/n2_offload.c:56 | of the descriptors that the range test admits, exactly those below the strict bound have their index in the table |
| `SocketTable.GuardIsExactIff` | Firmware/src/n2_offload.c:56 | the guard admits exactly the open sockets if and only if what lies behind the table reads as zero |
| `N2Offload.Driver.IsValidSocket` | Firmware/src/n2_offload.c:56 | the guard, for every descriptor, given what lies behind the table |
| `N2Offload.Driver.OffloadSocket` | Firmware/src/n2_offload.c:354-399 | error order, the table and command of the critical section, semaphore given back on every path |
| `N2Offload.Driver.OffloadClose` | Firmware/src/n2_offload.c:79-98 | the same for close |
| `N2Offload.Driver.OffloadConnect` | Firmware/src/n2_offload.c:100-121 | the same for connect |
| `N2Offload.Driver.ConnectSection` | Firmware/src/n2_offload.c:108-120 | including a slot closed since its descriptor was checked |
| `N2Offload.Driver.OffloadPoll` | Firmware/src/n2_offload.c:130-145 | every entry answered for its own descriptor: POLLNVAL unless it is 100 to 106 and its slot in use, else POLLIN if and only if the pending count of that slot is positive; nothing else changed |
| `N2Offload.Driver.OffloadRecvFrom` | Firmware/src/n2_offload.c:148-218 | the table of the critical section, the length asked for, and the data of the reply |
| `N2Offload.Driver.WriteHex` | Firmware/src/n2_offload.c:303-309 | the digits written are the payload in hexadecimal |
| `N2Offload.Driver.OffloadSendTo` | Firmware/src/n2_offload.c:261-332 | size and descriptor errors before anything is sent; else one command with the payload's digits; the table unchanged |
| `N2Offload.Driver.ReceiveCb` | Firmware/src/n2_offload.c:446-458 | adds the bytes to every slot of that id and to no other |
| `N2Offload.ReadDelivers` | Firmware/src/n2_offload.c:165-212 | after a notification, a reply carrying a datagram makes the read return exactly its payload and leaves nothing pending |
| `Broker.EveryRunKeepsInv` | server/pkg/pipeline/stream/broker.go:50-92 | in every run each channel is closed at most once, never used afterwards, and registrations = live clients + dropped + unregistered |
| `Broker.LiveClientsMissNothing` | server/pkg/pipeline/stream/broker.go:53-62 | what a live client's writer has taken and what is queued is exactly the broadcasts since its registration |
| `Broker.JoinsOnRegistration` | server/pkg/pipeline/stream/broker.go:64-67 | a client joins at its registration, and its share starts there for good |
| `Broker.DeliveryOrEviction` | server/pkg/pipeline/stream/broker.go:53-75 | a client leaves only by unregistering or because 256 messages were queued, keeps exactly the broadcasts up to then, and its channel stays closed |
| `Broker.BroadcastRemovesIff` | server/pkg/pipeline/stream/broker.go:53-61 | a broadcast removes a live client if and only if exactly 256 messages are queued for it; for any other the message joins the queue and nothing else changes |
| `Broker.GoneForGood` | server/pkg/pipeline/stream/broker.go:50-92 | a client that left never comes back and is given nothing more |
| `Broker.NobodyGetsAnythingElse` | server/pkg/pipeline/stream/broker.go:50-92 | live or gone, what a client has been given is a prefix of the broadcasts since its registration |
| `Broker.StalledClientIsEvicted` | server/pkg/pipeline/stream/broker.go:54-62 | a client whose writer has stopped is gone after 257 broadcasts |
| `Broker.UnregisterIsHeardIff` | server/pkg/pipeline/stream/broker.go:64-75 | after an unregistration the client stays out in every continuation if and only if the loop had accepted it before |
| `Broker.Loop.OnBroadcast` | server/pkg/pipeline/stream/broker.go:53-62 | ranging over the clients in any order, evicting on the way, is one broadcast step |
| `Broker.Loop.OfferTo` | server/pkg/pipeline/stream/broker.go:55-61 | sends if there is room, else evicts and counts |
| `Broker.Loop.OnRegister` | server/pkg/pipeline/stream/broker.go:64-67 | the registration step |
| `Broker.Loop.OnUnregister` | server/pkg/pipeline/stream/broker.go:69-75 | the unregistration step, a second close excluded |
| `StreamWriter.Writer.WriteTurn` | server/pkg/pipeline/stream/client.go:79-106 | one turn takes exactly what was queued, in order, and the frames written so far give back everything taken; a closed channel is drained before the close is passed on; after a failed frame the writer stops, and the frames give back what was taken before it |
| `StreamWriter.Writer.Pack` | server/pkg/pipeline/stream/client.go:94-101 | a frame holds the first message and all that were queued, and nothing that was queued later |
| `Streaming.ConnectionSeesItsShare` | server/pkg/pipeline/stream/client.go:72-115 | in every interleaving of the broker with the writers, the lines on a client's connection are a prefix of the broadcasts since its registration, and all of them once its writer has caught up |
| `Streaming.RemovedConnectionSawItsShare` | server/pkg/pipeline/stream/client.go:72-115 | once an evicted or unregistered client has drained its channel and finished its frames, its connection has had exactly the broadcasts from its registration to its removal |
| `Calibration.GroupKeepsEntries` | server/pkg/pipeline/calculate/calculate.go:58-60 | grouping keeps every entry as often as it was listed, under its own device only |
| `Calibration.ListingOrderDoesNotMatter` | server/pkg/pipeline/calculate/calculate.go:55-75 | so the order of the listing does not matter |
| `Calibration.GroupByDevice` | server/pkg/pipeline/calculate/calculate.go:56-60 | the loop computes the groups of the listing and no others |
| `Calibration.SortGroups` | server/pkg/pipeline/calculate/calculate.go:67-71 | each group is sorted by date, latest first, and keeps its entries |
| `Calibration.Calculate.PopulateCache` | server/pkg/pipeline/calculate/calculate.go:55-75 | the cache agrees with the listing |
| `Calibration.Calculate.LoadCache` | server/pkg/pipeline/calculate/calculate.go:44-53 | a failed listing changes nothing; a successful one replaces the cache |
| `Calibration.Calculate.FindCacheEntry` | server/pkg/pipeline/calculate/calculate.go:79-124 | returns the entry in force for the device at that time; refreshes at most once, only for a missing device, and never within five seconds of the last refresh |
| `Calibration.Search` | server/pkg/pipeline/calculate/calculate.go:115-123 | the latest entry not after the date, else the earliest, else the zero entry |
| `Fetch.FetchLoop` | server/cmd/aq/fetch.go:77-114 | the loop ends, and publishes and counts the decodable messages of the pages, newest first |
| `Fetch.PublishPage` | server/cmd/aq/fetch.go:87-107 | a page publishes its decodable messages in order and skips the others |
| `Fetch.CollectedIsCompleteIff` | server/cmd/aq/fetch.go:77-114 | the pages cover the range if and only if no page ends between two messages of the same receive time |
| `Fetch.FetchIsComplete` | server/cmd/aq/fetch.go:68-114 | with distinct receive times they cover it, each message once |
| `Fetch.PublishedIsRecent` | server/cmd/aq/fetch.go:47-114 | a run publishes only decodable messages of the archive, up to now, that are newer than the newest stored, or from 1585094400000 on if nothing is stored |
| `Fetch.LaterRunRepublishesNothing` | server/cmd/aq/fetch.go:47-114 | once messages are stored, a later run publishes none of them again, whatever the archive has become |
| `Fetch.LaterRunCoversIff` | server/cmd/aq/fetch.go:47-114 | if no page ends between equal receive times, a run brings in every missing message if and only if all of them are newer than the newest one stored |
| `Fetch.InterruptedRunLosesTheRest` | server/cmd/aq/fetch.go:52-114 | what an interrupted run has not stored is published by no later run |
| `Fota.EncodeTlvString` | Firmware/src/fota_tlv.c:8-18 | writes one record at its place and nothing else |
| `Fota.DecodeTlvString` | Firmware/src/fota_tlv.c:25-35 | returns the bytes of the record and the index behind it |
| `Fota.DecodeTlvUint32` | Firmware/src/fota_tlv.c:37-51 | 2^24, 2^16, 2^8 and 1 times the four bytes; an error if and only if the length is not 4 |
| `Fota.DecodeTlvBool` | Firmware/src/fota_tlv.c:53-64 | the same for a flag of length 1 |
| `Fota.DecodeSimpleResponse` | Firmware/src/fota.c:69-112 | success, failure and the response, as the record-by-record walk has them |
| `Fota.WalkRecords` | Firmware/src/fota.c:73-111 | on any concatenation of well-formed records the walk is the left fold of their updates and ends exactly at the length given |
| `Fota.NumberOfBytes` | Firmware/src/fota_tlv.c:45-49 | every 32-bit number is read back from its four bytes, most significant first |
| `Fota.WalkStops` | Firmware/src/fota.c:73-111 | records followed by one with an unknown id, or a number or flag of the wrong length: the decoder fails there, having applied those before it |
| `Fota.WalkOneFailsIff` | Firmware/src/fota.c:76-109 | and fails on no other |
| `Fota.WalkOneOverfillsIff` | Firmware/src/fota_tlv.c:25-35 | a text overfills its field if and only if it has more than 24 bytes |
| `Fota.OrderDoesNotMatter` | Firmware/src/fota.c:73-111 | with distinct ids the order of the records does not matter |
| `Fota.EncodeSimpleReport` | Firmware/src/fota.c:59-67 | walking the report recovers its four (id, string) pairs, ids 1, 4, 3 and 2, in order |
| `Fota.ReadReport` | Firmware/src/fota_tlv.c:25-35 | that walk, with decode_tlv_string |
| `CircularBuffer.ExpectedStep` | server/pkg/pipeline/circular/circularbuffer.go:26-31 | one more message drops the oldest slot and adds one at the end |
| `CircularBuffer.Buffer.Publish` | server/pkg/pipeline/circular/circularbuffer.go:26-37 | after any sequence of publishes the ring, read from its position, is the last messages after the empty slots |
| `CircularBuffer.Buffer.GetContents` | server/pkg/pipeline/circular/circularbuffer.go:40-52 | exactly the last min(n, size) messages, oldest first |

## Left out

Modem stack:

- Timeouts: a reply is a finite input, and its end stands for the timeout. The long timeout of a modem restart is no different.
- Decoder contexts are values that the callbacks take and return, where the source passes a pointer; a NULL callback is one that changes nothing.
- `AtDecoders.AtnsocrDecode`, like the other decoders of that module, is tied to its callbacks; what those compute from a well-formed reply is in `ReplyRoundTrips` and `NsorfRoundTrip`, and from other replies only what `AtDecoders.UrcInsertionIsInvisible` says.
- Writes past a decoder's buffers are recorded in an `overrun` flag instead of modelling the memory behind them.
- `AtDecoders.AtnsorfDecode`: the caller's data buffer has no end, because the decoder is not told its size and trusts the modem to send what was asked for.
- `Numerals.AtoiOfDec`: numbers do not overflow, because the modem's numbers fit an int.
- `ReplyRoundTrips.DescriptorRoundTrip`: ids of up to ten digits only; longer ones would not fit the ten bytes of the line buffer, which carries no terminator.
- CGPADDR and CGSN decoders: both read lines that start with `+` on purpose.
- `Comms.Modem.ModemRead`: reports failure at once where the source waits.
- The capacity of a ring is a parameter between one byte and its buffer size, since the ring implementation is not part of this model.
- `Comms.Modem.UrcTurn`: requires that the line fits the thread's buffer, because what lies behind the buffer is not modelled; `UrcOverruns.OverrunIff` says for which streams it does not.
- `UrcNotices.EveryNoticeExactlyOnce`: for runs in which the URC ring drops nothing and the selection is undisturbed, in the sense of `UrcSelection.SelectionIsRightIff`.
- `NoticesToPoll.PollReportsTheWire`: when all calls have entered the table, in order; in between, the calls that are still waiting for the semaphore are missing.
- Modem restarts: `next_free_port` starts again at 6000 while the table keeps its slots, so the runs of `SocketRuns` are those between two restarts.
- `N2Offload.Driver.OffloadRecvFrom`: conversion of the sender's address, and the wrap-around of the pending count at 32 bits.
- `N2Offload.Driver.OffloadSendTo`: conversion of the address to text; commands are a datatype, and only the payload's digits are kept as text.
- `N2Offload.Driver.OffloadClose` and the other calls: not for descriptor 107 when what lies behind the table reads as non-zero, because the calls would then work on memory that is no slot.
- `N2Offload.Driver.OffloadConnect`: the memory of an earlier address, which the source does not free.
- `offload_send` and `offload_recv`, which check the connected flag and call the functions above; the second waits in a loop.

Framing and integrity codes:

- `Crc16.CellsOfUint16`: for a little-endian host, like the target.
- The other fields of the histogram, four of which are floating point.
- `Nmea.NmeaParse`: requires of an accepted buffer that it has at most 64 fields, which is all a sentence can record, and that the talker lies inside it; and of every buffer that the lookahead does. `Gps.LineEnd` shows the lookahead inside for every line the driver hands over.
- `GpsReceiver.Receiver.RxData`: requires at most 64 fields in an accepted line; and if it stops at its preamble, room for the three bytes taken for its type.
- The decoding of fields to numbers in gps_std.c, and what is done with the result.
- `Fota.DecodeSimpleResponse`: requires a message that keeps the decoder inside its buffers, because the decoder trusts the lengths it reads; the reference says which messages those are. Texts stand for their bytes up to the terminator, so a text with a NUL inside is not cut.
- Image download, version reporting over CoAP and reboot.

Server:

- The list request of the broker, its `quit` channel, and the queue of 64 broadcasts in front of its loop.
- `StreamWriter.Writer.WriteTurn`: pings, deadlines and the closing handshake of the websocket are not modelled, part of a frame that could not be finished counts as not seen, and no message contains a line feed, as compact JSON does not.
- `Calibration.SortGroups`: the library's sort is replaced by an insertion sort, and entries of the same date may come in any order.
- The calculation of sensor values, and the store behind the listing.
- `Fetch.FetchLoop`: the archive is the same for all requests of a run, and receive times are whole milliseconds; errors of the interface, which end the program, are left out.
- The mutex of the ring buffer, and the linked ring, which is an array here.

Drivers of sensors and buses, configuration and its messages, flash, the message buffer, MQTT,
HTTP and the clients of cloud services would add only field copies and device input and output.
