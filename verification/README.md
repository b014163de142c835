# Verified model of the MINERvA data acquisition

The MINERvA data acquisition (DAQ) programs front-end boards through VME modules, reads blocks of
frames from them gate by gate, hands these as events to a transfer system, and an event builder
writes them to disk. This project models three parts of the repository and proves what they are for.

* **Text forms of the SQLite shell** that the repository carries: the CSV printer and the `.import`
  reader (the quoting of section 2 of RFC 4180), the C-style escaper and its reader (the octal escapes
  of section 6.4.4.4 of ISO/IEC 9899:1999), SQL quoting. `Bytes`, `Quoting`, `Files`, `CsvFormat`,
  `CsvReader`, `CsvShell`, `CEscape`, `SqlQuote`.
* **Codecs of the electronics**: the TRiP programming stream and reply, the FPGA register image,
  discriminator frames, blocks of frames, the DAQ's own headers, word writes to VME modules, and the
  configuration of channels. `BitSerial`, `TripStream`, `TripReply`, `TripChips`, `TripWords`,
  `TripFrame`, `Lvds`, `FpgaFrame`, `FpgaLayout`, `DiscrFrame`, `ReadoutBlock`, `Headers`, `VmeWrite`,
  `ChannelConfig`, `Crates`.
* **The protocol of a run**: the producer (`main`, `DAQWorker`, `ReadoutStateRecorder`) under every
  placement of failures, the consumer (`EventBuilder`) under every interleaving with puts and signals,
  and the two together. `GateFile`, `StateRecorder`, `DaqStream`, `DaqRun`, `EventBuilder`, `EventLoop`,
  `EndToEnd`, with `Outcomes` for how calls come back.

Run `dafny verify dfyconfig.toml` here to check everything.

## How it is modelled

* Loops, in-place rewriting and objects are methods and classes proved against functions on values;
  the properties are lemmas about those functions. Lemmas that speak of every run quantify over every
  sequence of actions, every script of hardware answers and every pattern of acceptance.
* Bytes are integers from 0 to 255. Bit operations with disjoint fields are written as arithmetic in
  the TRiP, header and discriminator code and as bit-vectors in the FPGA image and the configuration
  register. Widths, truncation and wrap-around are explicit where the code relies on them.
* A C string is its bytes before the NUL inside a memory that is modelled as an array.
* Memory allocation and file writes succeed; a printable byte is any byte a given predicate accepts;
  letters are the ASCII ones.
* The hardware answers from an arbitrary script: every call may come back normally, throw, or end the
  process. A VME cycle that is answered with a negative code has delivered nothing.
* The transfer system is a lossless queue. It may refuse any event on the producer's side; on the
  consumer's side it may answer a request with any status, except that `Ok` needs an event and a
  timeout needs a timed request that finds none. Putting an event back succeeds.
* `>>` into an unsigned number leaves the number alone where there is only white space (section
  27.7.2.1.3 of ISO/IEC 14882:2011), reads 0 where something else than a digit comes first, and the
  largest number where there are too many digits (section 22.4.2.1.2). Nobody else writes the gate file.
* A run is *tracked* when the gate file holds a number (or does not exist) and the numbers do not run
  out; what is said of global gates holds for tracked runs.

## Where code and comments part

* `shell.c:637-638` compares a separator of several bytes at the start of the field.
  `SeparatorSafeIff` says for which separators nothing goes wrong all the same.
* `shell.c:1617-1624` ends a quoted argument at the first double quote, escaped or not
  (`ShownArgumentIff`).
* `TRIPFrame.cpp:254-312` stores a register's value before it checks the tail of its record.
* `LVDSFrame.cpp:138` negates before it masks (`CheckIsRightIff`, `CheckMisses`).
* `FPGAFrame.cpp:320` lacks a shift (`ImageIsSameIff`, `RegistersAreSameIff`).
* `FrameHeader.cpp:39` and `FrameHeader.cpp:41` shift two hit bits out of the word (`HitsCollideIff`).
* `VMECommunicator.cpp:82-84` retries on every negative code, although its comment excepts two
  (`RetryIsIntendedIff`).
* `DiscrFrame.cpp:114-115` reads two bytes past the last word for the log, so a frame with hits needs
  two bytes after them (`LongEnoughIff`).
* `SequencerReadoutBlock.cpp:79-96` does not end on a length of zero (`LoopEndsIff`).
* `DAQWorker.cpp:215-232` counts a dropped event as a success, so the exit code for a sentinel does not
  mean that the sentinel was produced (`RunProducer`, `SentinelIsLost`).
* `ReadoutStateRecorder.cpp:144-165` holds the rest of a merge. It is read as the end of the `NuMIBeam`
  case followed by a normal `PureLightInjection` case.

## Model

| member | source | states |
|---|---|---|
| CsvFormat.TableRoundTripIff | minervadaq/sqlite/sqlite-autoconf-3071600/shell.c:1910-1947 | For every plain separator of any length and every table with at least one column, printing in CSV mode and importing gives the same rows in the same order if and only if no unquoted field, followed by what is printed after it, contains the separator. |
| CsvFormat.RowRoundTrip | minervadaq/sqlite/sqlite-autoconf-3071600/shell.c:1914-1944 | Splitting and dequoting a printed row gives the row back exactly for the safe rows; an unsafe row yields a different list of columns. |
| CsvFormat.SeparatorSafeIff | minervadaq/sqlite/sqlite-autoconf-3071600/shell.c:636-641 | All tables of all widths come back for a plain separator exactly when it is one byte or holds a byte that forces quotes; the separator of several bytes is compared at the start of the field and therefore missed. |
| CsvFormat.OneByteSeparatorIff | minervadaq/sqlite/sqlite-autoconf-3071600/shell.c:604-641 | Among one-byte separators exactly the quote and the line feed fail on some table; a carriage return is harmless. |
| CsvFormat.UnsafeSeparatorBreaks | minervadaq/sqlite/sqlite-autoconf-3071600/shell.c:637-638 | For every other separator a one-field table is named that does not come back. |
| CsvFormat.PrintedRowIsOneLine | minervadaq/sqlite/sqlite-autoconf-3071600/shell.c:361-373 | The first line of a file that begins with a printed row is that row, whatever line feeds, carriage returns and quotes the fields hold. |
| CsvFormat.DequotePrinted | minervadaq/sqlite/sqlite-autoconf-3071600/shell.c:1934-1942 | Dequoting a printed field gives the field, whatever bytes it holds. |
| CsvFormat.OverlapBringsSpecial | minervadaq/sqlite/sqlite-autoconf-3071600/shell.c:636-641 | A separator that begins inside a field and reaches into the separator after it repeats itself back into the field, so a quote-forcing byte of it is found in the field. |
| CsvFormat.SafeSeparatorRowSafe | minervadaq/sqlite/sqlite-autoconf-3071600/shell.c:636-641 | With a safe separator every row is safe. |
| CsvReader.FirstLine | minervadaq/sqlite/sqlite-autoconf-3071600/shell.c:361-373 | Any text, not only printed text: a line ends at the first line feed outside quotes (at the first of all without the CSV flag) and loses it and one carriage return in front of it. |
| CsvReader.LastLine | minervadaq/sqlite/sqlite-autoconf-3071600/shell.c:350-356 | The last line needs no line feed, and without one keeps its carriage return. |
| CsvReader.CrlfRoundTripIff | minervadaq/sqlite/sqlite-autoconf-3071600/shell.c:372 | A table whose row-ending line feeds each have a carriage return in front imports as the same rows, under the same condition as the printed table. |
| CsvReader.ColumnsJoin | minervadaq/sqlite/sqlite-autoconf-3071600/shell.c:1914-1928 | The columns of any line, joined by the separator, are the line: nothing but separators is lost. |
| CsvReader.FirstColumn | minervadaq/sqlite/sqlite-autoconf-3071600/shell.c:1914-1928 | A column ends at the first separator that begins outside quotes, or at the end of the line, and the rest is split by itself. |
| CsvReader.QuotesDropped | minervadaq/sqlite/sqlite-autoconf-3071600/shell.c:1934-1942 | A column without a quote in front is taken as it is; in one with a quote, that quote goes, and of every further quote and the byte behind it that byte stays. |
| CsvReader.ImportStep | minervadaq/sqlite/sqlite-autoconf-3071600/shell.c:1910-1947 | The import takes any file line by line; a line of the wrong width ends it without a row. |
| CsvReader.RaggedTable | minervadaq/sqlite/sqlite-autoconf-3071600/shell.c:1927-1933 | A printed table with one row of another width is not imported at all. |
| CsvReader.PrintedBareIff | minervadaq/sqlite/sqlite-autoconf-3071600/shell.c:604-641 | With a separator of one byte a field prints bare exactly when it is not empty and each byte lies between 33 and 126 and is no quote, apostrophe or separator. |
| CsvReader.ResultPrinted | minervadaq/sqlite/sqlite-autoconf-3071600/shell.c:815-828 | A result prints as a table: the heading is one more row, a column without a name is headed by the empty string, a NULL is the null text, if that needs no quotes. |
| CsvShell.OutputCsv | minervadaq/sqlite/sqlite-autoconf-3071600/shell.c:628-657 | The printing loop writes exactly the specified form of the cell, quoted and doubled when needed, and the separator unless it is the last. |
| CsvShell.CallbackCsv | minervadaq/sqlite/sqlite-autoconf-3071600/shell.c:815-828 | Each call prints its row, a NULL cell as the null text, and a line feed; the first prints the heading before it if asked to, a column without a name as an empty field. |
| CsvShell.OutputResult | minervadaq/sqlite/sqlite-autoconf-3071600/shell.c:815-828 | Calling it for one row after the other appends the printed result, which begins with the heading if asked for and if there is a row. |
| CsvShell.LocalGetline | minervadaq/sqlite/sqlite-autoconf-3071600/shell.c:338-379 | For a file without NUL bytes the line read through chunks and a growing buffer is the first line of the rest of the file, quote-aware under the flag, with its line end stripped; at the end of the file, and only there, no line. |
| CsvShell.ChunkLine | minervadaq/sqlite/sqlite-autoconf-3071600/shell.c:361-370 | Where a line ends does not depend on where a chunk ends: the toggled quote state of the chunks passed decides. |
| CsvShell.SplitLine | minervadaq/sqlite/sqlite-autoconf-3071600/shell.c:1914-1928 | The in-place split overwrites separators outside quotes by NULs and finds the expected number of columns exactly when the specification has that many, and then the columns themselves. |
| CsvShell.EndColumn | minervadaq/sqlite/sqlite-autoconf-3071600/shell.c:1918-1926 | A separator ends a column by a NUL in place and starts the next behind it, or is only counted when there is no room. |
| CsvShell.DequoteInPlace | minervadaq/sqlite/sqlite-autoconf-3071600/shell.c:1936-1943 | The in-place dequote leaves the dequoted column and a NUL over the same bytes and touches nothing else; the write index stays behind the read index. |
| CsvShell.BindColumns | minervadaq/sqlite/sqlite-autoconf-3071600/shell.c:1936-1944 | The values bound are the dequoted columns, although each is rewritten inside the shared line. |
| CsvShell.ImportTable | minervadaq/sqlite/sqlite-autoconf-3071600/shell.c:1910-1947 | The import loop commits the rows of the specification, or rolls back when a line has the wrong number of columns; an empty separator is refused. |
| CsvShell.PrintThenImport | minervadaq/sqlite/sqlite-autoconf-3071600/shell.c:1910-1947 | Printing a result, with or without its heading and with NULL values, and importing the file gives the table it stands for exactly when every row is safe. |
| CEscape.OutputCString | minervadaq/sqlite/sqlite-autoconf-3071600/shell.c:538-564 | The escaping loop prints the quoted string with each byte in its escape form, for any notion of printable. |
| CEscape.ResolveBackslashes | minervadaq/sqlite/sqlite-autoconf-3071600/shell.c:1508-1535 | For every string: reading stays inside it exactly when no backslash is left without a character; then the resolved string and its NUL are left in place, the write index never having passed the read index. |
| CEscape.EscapeRoundTrip | minervadaq/sqlite/sqlite-autoconf-3071600/shell.c:1508-1535 | Resolving the escaped body gives the original string, for every byte string and any notion of printable. |
| CEscape.UnescapeEscaped | minervadaq/sqlite/sqlite-autoconf-3071600/shell.c:1523-1529 | In front of any text an escaped byte is read as that byte and nothing after it is consumed; a digit after a three-digit octal escape is never absorbed. |
| CEscape.EscapesPrinted | minervadaq/sqlite/sqlite-autoconf-3071600/shell.c:538-564 | The form of every byte in numbers, three octal digits with leading zeros for one that is not printable. |
| CEscape.EscapesRead | minervadaq/sqlite/sqlite-autoconf-3071600/shell.c:1512-1520 | In any text: n, t and r after a backslash stand for 10, 9 and 13, any other byte but an octal digit for itself. |
| CEscape.OctalIs | minervadaq/sqlite/sqlite-autoconf-3071600/shell.c:1521-1530 | After a backslash one, two or three octal digits are taken, as many as there are, modulo 256. |
| CEscape.ShownArgumentIff | minervadaq/sqlite/sqlite-autoconf-3071600/shell.c:1616-1626 | A setting printed in quotes and typed back as a command argument comes back exactly when it holds no double quote: the argument reader ends at the first one, escaped or not. |
| SqlQuote.OutputQuotedString | minervadaq/sqlite/sqlite-autoconf-3071600/shell.c:508-533 | The chunked loop prints exactly the quoted string with every apostrophe doubled. |
| SqlQuote.PrintChunks | minervadaq/sqlite/sqlite-autoconf-3071600/shell.c:517-531 | The loop that alternates between runs without an apostrophe and the apostrophe prints the doubled string. |
| Quoting.QuotedRoundTrip | minervadaq/sqlite/sqlite-autoconf-3071600/shell.c:508-533 | Reading a quoted string in front of any text that does not begin with the quote gives back the string and that text. |
| Quoting.DoubledLength | minervadaq/sqlite/sqlite-autoconf-3071600/shell.c:924-929 | The counted length is exact: doubling adds one byte for each quote. |
| SqlQuote.AppendText | minervadaq/sqlite/sqlite-autoconf-3071600/shell.c:916-951 | The result is the old text followed by the quoted addition and a NUL, in a block of exactly the size counted beforehand (the assertion at line 944 always holds). |
| SqlQuote.AppendixSize | minervadaq/sqlite/sqlite-autoconf-3071600/shell.c:920-929 | The bytes counted for the addition are the bytes written; without a quote they are the text, with one a reader finds the text in them. |
| SqlQuote.CallbackData.SetTableName | minervadaq/sqlite/sqlite-autoconf-3071600/shell.c:875-907 | The destination table holds the name's form and its NUL in a block of exactly that size, and is cleared for no name. |
| SqlQuote.MeasureName | minervadaq/sqlite/sqlite-autoconf-3071600/shell.c:884-891 | The counting loop decides whether the name is an identifier and counts the bytes of its form. |
| SqlQuote.TableNameRoundTrip | minervadaq/sqlite/sqlite-autoconf-3071600/shell.c:875-907 | Every name is read back from its form, the empty name and names full of apostrophes included. |
| SqlQuote.UnquotedIff | minervadaq/sqlite/sqlite-autoconf-3071600/shell.c:884-891 | Exactly the names of ASCII letters, digits and underscores that do not begin with a digit stay unquoted. |
| BitSerial.LowFirstRoundTrip | minervadaq/fermihardware/src/TRIPFrame.cpp:226-249 | Bits sent lowest first are read back as the number modulo two to the width. |
| BitSerial.HighFirstRoundTrip | minervadaq/fermihardware/src/TRIPFrame.cpp:226-249 | Bits sent highest first are read back as the number modulo two to the width. |
| BitSerial.SampleClocked | minervadaq/fermihardware/src/TRIPFrame.cpp:208-249 | A receiver that samples one byte of each clock pair recovers exactly the bits sent, in either order. |
| TripStream.StreamIsUniquelyReadable | minervadaq/fermihardware/src/TRIPFrame.cpp:121-200 | A receiver of the packed stream recovers, for every register in order, the chip id, the address, the command and the value modulo its width, for all values, in read and write mode. |
| TripStream.EncodedSize | minervadaq/fermihardware/src/TRIPFrame.cpp:160-199 | The buffer size after each register depends on the mode alone and on no value. |
| TripStream.BufferSizes | minervadaq/fermihardware/src/TRIPFrame.cpp:160-199 | The stream has 643 bytes when reading and 749 when writing. |
| TripWords.RegisterIsFramed | minervadaq/fermihardware/src/TRIPFrame.cpp:160-195 | The bytes of every register: two start bytes, a high and a low clock for every bit with the reset line down, the turn-around and the seven bytes of the tail. |
| TripWords.PadIsZero | minervadaq/fermihardware/src/TRIPFrame.cpp:196-198 | A zero byte follows a register exactly where the size of the buffer would be even. |
| TripReply.CursorsInLockstep | minervadaq/fermihardware/src/TRIPFrame.cpp:254-312 | After each register the decoder's index is 19 plus the encoder's buffer size after that register, pads included, although one pads on even sizes and the other skips on odd indices. |
| TripReply.CursorEnds | minervadaq/fermihardware/src/TRIPFrame.cpp:254-312 | The decoder ends at index 662, 19 bytes after the 643 of the read stream. |
| TripReply.StartsAt | minervadaq/fermihardware/src/TRIPFrame.cpp:254-312 | The answers start at 19, at 18 + 54 j for register j up to 10, at 616 and end at 662. |
| TripReply.PreambleIs | minervadaq/fermihardware/src/TRIPFrame.cpp:264-275 | In front of a value stand exactly 31 bytes. |
| TripReply.WellFormedIff | minervadaq/fermihardware/src/TRIPFrame.cpp:264-341 | An answer is accepted exactly when its bytes are the preamble, pairs of equal data lines with the clock down only at the end, the six bytes of the tail and the pad byte of an odd position. |
| TripReply.DecodedIsLogical | minervadaq/fermihardware/src/TRIPFrame.cpp:343-355 | The stored values are the twelve registers read, with gain and pipe delay and the two select fields split as the logical values. |
| TripChips.LaneIsIndependent | minervadaq/fermihardware/src/TRIPFrame.cpp:322-356 | In a byte that interleaves six chips, the line of one chip carries that chip's bit whatever the others carry. |
| TripChips.RegisterIsReadBack | minervadaq/fermihardware/src/TRIPFrame.cpp:254-356 | In the reply of six chips every register record is well-formed on every chip's line and yields that chip's register modulo its width. |
| TripChips.ChipIsReadBack | minervadaq/fermihardware/src/TRIPFrame.cpp:254-356 | The whole reply is well-formed on every chip's line and yields all twelve registers of that chip. |
| TripFrame.TRIPFrame.constructor | minervadaq/fermihardware/src/TRIPFrame.cpp:18-58 | A new frame writes, holds the defaults and has nothing packed. |
| TripFrame.TRIPFrame.PackBits | minervadaq/fermihardware/src/TRIPFrame.cpp:208-221 | Appends the byte with the four lines. |
| TripFrame.TRIPFrame.SortNSet | minervadaq/fermihardware/src/TRIPFrame.cpp:226-249 | The walking mask sends every bit twice, in the order asked for, as specified. |
| TripFrame.TRIPFrame.FillRegisters | minervadaq/fermihardware/src/TRIPFrame.cpp:127-144 | The physical registers are the logical values with the combined fields, and all zero when reading. |
| TripFrame.TRIPFrame.EncodeRegister | minervadaq/fermihardware/src/TRIPFrame.cpp:160-199 | One turn of the loop appends exactly the bytes of the register for chip 0x0A, with the command 0x04 of a read or 0x01 of a write; the padding follows in the loop of EncodeRegisterValues. |
| TripFrame.TRIPFrame.EncodeRegisterValues | minervadaq/fermihardware/src/TRIPFrame.cpp:121-200 | The packed data is the specified stream of the registers; a listener hears the twelve read requests, or the thirteen writes. |
| TripFrame.TRIPFrame.MakeMessage | minervadaq/fermihardware/src/TRIPFrame.cpp:67-92 | The message is the header and the packed stream, its length is the promised 652 or 758 for all values, and a listener hears, when reading, twelve words with chip 0x0A, addresses 1 to 12, command 0x04 and value 0, and when writing the thirteen words of the values with command 0x01. |
| TripFrame.TRIPFrame.Program | minervadaq/tests/TestSuite.cpp:734-752 | After all values have been set and a write message made, a listener hears every value modulo its width, the injection value at address 14 modulo two to the 34, for any values. |
| TripFrame.TRIPFrame.ReadValue | minervadaq/fermihardware/src/TRIPFrame.cpp:329-341 | Reads a value highest bit first from pairs of equal data lines and succeeds exactly on well-formed pairs. |
| TripFrame.TRIPFrame.DecodeRegister | minervadaq/fermihardware/src/TRIPFrame.cpp:264-311 | One turn of the decoder succeeds exactly on a well-formed record, ends at the next cursor, and stores the value once all of it has been read, even if the tail is then wrong. |
| TripFrame.TRIPFrame.DecodeRegisterValues | minervadaq/fermihardware/src/TRIPFrame.cpp:254-312 | Succeeds exactly on replies that are well-formed on this chip's line; otherwise names the first malformed register, with exactly the values read before it stored. |
| TripFrame.ReplyIsDecoded | minervadaq/fermihardware/src/TRIPFrame.cpp:254-356 | For any contents of six chips the reply is well-formed on every chip's line, so no parse error is raised, and the values read on it are that chip's logical values. |
| TripFrame.TRIPFrame.DecodeReply | minervadaq/fermihardware/src/TRIPFrame.cpp:254-356 | On the reply of six chips the frame of a chip ends normally with that chip's logical values, whatever the other chips hold, unless the header of the reply fails the header check, and then nothing is stored. |
| TripFrame.ProgramThenRead | minervadaq/fermihardware/src/TRIPFrame.cpp:121-312 | If a chip stores what a write frame sends, then the reply decoded by that chip's frame gives the settings back, each cut to its width, whatever the other chips hold. |
| Lvds.CheckForErrors | minervadaq/fermihardware/src/LVDSFrame.cpp:118-150 | What the check amounts to: it reports an error exactly when one of the two status bytes is zero, because the byte is negated before it is masked. |
| Lvds.NoFlagMissingIff | minervadaq/fermihardware/src/LVDSFrame.cpp:132-137 | No flag is missing exactly when byte 10 has its direction bit, byte 11 its two low bits and byte 12 its five low bits. |
| Lvds.CheckIsRightIff | minervadaq/fermihardware/src/LVDSFrame.cpp:137-144 | The check never raises a false alarm, and agrees with the flags exactly when a status byte is zero or all eight flag bits of bytes 10 to 12 are set. |
| Lvds.CheckMisses | minervadaq/fermihardware/src/LVDSFrame.cpp:137-144 | A message with no direction bit and one flag in each status byte lacks flags and passes the check. |
| Lvds.HeaderIsRead | minervadaq/fermihardware/src/LVDSFrame.cpp:73-94 | Device, function, board and broadcast are found by masking the first two bytes of an outgoing header; the direction exactly when the broadcast does not set its bit. |
| VmeWrite.UnpackedWords | minervadaq/fermihardware/src/VMECommunicator.cpp:73-79 | The little-endian words of a message give its bytes back, with one zero after exactly the messages of odd length; every word fits 16 bits. |
| VmeWrite.WordIs | minervadaq/fermihardware/src/VMECommunicator.cpp:73-79 | Word i is byte 2i and, above it, the next byte or a zero. |
| VmeWrite.Module.Retry | minervadaq/fermihardware/src/VMECommunicator.cpp:80-84 | Every negative answer is retried, a bus error and a parameter error included; the word is accepted once, by the first answer that is not negative, and the loop ends there. |
| VmeWrite.RetryIsIntendedIff | minervadaq/fermihardware/src/VMECommunicator.cpp:82-86 | Code and comment end the tries at the same answer exactly when no bus error and no parameter error comes before the first completed cycle. |
| VmeWrite.Module.WriteCycle | minervadaq/fermihardware/src/VMECommunicator.cpp:67-89 | If the call returns, the module has accepted exactly the words of the message in order, each once, and the result is the last answer and not negative; while it has not returned, a prefix has been accepted. |
| VmeWrite.TripMessageUnpadded | minervadaq/fermihardware/src/TRIPFrame.cpp:196-198 | No TRiP message is padded when it is written. |
| ReadoutBlock.SplitInvertsConcat | minervadaq/fermihardware/src/SequencerReadoutBlock.cpp:72-99 | Splitting the concatenation of frames that carry their own length gives those frames. |
| ReadoutBlock.FramesConcat | minervadaq/fermihardware/src/SequencerReadoutBlock.cpp:79-96 | The frames of a block are frames with their own lengths and concatenate to the block. |
| ReadoutBlock.WellFramedIffConcat | minervadaq/fermihardware/src/SequencerReadoutBlock.cpp:79-96 | The blocks that can be split are exactly the concatenations of frames, each in only one way. |
| ReadoutBlock.LoopEndsIff | minervadaq/fermihardware/src/SequencerReadoutBlock.cpp:79-96 | With its 16-bit index the loop ends inside the block exactly for well-framed blocks, and runs forever exactly when the lengths lead to a length of zero. |
| ReadoutBlock.OneFrameIff | minervadaq/fermihardware/src/SequencerReadoutBlock.cpp:79-96 | A block of one frame can be split exactly when the frame has at least the fifteen bytes of a header. |
| ReadoutBlock.SequencerReadoutBlock.SetData | minervadaq/fermihardware/src/SequencerReadoutBlock.cpp:43-47 | Takes the block and its length. |
| ReadoutBlock.SequencerReadoutBlock.ClearData | minervadaq/fermihardware/src/SequencerReadoutBlock.cpp:50-57 | Afterwards nothing is left to split. |
| ReadoutBlock.SequencerReadoutBlock.SplitAll | minervadaq/fermihardware/src/SequencerReadoutBlock.cpp:79-96 | For every block the loop appends frames in order with an index that never wraps, up to the end exactly for well-framed blocks, and else up to the place where no frame begins. |
| ReadoutBlock.SequencerReadoutBlock.ProcessDataIntoFrames | minervadaq/fermihardware/src/SequencerReadoutBlock.cpp:72-99 | Stays inside the block exactly when the block is a sequence of whole frames; then it appends these to the list and leaves no block. |
| ReadoutBlock.SequencerReadoutBlock.PopOffFrame | minervadaq/fermihardware/src/SequencerReadoutBlock.cpp:102-110 | Removes and returns the oldest frame, or none from an empty list. |
| ReadoutBlock.DissolveDataBlock | minervadaq/workers/src/DAQWorker.cpp:381-398 | For a block of whole frames the frames seen are frames with their own lengths, concatenate to the block, and the list is empty afterwards. |
| DiscrFrame.CursorEnd | minervadaq/fermihardware/src/DiscrFrame.cpp:100-150 | The cursor ends at 22 plus 40 times the hits of the four chips. |
| DiscrFrame.LongEnoughIff | minervadaq/fermihardware/src/DiscrFrame.cpp:76-117 | Every place that is read lies inside the message exactly when the message reaches two bytes past the last hit, for the log statement, or is refused before the hits are read. |
| DiscrFrame.DelayIsFirstRowIff | minervadaq/fermihardware/src/DiscrFrame.cpp:142-148 | The delay is never before the first row that holds a one, and is that row (or 16) exactly when the column stays one from there on. |
| DiscrFrame.HitRoundTrip | minervadaq/fermihardware/src/DiscrFrame.cpp:111-148 | From the words a board sends for a hit the decoder recovers the time stamp and every quarter tick and delay of every channel. |
| DiscrFrame.HitInBytes | minervadaq/fermihardware/src/DiscrFrame.cpp:111-148 | In the forty bytes of any hit: the time in the last four, the quarters in the four before, the delays from the sixteen rows. |
| DiscrFrame.FrameIsDecoded | minervadaq/fermihardware/src/DiscrFrame.cpp:76-154 | A frame described by its bytes: byte 20 counts the hits of each of the first two chips, byte 21 of each of the last two, and the hits follow from byte 22 on; these are the hits that are decoded, chip by chip. |
| DiscrFrame.Quarters | minervadaq/fermihardware/src/DiscrFrame.cpp:132-136 | Quarter ticks lie in 0 to 3. |
| DiscrFrame.ReadHit | minervadaq/fermihardware/src/DiscrFrame.cpp:109-148 | The nested loops compute the hit of the twenty words at the cursor and advance it by 40. |
| DiscrFrame.ReadTrips | minervadaq/fermihardware/src/DiscrFrame.cpp:105-150 | The loops over chips and hits read the hits of every chip in order and never past the buffer. |
| DiscrFrame.DecodeRegisterValues | minervadaq/fermihardware/src/DiscrFrame.cpp:76-154 | The two error cases and their bytes, the hits of each chip, as many as bytes 20 and 21 say, and the cursor at the end. |
| FpgaFrame.ImageIsKept | minervadaq/fermihardware/src/FPGAFrame.cpp:86-489 | A payload decoded and written again is the same in every bit but bit 1 of byte 9, bits 4 to 7 of byte 27 and bits 6 and 7 of byte 41, which become zero. |
| FpgaFrame.ImageIsSameIff | minervadaq/fermihardware/src/FPGAFrame.cpp:320 | The payload comes back whole exactly when those bits are zero. |
| FpgaLayout.TimerLayout | minervadaq/fermihardware/src/FPGAFrame.cpp:94-98 | Bytes 0 to 3 hold the timer, low byte first. |
| FpgaLayout.GateLayout | minervadaq/fermihardware/src/FPGAFrame.cpp:100-109 | Bytes 4 to 8 and 10 hold the gate, the low part of the phase total and the phase count. |
| FpgaLayout.PhaseLayout | minervadaq/fermihardware/src/FPGAFrame.cpp:110-128 | Every bit of byte 9. |
| FpgaLayout.StatusLayout | minervadaq/fermihardware/src/FPGAFrame.cpp:134-155 | Every bit of byte 11. |
| FpgaLayout.TestPulseLayout | minervadaq/fermihardware/src/FPGAFrame.cpp:157-161 | Bytes 12 to 15 hold the test pulse count. |
| FpgaLayout.InjectLayout | minervadaq/fermihardware/src/FPGAFrame.cpp:163-168 | Bytes 16 to 21 hold the six counters, each with its enable bit on top. |
| FpgaLayout.PowerLayout | minervadaq/fermihardware/src/FPGAFrame.cpp:170-175 | Byte 22: the power of the six chips and two flags of the high voltage. |
| FpgaLayout.VoltageLayout | minervadaq/fermihardware/src/FPGAFrame.cpp:177-187 | Bytes 23 to 28: target and actual voltage, pulse width, low part of the injection value. |
| FpgaLayout.DacLayout | minervadaq/fermihardware/src/FPGAFrame.cpp:188-193 | Byte 29: the high part of the injection value, its mode and two flags. |
| FpgaLayout.BoardLayout | minervadaq/fermihardware/src/FPGAFrame.cpp:194-200 | Bytes 30 and 31: range and phase, board, averaging and preview. |
| FpgaLayout.PeriodLayout | minervadaq/fermihardware/src/FPGAFrame.cpp:202-221 | Bytes 32 to 41: firmware, periods, pulse width, temperature, thresholds and encoder. |
| FpgaLayout.MaskLayout | minervadaq/fermihardware/src/FPGAFrame.cpp:223-237 | Bytes 42 to 49: the four discriminator masks. |
| FpgaLayout.StampLayout | minervadaq/fermihardware/src/FPGAFrame.cpp:239-243 | Bytes 50 to 53: the time stamp. |
| FpgaFrame.RegistersAreNarrowed | minervadaq/fermihardware/src/FPGAFrame.cpp:86-489 | Registers written and decoded come back cut to their widths, with the phase-done bit one place too high and the unused control zero, whatever the frame held before. |
| FpgaFrame.RegistersAreSameIff | minervadaq/fermihardware/src/FPGAFrame.cpp:264-489 | Registers survive exactly when they are in range, phase-done is zero and the unused control is zero. |
| FpgaFrame.FPGAFrame.MakeShortMessage | minervadaq/fermihardware/src/FPGAFrame.cpp:64-82 | A dump read is the outgoing header alone: the board number in byte 0, 0x23 in byte 1 and zeros. |
| FpgaFrame.FPGAFrame.MakeDeviceFrameTransmit | minervadaq/fermihardware/src/LVDSFrame.cpp:57-94 | The nine bytes of the outgoing header. |
| FpgaFrame.FPGAFrame.constructor | minervadaq/fermihardware/src/FPGAFrame.cpp:18-46 | A new frame asks its board's FPGA for the registers: the board number in byte 0, 0x22 in byte 1 and zeros. |
| FpgaFrame.FPGAFrame.MakeMessage | minervadaq/fermihardware/src/FPGAFrame.cpp:86-259 | The message is the header and the 54-byte image. |
| FpgaFrame.FPGAFrame.DecodeRegisterValues | minervadaq/fermihardware/src/FPGAFrame.cpp:264-489 | Rejects a wrong length and a header error without touching a register; otherwise decodes the 54 bytes from byte 19 on. |
| Headers.SourceIdFields | minervadaq/event_structure/src/FrameHeader.cpp:38-45 | Crate, croc, channel, board and hit are recovered from the source word, modulo their masks. |
| Headers.HitsCollideIff | minervadaq/event_structure/src/FrameHeader.cpp:39-45 | Two hits of a board get different source words exactly when they differ modulo 8. |
| Headers.FrameHeaderIsRead | minervadaq/event_structure/src/FrameHeader.cpp:60-79 | In front of any data the frame header reads as the length, the bank at byte 5, the firmware and the source it was built from. |
| Headers.HeaderIsUnpacked | minervadaq/event_structure/src/DAQHeader.cpp:72-112 | Every field of a DAQ header is recovered modulo its mask, and the frame header in front reads as its length and bank. |
| Headers.FrameHeader.constructor | minervadaq/event_structure/src/FrameHeader.cpp:29-71 | The four words of the header. |
| Headers.FillInfo | minervadaq/event_structure/src/DAQHeader.cpp:96-103 | The loop puts the twelve words in their places, low byte first, and leaves the first eight bytes alone. |
| Headers.FillFrame | minervadaq/event_structure/src/DAQHeader.cpp:105-112 | The loop puts the frame header in front and changes nothing behind it. |
| Headers.DAQHeader.constructor | minervadaq/event_structure/src/DAQHeader.cpp:53-112 | All 56 bytes are determined: the frame header and the twelve words. |
| GateFile.ReadsBackIff | minervadaq/workers/src/ReadoutStateRecorder.cpp:244-278 | A gate written over an old file reads back exactly when no digit of the old file is left behind it; zero also survives zeros and the largest number survives any digits. |
| GateFile.NothingLeftIff | minervadaq/workers/src/ReadoutStateRecorder.cpp:265-276 | No digit is left exactly when the old file ends or goes on with another character at that place. |
| GateFile.HeldGateIsRead | minervadaq/workers/src/ReadoutStateRecorder.cpp:244-256 | A file that holds a gate and no other digit reads as that gate. |
| GateFile.NumberIsRead | minervadaq/workers/src/ReadoutStateRecorder.cpp:249 | Any file: white space in front is skipped, a number that is too big reads as the largest, another character first as zero, and white space alone as nothing. |
| GateFile.LaterGateOverwrites | minervadaq/workers/src/ReadoutStateRecorder.cpp:265-278 | Writing a later gate over an earlier one leaves a file that holds the later gate. |
| GateFile.DecimalLengthGrows | minervadaq/workers/src/ReadoutStateRecorder.cpp:270 | A larger number never has fewer digits. |
| GateFile.DecimalValue | minervadaq/workers/src/ReadoutStateRecorder.cpp:249-270 | Reading a printed number gives the number. |
| GateFile.ShorterGateIsMisread | minervadaq/workers/src/ReadoutStateRecorder.cpp:265-278 | 9 written over 10 reads back as 90. |
| StateRecorder.ReadoutStateRecorder.constructor | minervadaq/workers/src/ReadoutStateRecorder.cpp:20-39 | The first gate of the run is one more than the number in the file; the books are in order. |
| StateRecorder.ReadoutStateRecorder.MoreGates | minervadaq/workers/src/ReadoutStateRecorder.cpp:83-92 | There are more gates exactly while the counter is below the number asked for. |
| StateRecorder.ReadoutStateRecorder.BeginNextGate | minervadaq/workers/src/ReadoutStateRecorder.cpp:67-81 | Counts the gate, takes the global gate from the file and adds one; in a tracked run that is the first gate plus the gates before. |
| StateRecorder.ReadoutStateRecorder.FinishGate | minervadaq/workers/src/ReadoutStateRecorder.cpp:100-110 | The gate file, if there is one, holds the global gate of the gate just finished. |
| StateRecorder.ReadoutStateRecorder.GetNextTriggerType | minervadaq/workers/src/ReadoutStateRecorder.cpp:120-217 | The trigger of the gate that comes next, chosen from the counter before it is raised. |
| StateRecorder.ReadoutStateRecorder.GetDAQHeader | minervadaq/workers/src/ReadoutStateRecorder.cpp:282-310 | The 56 bytes of the header, and what an unpacker finds in them: the detector, configuration, run and sub-run and the LED settings of the arguments, the trigger, both gate numbers and the times of the recorder, each modulo its width, and the bank asked for. |
| DaqStream.MixedTriggers | minervadaq/workers/src/ReadoutStateRecorder.cpp:178-191 | In the mixed modes n gates have exactly (n + 1) / 2 beam triggers and n / 2 of the other kind. |
| DaqStream.TriggerByte | minervadaq/workers/src/ReadoutStateRecorder.cpp:120-217 | Byte 20 of the header that ends gate k names the trigger of the running mode, in numbers for every mode. |
| DaqStream.CreateEventHandler | minervadaq/workers/src/DAQWorker.cpp:434-445 | A block of any 16-bit length fits the buffer and is its payload; the lead bank is known only for six bytes and more. |
| DaqStream.BankOf | minervadaq/event_structure/src/EventHandler.cpp:12-19 | The lead bank of a run header, a DAQ header and a sentinel is 6, 3 and 5. |
| DaqStream.RunHeaderFront | minervadaq/event_structure/src/RunHeader.cpp:13-23 | The run header has 492 bytes: length, pattern, version 1, bank 6, a source of zeros, and the configuration. |
| DaqStream.OnlyTheLastIsSentinel | minervadaq/workers/src/DAQWorker.cpp:417-422 | In a closed run the last event alone leads with the sentinel's bank exactly when no block does so by accident. |
| DaqRun.EventTransfer.ContactEventBuilder | minervadaq/workers/src/DAQWorker.cpp:201-273 | An event is produced exactly when the system accepts it; one dropped before it is put still counts as a success. |
| DaqRun.EventTransfer.DeclareDataBlock | minervadaq/workers/src/DAQWorker.cpp:425-431 | Declares one event that carries exactly the block. |
| DaqRun.DAQWorker.DeclareRunHeaderToET | minervadaq/workers/src/DAQWorker.cpp:401-406 | The run header is the first event, or nothing is declared when the hardware fails. |
| DaqRun.DAQWorker.BeginNextGate | minervadaq/workers/src/DAQWorker.cpp:329-366 | A gate opens exactly when the run is not told to stop, there are more gates, the mode is known and the hardware answers with a time; it then has its trigger and its counters right, and else nothing about the gates has changed. The recorder never refuses a gate here. |
| DaqRun.DAQWorker.ReadChannel | minervadaq/workers/src/DAQWorker.cpp:305-317 | One round declares exactly the bytes the current channel delivers as its block of the gate, and moves on; with no channel at all the process ends. |
| DaqRun.DAQWorker.FinishGate | minervadaq/workers/src/DAQWorker.cpp:370-377 | The gate is recorded with its finish time and MINOS gate, or a failed hardware call leaves it open and unrecorded. |
| DaqRun.DAQWorker.DeclareDAQHeaderToET | minervadaq/workers/src/DAQWorker.cpp:409-414 | The header that ends the gate carries its number, trigger and global gate, and stands where the grammar wants it. |
| DaqRun.DAQWorker.TakeGate | minervadaq/workers/src/DAQWorker.cpp:303-322 | One gate: a block for every channel in order, then the header; or a failure that leaves a prefix. |
| DaqRun.DAQWorker.TakeData | minervadaq/workers/src/DAQWorker.cpp:298-325 | Whatever fails, the declared events are a prefix of the run header followed by gates of one block per channel and a DAQ header, and the gate file counts exactly the gates whose headers were declared; it comes back as the first hardware call that fails; when nothing fails all gates asked for are taken, with exactly the hardware calls they need. |
| DaqRun.DAQWorker.SendSentinel | minervadaq/workers/src/DAQWorker.cpp:417-422 | Declares one more event, the sentinel, which closes the run. |
| DaqRun.DAQWorker.Try | minervadaq/main/daqmain.cpp:50-62 | Whether the sentinel has been sent tells whether the run is closed, wherever the block is left; a normal end has sent it. |
| DaqRun.DAQWorker.Run | minervadaq/main/daqmain.cpp:46-92 | For every placement of failures: once the transfer system is set up and unless the process is ended, the stream is a grammatical prefix and exactly one sentinel at its end, and the exit code is 2; without the setup nothing is declared and the code is 3. With channels to read there is no exit code exactly when a hardware call ended the process. |
| EventBuilder.NextKeepsInvariant | minervadaq/event_builder/src/EventBuilder.cpp:202-332 | The invariant of the consumer is kept by every step of the producer, of a user and of the consumer. |
| EventBuilder.RunKeepsInvariant | minervadaq/event_builder/src/EventBuilder.cpp:202-332 | Every state any run reaches has it. |
| EventBuilder.NothingLostOrRepeated | minervadaq/event_builder/src/EventBuilder.cpp:202-332 | Under every interleaving the file holds the payloads of the first events produced, in order and once; written, in hand and queued together are everything produced; the online builder holds no event at the head of its loop. |
| EventBuilder.StopsAtFirstSentinel | minervadaq/event_builder/src/EventBuilder.cpp:313-314 | A consumer that stops at a sentinel has written exactly what comes up to the first sentinel of the stream, however much is produced later; so the whole stream just when the first sentinel is the last event. |
| EventBuilder.TimeoutHasEverything | minervadaq/event_builder/src/EventBuilder.cpp:242-253 | When a timed request times out, everything produced until then has been written. |
| EventBuilder.SignalsAreCounted | minervadaq/event_builder/src/EventBuilder.cpp:359-385 | Whatever happens in between, one signal asks the consumer to finish and the second to leave at once. |
| EventBuilder.HeadLooks | minervadaq/event_builder/src/EventBuilder.cpp:202-240 | At the head of its loop, after any run, the consumer leaves when the system is down or it has been told to stop, asks without a time limit before any signal, and looks at the flags again after one. |
| EventBuilder.QuitterLeaves | minervadaq/event_builder/src/EventBuilder.cpp:242-257 | After two signals the consumer that looks again leaves at once with nothing taken or written; after one it asks with a time limit. |
| EventBuilder.AnswerIsTaken | minervadaq/event_builder/src/EventBuilder.cpp:240-292 | After any run: which answers are possible, that Ok takes the oldest event, and exactly which answers end the loop, online and nearline. |
| EventBuilder.CalmLeavesAtSentinel | minervadaq/event_builder/src/EventBuilder.cpp:202-332 | With the transfer system up, no failing request and at most one signal, the consumer leaves only after it wrote a sentinel. |
| EventLoop.Consumer.HandleSignal | minervadaq/event_builder/src/EventBuilder.cpp:359-385 | The handler is one step of the transition system. |
| EventLoop.Consumer.LoopHead | minervadaq/event_builder/src/EventBuilder.cpp:202-258 | Leaves exactly when the system is down, the program is to stop, or a second signal has come before the flags are looked at again; asks with a time limit exactly after a first signal. |
| EventLoop.Consumer.GetEvent | minervadaq/event_builder/src/EventBuilder.cpp:240-292 | The answer is the one the system gives, and each leads where the code goes. |
| EventLoop.Consumer.Handle | minervadaq/event_builder/src/EventBuilder.cpp:294-331 | Appends the payload of the event to the file, goes on unless it is a sentinel, and puts the event back, interrupted anywhere. |
| EventLoop.Consumer.Collect | minervadaq/event_builder/src/EventBuilder.cpp:202-332 | The program loop, interrupted by puts and signals before every statement, is a run of the transition system and sees of its world exactly what is put and signalled; unless it has left it passes its head once for every round; between two rounds the file holds what has been taken, in order. |
| EventLoop.CalmRun | minervadaq/event_builder/src/EventBuilder.cpp:202-385 | In a world that is up, has no failing answer and delivers at most one signal the run of the program is calm, and what is produced is what is put. |
| EndToEnd.AllProduced | minervadaq/workers/src/DAQWorker.cpp:260 | When every event is accepted, the stream is the declared one. |
| EndToEnd.SentinelIsProducedIff | minervadaq/workers/src/DAQWorker.cpp:215-232 | The stream of a closed run ends in its only sentinel when the system took it and has none when it dropped it. |
| EndToEnd.RunProducer | minervadaq/main/daqmain.cpp:46-92 | A run with the transfer system set up ends with the exit code for a sentinel, whether the stream holds one or the system dropped it. |
| EndToEnd.SentinelIsLost | minervadaq/workers/src/DAQWorker.cpp:215-232 | A run without any fault whose transfer system is not alive produces nothing and has the exit code for a sentinel. |
| EndToEnd.RunConsumer | minervadaq/event_builder/src/EventBuilder.cpp:202-332 | When the program of the consumer has left, in a calm world fed by a closed run, its file holds the payloads of everything produced, and the sentinel was produced. |
| EndToEnd.RunBoth | minervadaq/event_builder/src/EventBuilder.cpp:202-332 | Producer and consumer as programs: in a calm world the file of a consumer that has left is the produced stream, which ends in its only sentinel. |
| EndToEnd.CalmConsumerWritesAll | minervadaq/event_builder/src/EventBuilder.cpp:202-332 | A calm consumer of a closed run leaves only when the sentinel was produced and all that was produced is written; if the sentinel was dropped it never leaves. |
| EndToEnd.WholeRunIsWritten | minervadaq/event_builder/src/EventBuilder.cpp:202-332 | When every event is accepted, a calm consumer that has left has written the payload of every declared event, in order: the run header, the gates and the sentinel. |
| EndToEnd.CanStopAtSentinel | minervadaq/event_builder/src/EventBuilder.cpp:202-332 | From the loop head of any run with a sentinel queued and fewer than two signals there is a way on to stop at the sentinel. |
| ChannelConfig.AppliedIsLocal | minervadaq/fermihardware/src/EChannelsConfigRegParser.cpp:46-137 | Each setter changes its own field and no other bit. |
| ChannelConfig.SettersAre | minervadaq/fermihardware/src/EChannelsConfigRegParser.cpp:46-128 | What every setter makes of a register, in numbers. |
| ChannelConfig.SettingsAreLocal | minervadaq/fermihardware/src/EChannelsConfigRegParser.cpp:46-128 | After any sequence of setters every field is as its last setter left it and the board count, the firmware and the unused bit are as before. |
| ChannelConfig.RegisterIsItsFields | minervadaq/fermihardware/src/EChannelsConfigRegParser.cpp:141-217 | The getters together determine the register. |
| ChannelConfig.NFEBsIsLocal | minervadaq/fermihardware/src/EChannelsConfigRegParser.cpp:131-137 | Setting the board count leaves every other bit, and any count below 16 is read back. |
| ChannelConfig.NFEBsAre | minervadaq/fermihardware/src/EChannelsConfigRegParser.cpp:131-137 | The board count replaces the low four bits. |
| ChannelConfig.CallsKeepBoardCount | minervadaq/fermihardware/src/EChannels.cpp:281-347 | No sequence of configuration calls changes the board count, the firmware, the memory type or the clock phase. |
| ChannelConfig.SequencerIsEnabled | minervadaq/fermihardware/src/EChannels.cpp:297-302 | The register becomes v or 0x8000. |
| ChannelConfig.SequencerIsDisabled | minervadaq/fermihardware/src/EChannels.cpp:306-311 | The register becomes v and 0x7FFF. |
| ChannelConfig.FourBitsAreUsed | minervadaq/fermihardware/src/EChannels.cpp:315-320 | The register becomes v and 0xEFFF. |
| ChannelConfig.FiveBitsAreUsed | minervadaq/fermihardware/src/EChannels.cpp:324-329 | The register becomes v or 0x1000. |
| ChannelConfig.PipelineIsSingle | minervadaq/fermihardware/src/EChannels.cpp:333-338 | The register becomes v or 0x2000. |
| ChannelConfig.PipelineIsFull | minervadaq/fermihardware/src/EChannels.cpp:342-347 | The register becomes v and 0xDFFF. |
| ChannelConfig.StandardDataTaking | minervadaq/fermihardware/src/EChannels.cpp:281-293 | The register becomes v and 0xDFCF, or 0x9000. |
| ChannelConfig.EChannelsConfigRegParser.Set | minervadaq/fermihardware/src/EChannelsConfigRegParser.cpp:46-128 | The setters. |
| Crates.EChannels.Configure | minervadaq/fermihardware/src/EChannels.cpp:281-347 | Read, modify, write: the register with the settings of the call, or the old one when one of the two accesses fails, and how the failing one came back. |
| Crates.EChannels.SetupNFrontEndBoards | minervadaq/fermihardware/src/EChannels.cpp:237-277 | Refuses an impossible count; otherwise succeeds exactly when every access does and the boards answer with one firmware, and then boards 1 to n are appended and the register says n, its other bits unchanged. A channel that had no boards is ready. |
| Crates.EChannels.FindBoards | minervadaq/fermihardware/src/EChannels.cpp:248-267 | Finds all boards exactly when every access succeeds and all answer with one firmware other than 0; what is appended always has the addresses 1, 2, 3 and so on. |
| Crates.BoardsAgreeIff | minervadaq/fermihardware/src/EChannels.cpp:248-267 | Boards agree exactly when all accesses answer normally with one and the same firmware other than 0. |
| Crates.MakeModule | minervadaq/fermihardware/src/VMECrate.cpp:76-88 | A module is set up exactly when all accesses succeed and the boards of every channel agree; then it keeps exactly the channels with boards, each ready, with its count and its register. |
| Crates.ECROC.constructor | minervadaq/fermihardware/src/ECROC.cpp:59-65 | Four distinct channels without boards, with the registers of the devices. |
| Crates.ECROC.ClearEmptyChannels | minervadaq/fermihardware/src/ECROC.cpp:69-89 | Keeps exactly the channels with boards, in order. |
| Crates.NonEmptyCounts | minervadaq/fermihardware/src/ECROC.cpp:69-89 | The board counts of the channels kept are the non-zero counts in order. |
| Crates.ECROC.ConfigureInTurn | minervadaq/fermihardware/src/ECROC.cpp:198-231 | The channels before the first failing call have been configured, the others not. |
| Crates.ECROC.Initialize | minervadaq/fermihardware/src/ECROC.cpp:255-266 | Status resets, the sequencer bit of every channel, and the timing, test pulse and delay registers, any of which may fail; whatever fails, no board and no board count changes, and an unknown mode ends the process. |
| Crates.VMECrate.AddECROC | minervadaq/fermihardware/src/VMECrate.cpp:63-91 | The crate stays valid: every channel it retains has 1 to 10 boards, board k has address k + 1 and the register says how many. It succeeds exactly when all accesses do and the boards agree; then the new module has exactly the channels whose count is 1 to 10, with that many boards and the register (v and 0x7FF0) or the count; else the crate is as before. |
| Crates.VMECrate.Configure | minervadaq/fermihardware/src/VMECrate.cpp:128-153 | Any later call keeps the crate valid, whether it fails or not, changes no board count, fails only as an access fails, and when it succeeds every channel has the call's settings. |
| Crates.VMECrate.Initialize | minervadaq/fermihardware/src/VMECrate.cpp:44-60 | The modules in turn, the configuration and the counter resets, with exactly six accesses for every channel and six for every module on success: it fails only as an access fails or for an unknown mode; on success every register is (v and 0xDFCF) or 0x9000, and on any failure the crate is still valid. |
| Crates.InitializedRegister | minervadaq/fermihardware/src/VMECrate.cpp:44-60 | The two calls of an initialization make (v and 0xDFCF) or 0x9000 of a register. |
| Crates.VMECrate.ResetEventCounter | minervadaq/fermihardware/src/VMECrate.cpp:121-125 | One access for every channel of every module, up to the first that fails. |

## Left out

- Other output modes of the shell, and the insertion of imported rows into the database.
- LocalGetline: for a file with NUL bytes only that the line is a string and the reader advances; the code then keeps of every chunk what comes before its NUL.
- ImportTable: insertion succeeds, and which rows are read is said for files without NUL bytes.
- TableRoundTripIff: says nothing of separators that are empty or hold a quote or a line feed; for those of one byte OneByteSeparatorIff shows that they fail.
- ResolveBackslashes: stops where the code would read past the end of the string, since what lies there is not known.
- ProcessDataIntoFrames: stops where the code would read past the block, or past a frame that is shorter than its header; that a length of zero keeps the loop running is said by LoopEndsIff.
- Frames as objects with an identity: a frame in the list is its bytes; the decoded header fields and the log are not kept.
- The masks of `DecodeHeader`: single bytes, nothing that spans functions.
- The headers of TRiP frames are a parameter; those of FPGA frames are built by MakeDeviceFrameTransmit.
- DecodeRegisterValues: the messages logged and the text thrown are reduced to which error it is.
- FinishGate: only the gate file; the SAM file and the last-trigger file are not modelled.
- Initialize: the trigger modules are not initialized, and the values of the timing, test pulse and delay registers are not kept; their accesses are, with their failures.
- Configure: the setter methods of the register parser are one method with the field as an argument, and the calls of channels, modules and crates that differ only in their setters are one method each.
- Counters: the gate counter and the number of gates are unbounded integers, so a run of 2147483647 gates and its overflow are not modelled.
- A sign in front of the number in the gate file.
- The debug branch of `TakeData` that dissolves blocks: it is not reached once the transfer system has been set up. DissolveDataBlock itself is modelled.
- Timing of triggers, interrupts and sleeps, and what `CRIM`, `Controller` and the polling waits decide: they are part of the hardware's script.
- Failures inside the exception handlers of `main`, of the error database and of `CloseDownET`.
- The start of the event builder: opening the transfer system, waiting for its heartbeat, attaching and detaching.
- Run numbers and other fields of the DAQ header that come from the command line or from clocks are parameters.
- `ADCFrame`, `VMEAddressTranslator`, the database worker, SAM and last-trigger files, argument parsing, logging.
- The transfer system and the CAEN library themselves, and the rest of the shell.
