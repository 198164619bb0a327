# Verified models of the base libraries

A Dafny 4.11 project that models parts of a C++ base library and proves what they promise.
`dafny verify dfyconfig.toml` checks all of it.

## What is modelled

**The list file** (`ListFormat`, `Blocks`, `Coding`, `Checksum`, `FileHeader`, `WriterLog`,
`ListWriter`, `Physical`, `Stream`, `Logical`, `Survival`, `ListFile`, `ListReader`, `RoundTrip`,
`SampleCodec`). A log-structured record file: fixed-size blocks hold physical records - full
records, fragments, packed arrays - with blank bytes where a block has no room left, optional
compression per physical record, a masked CRC, and a file header with a metadata map. Writer and
reader are classes whose fields and loops are those of the source. The writer is proved to keep a
*log* of units, whose layout in blocks is exactly what the sink has received; the reader is proved
to take reports and records off the front of a *trace*, a function of the bytes alone. The
theorems relate log and trace: the whole-run round trip, what is left after a crash, and how far
one damaged physical record reaches; `Logical.RecordsAreWritten` says of any file whatever that no
record is put together from the parts of two. `EndToEnd.WriteAndReadBack` states the round trip of a client
of the two classes.

**Two concurrency protocols** (`EventCount`, `SpscQueue`). State machines whose steps are the
single atomic loads, stores, fetch_adds, futex calls and slot accesses of the source; a run is any
sequence of enabled steps of any threads.

**CRC-32C** (`Crc32c`, `Crc32cTables`). The bitwise definition of section 12.1 of RFC 3720 is the
reference; the four tables and the four loops with the alignment prologue are proved against it.

**Text and number codecs** (`Base64`, `CEscape`, `LineEndings`, `Lines`, `LineReader`,
`BufferedSource`, `IntegerText`, `DigitOrder`). Each loop of the source is a method with the same
branches, proved against a specification that reads the text one character, item, line or number
at a time; round trips and order properties are then proved of the specifications.

**Arithmetic and algorithms** (`Uint128`, `EditDistance`, `MinMax`; `Division` holds the facts
about products and quotients they share, `Wrappers` the Option type).

## What the code does where that may surprise

- A full record that arrives inside a fragmented one is reported and then falls through to the
  case for a first fragment, so it is reported twice and becomes the beginning of a new fragmented
  record (file/list_file_reader.cc:93-109).
- The low four bits of a type byte can be 6 or 7, which the reader's switch takes for its own
  end-of-file and bad-record codes (file/list_file_reader.cc:149-161, 364).
- `length + 9` is a 32-bit sum, so a length of at least 2^32 - 9 passes the bound check
  (file/list_file_reader.cc:326-333): `ListFile.WrapsIff`. With checksums on the code then reads
  `1 + length` bytes for the checksum, outside its buffer - except at 2^32 - 1, where that count
  wraps to zero (file/list_file_reader.cc:340) and the mismatch is noticed unless the stored word is
  0xa282ead8. `ListFile.DamageIsConfinedIff` states the exact condition;
  `ListFile.WrappedLengthCrashes`, `ListFile.LongestLengthIsConfined` and
  `ListFile.LongestLengthCrashes` give the inputs. With checksums off the reader hands out a record
  longer than its buffer. The model has one outcome for a read or a record outside the buffer, after
  which nothing is promised; it also stands for a metadata header that is too short and for a failed
  CHECK.
- An empty compressed record takes its method from the byte behind it
  (file/list_file_reader.cc:355-369). If that names no compressor the record is reported; otherwise,
  or at the end of the buffer, the outcome is the one above.
- The parser keeps the offset of the body in an `unsigned int` (file/list_file_format.h:66). It is
  exact if and only if the header is smaller than 2^32 bytes: `FileHeader.OffsetIsExact`, and
  `FileHeader.OffsetWraps` for an input. The whole-file theorems therefore ask for a metadata block
  below 2^32 - 15 bytes.
- The default compression method is LZ4. A method without a registered compressor is replaced by
  zlib when the writer is constructed (file/list_file.cc:190-204).
- Nine blank bytes at the end of a block are skipped in silence, any longer blank tail is a bad
  record without a report (file/list_file_reader.cc:315-324).
- The fifth byte of a varint keeps only the bits that fit 32.
- The Base64 decoder skips a null character inside its first loop and stops at one in its second
  (strings/escaping.cc:899-917, 984-986), so the model treats the two loops differently.
- A `\x` escape keeps its value in 32 bits (strings/escaping.cc:323-328). The documented refusal
  of values above 0xff therefore fails exactly for values from 2^32 on whose low 32 bits are at most
  0xff: `CEscape.HexIsExact`, in terms of the digits `CEscape.HexIsExactByDigits`;
  `CEscape.LongHexWraps` gives inputs.
- The escaper asks for four bytes before a numeric escape and lets `snprintf` write five
  (strings/escaping.cc:533-535). `CEscape.Escape` says exactly when the fifth falls behind the
  buffer, `CEscape.FourBytesOverrun` gives an input, and `CEscape.EnoughRoom` shows that the
  documented 4n + 1 bytes are always enough.
- `uint128 >>=` clears the high half before reading it for amounts from 64 to 127
  (base/int128.h:248-250): `Uint128.ShiftRightAssignIsExactIff` says exactly when the result is
  right, `Uint128.ShiftRightAssignLosesBits` gives the smallest failing case.
- A prefix with no digits after it, such as 0x in base 16, parses as zero
  (strings/numbers.cc:621-642).
- The first product in FastUInt32ToBufferLeft is one of signed ints and overflows for values from
  2200000000 on (strings/numbers.cc:939), which the language leaves undefined. Where it wraps, the
  result is right: `IntegerText.FirstProduct`.
- The sum by which a BufferredSource decides to move its bytes has 32 bits (util/sinksource.cc:58).
  In buffers of more than 2^31 bytes it can wrap, and then Peek can fail its CHECK:
  `Buffering.FileSource.Peek` says exactly when, `Buffering.Starve` gets there.
- CUnescape keeps an escaped null character, if asked to, with a memcpy. In place the two ranges can
  overlap, which memcpy does not allow (strings/escaping.cc:308, 339, 372, 417): after fewer bytes
  gained than the escape has behind its backslash, a copy onto itself included. The model takes the
  copy as a move; `CEscape.Unescape` tells exactly when the ranges overlap and
  `CEscape.ShortenedEscapeOverlaps` gives an input.
- notifyAll wakes at most INT_MAX threads (base/event_count.h:163-165). `EventCount.LosesWakeupIff`
  shows that a wakeup can be lost if and only if more threads than that use the event count and the
  condition is false at the start.

## Parameters and bounds

- The block size is any number above 14 and below 2^32 where only blocks matter, and 65536 times
  the multiplier for whole files. Records are at most 2^32 - 20 bytes, which is where the writer's
  32-bit arithmetic stops being exact; the file header is below 2^32 bytes, for the same reason.
- Compressors are pairs of functions of which only one thing is asked: decompressing a successful
  compression gives the input back. `SampleCodec` is a concrete pair.
- The order in which a metadata map is put out is any order. The address a CRC starts at is a
  parameter. A source of text may show any non-empty part of what is left at each Peek.
- Atomics are sequentially consistent. Fewer than 2^32 threads use one event count, and fewer than
  2^32 notifications happen while one thread is registered; the queue has 2 to 2^31 - 1 slots.
- Files and sinks are infallible byte sequences; the bodies of std::map, vector and string are
  those of the mathematical types.

## Model

| member | source | states |
|---|---|---|
| EndToEnd.WriteAndReadBack | file/list_file.cc:258-320 | Writing any metadata map whose header stays below 2^32 bytes and any calls ending in Flush, then reading with or without checksums and with any compression choice, gives back exactly the records added, in order, the same map, and not one corruption report |
| ListFile.RoundTrip | file/list_file_reader.cc:64-174 | The same as a statement about the bytes of the file: the reader's whole trace is the added records and nothing else, for every multiplier from 1 to 100 |
| ListFile.BodyRoundTrip | file/list_file_reader.cc:277-366 | A flushed body of any block size above 14 is read back as exactly the records in its units |
| ListFile.CrashTruncation | file/list_file_reader.cc:281-333 | Cut a body after any byte, with or without an array pending: the reader returns exactly the records all of whose physical records end at or before the cut |
| ListFile.CrashOfRun | file/list_file_reader.cc:149-161 | The same for the whole file after any calls, flushed or not: what is returned after a cut is the complete records of the units written and is a prefix of the records added |
| ListFile.WithinIsPrefix | file/list_file_reader.cc:149-161 | The records within any number of frames are a prefix of all records, and all of them if no frame is missing |
| ListFile.BodyGrows | file/list_file.cc:258-320 | Every later call only appends to the file, so a crash at any moment leaves a cut of every later output |
| ListFile.DamageConfinement | file/list_file_reader.cc:326-351 | Damage one physical record so that its head is refused, and anything after it in its block: the reader returns exactly the records that use neither it nor a later physical record of that block, in order |
| ListFile.DamageIsConfinedIff | file/list_file_reader.cc:326-351 | With checksums on and a checksum that no longer matches, or a length beyond the block: the reader stays in its buffer, and then confines the damage as above, if and only if the length field is below 2^32 - 9, or is 2^32 - 1 and the stored word is not the masked checksum of no bytes |
| ListFile.DamageOfFile | file/list_file_reader.cc:102-161 | The same if-and-only-if for a whole file with an intact header |
| ListFile.MismatchIsRefused | file/list_file_reader.cc:326-351 | A stored checksum that does not match the bytes it now covers, or a length beyond the block, makes the head refused if and only if its length and stored word meet that condition |
| ListFile.WrapsIff | file/list_file_reader.cc:326-333 | The bound check lets a record through that leaves the buffer exactly if its length field is at least 2^32 - 9 |
| ListFile.WrappedLengthCrashes | file/list_file_reader.cc:326-340 | Nine bytes whose length field is 2^32 - 2 end in the outcome of a read, or of a record, outside the buffer |
| ListFile.LongestLengthIsConfined | file/list_file_reader.cc:337-350 | With 2^32 - 1 the checksum is taken over no bytes: the mismatch is reported and the rest dropped |
| ListFile.LongestLengthCrashes | file/list_file_reader.cc:337-353 | Unless the stored word is the masked checksum of no bytes |
| Checksum.MatchesNothing | file/list_file_reader.cc:337-340 | The word that passes the test over no bytes is 0xa282ead8 and no other |
| Logical.CrashIff | file/list_file_reader.cc:64-174 | ReadRecord passes on a read outside the buffer exactly if ReadPhysicalRecord makes one, whatever is being put together |
| Logical.RecordsAreWritten | file/list_file_reader.cc:91-147 | Whatever the physical records are, a record that is returned is a full one, an entry of an array, or a first fragment, the middle ones after it and the last one, with nothing but broken arrays among them |
| Logical.FragmentsAreReturned | file/list_file_reader.cc:102-131 | A first fragment begins anew whatever was collected: what was is reported with its size, and the fragments from it to the last one are one record |
| Logical.FragmentsAreReported | file/list_file_reader.cc:93-171 | Collected fragments that are not continued are reported with their size, and why |
| Logical.LooseEvents | file/list_file_reader.cc:111-171 | With nothing collected, stray fragments, unknown types and broken arrays are reported with their size, a bad record is passed over and the end is the end |
| Logical.ArraysAreRead | file/list_file_reader.cc:73-90 | The entries of an array are returned in order; where it is broken, what is left of it is reported |
| EndToEnd.BlockPosition | file/list_file.cc:369-378 | The block invariant in the writer's fields: bytes after the header are k blocks plus block_offset_, offset and leftover add up to the block size, and a pending array with its 14 reserved bytes fits what is left |
| EndToEnd.WriteFile | file/list_file.cc:181-233 | A fresh writer leaves the header, with the metadata in some order, followed by the body of the log of its calls |
| EndToEnd.ReadFile | file/list_file_reader.cc:58-62 | Reading a whole file returns the records of its trace; a trace of records alone is read without a report |
| ListWriting.ListWriter.constructor | file/list_file.cc:181-208 | A writer starts with an empty sink; a compression method that is not registered is replaced by zlib |
| ListWriting.ListWriter.AddMeta | file/list_file.cc:216-219 | Sets one metadata entry before Init |
| ListWriting.ListWriter.ListEntries | file/list_file.cc:126-132 | The metadata is put out once per key, in some order |
| ListWriting.ListWriter.WriteHeader | file/list_file.cc:119-143 | The sink receives the header bytes of the metadata listing |
| ListWriting.ListWriter.Init | file/list_file.cc:221-233 | Writes the header once and leaves an empty log |
| ListWriting.ListWriter.AddRecordToArray | file/list_file.cc:235-240 | Appends size and record to the pending array, in place, within the space reserved |
| ListWriting.ListWriter.Compress | file/list_file.cc:330-368 | The compressed form is used exactly when compression is on, more than 64 bytes are given and an eighth is saved; it always fits |
| ListWriting.ListWriter.BlockHeader | file/list_file.cc:62-73 | Checksum over type and data computed in two calls, length, type: the nine bytes of a frame's head |
| ListWriting.ListWriter.EmitPhysicalRecord | file/list_file.cc:324-379 | Appends one frame that stays within its block, and moves offset and leftover by its size |
| ListWriting.ListWriter.PackArray | file/list_file.cc:245-250 | The count is written backward into the space reserved, right before the entries |
| ListWriting.ListWriter.FlushArray | file/list_file.cc:242-256 | The pending array becomes one physical record; with nothing pending nothing is written |
| ListWriting.ListWriter.FillBlock | file/list_file.cc:276-282 | Blank bytes are written exactly when the block has no room for a head and one byte |
| ListWriting.ListWriter.StartArray | file/list_file.cc:297-304 | A record that leaves room for an array header starts a pending array |
| ListWriting.ListWriter.JoinArray | file/list_file.cc:268-275 | A record joins the pending array exactly if it fits, else the array is flushed |
| ListWriting.ListWriter.EmitWhole | file/list_file.cc:305-308 | A record that fits the block but no array goes out as one full physical record |
| ListWriting.ListWriter.EmitFirst | file/list_file.cc:309-313 | A record that fits neither way begins with a non-empty fragment that fills the block |
| ListWriting.ListWriter.EmitNext | file/list_file.cc:284-296 | Each later fragment is non-empty and fills its block or ends the record, so the loop ends |
| ListWriting.ListWriter.PlaceRecord | file/list_file.cc:276-315 | The part of the loop reached with nothing pending places the record as the log says |
| ListWriting.ListWriter.AddRecord | file/list_file.cc:258-316 | The new state is that of the log after the record: joined, started, whole or fragmented, and the block invariant holds |
| ListWriting.ListWriter.Flush | file/list_file.cc:318-320 | Afterwards nothing is pending and every record added is in the file |
| WriterLog.AddIsGood | file/list_file.cc:258-316 | Adding a record keeps the log well formed: every frame fits its block, every fragment is non-empty, the pending array fits the leftover |
| WriterLog.PlacementRule | file/list_file.cc:258-316 | A record joins the pending array exactly if that still fits with its header; else it begins one, is written whole or is split so that its first piece fills the block, as the room decides |
| WriterLog.OpsKeepContents | file/list_file.cc:258-320 | After any calls the log holds what it held before and then the records added, in order |
| WriterLog.SplitIsGood | file/list_file.cc:284-313 | The fragments of a record fit their blocks one after the other and join to the record |
| WriterLog.SizeArithmeticIsExact | file/list_file.cc:261-262 | The 32-bit size arithmetic of AddRecord is exact if and only if the record is at most 2^32 - 20 bytes long |
| FileHeader.HeaderRoundTrip | file/list_file_reader.cc:187-237 | Parsing a written header below 2^32 bytes gives back the multiplier, the whole metadata map and the offset of the body |
| FileHeader.ParseOfHeader | file/list_file_reader.cc:187-237 | Of any header whose sizes fit 32 bits it gives back multiplier and metadata, and its size modulo 2^32 |
| FileHeader.OffsetIsExact | file/list_file_format.h:66-66 | The 32-bit offset of the body is exact if and only if the header is smaller than 2^32 bytes |
| FileHeader.OffsetWraps | file/list_file_reader.cc:209-215 | A metadata block of 2^32 - 10 bytes makes the parser say that the body begins at 5 |
| FileHeader.MetaRoundTrip | file/list_file_reader.cc:222-232 | The entries of the metadata block decode to the map they list, in whatever order |
| FileHeader.RepeatedKeys | file/list_file_reader.cc:222-232 | Of entries with the same key the first one counts |
| FileHeader.HeaderFormat | file/list_file.cc:106-143 | The bytes of a header by position: magic, multiplier, extension, checksum, size and block |
| FileHeader.FirstSevenBytes | file/list_file_reader.cc:191-204 | A short file, a wrong magic or a multiplier of 0 or above 100 is rejected; without the extension the body begins at 7 |
| FileHeader.MetadataIsChecked | file/list_file_reader.cc:205-220 | Metadata with a wrong checksum is rejected; metadata that is cut short fails the CHECK |
| Coding.TakeStringOf | file/list_file_reader.cc:176-185 | A length-prefixed string decodes to itself and the position after it |
| ListFormat.Config.StoredForm | file/list_file.cc:330-368 | Either type and payload as they are, or the compression bit, the method and what the compressor made of more than 64 bytes, an eighth shorter at least |
| ListFormat.CompressedIff | file/list_file.cc:330-368 | The compression bit is set exactly if compression is on and makes more than 64 bytes at least an eighth shorter |
| ListFormat.Frame | file/list_file.cc:324-379 | A frame is a nine-byte head and at most the payload |
| Physical.FrameFormat | file/list_file.cc:62-73 | The bytes of a frame by position: checksum of type and data, size, type, data |
| Blocks.LayoutSize | file/list_file.cc:276-282 | The bytes of frames laid out in blocks come to whole blocks plus the final offset |
| Blocks.SplitAt | file/list_file.cc:276-282 | A layout can be taken apart before any frame, filler included |
| Blocks.DamagedParts | file/list_file.cc:276-282 | The bytes from a frame to the end of its block can be replaced without moving any later block |
| Physical.FetchFrame | file/list_file_reader.cc:309-364 | The reader takes an undamaged frame for the physical record it was made from, compressed or not |
| Physical.AcceptStoredForm | file/list_file_reader.cc:355-364 | Uncompress and the type bits undo the stored form |
| Physical.Fetch | file/list_file_reader.cc:277-366 | Every return of ReadPhysicalRecord uses up input, so reading ends |
| Stream.EventsOfRun | file/list_file_reader.cc:277-366 | A run of frames is read as exactly their physical records, across block boundaries and filler |
| Stream.TornFrame | file/list_file_reader.cc:281-333 | A frame cut short yields at most one event, and no record |
| Stream.EventsOfCut | file/list_file_reader.cc:281-333 | A layout cut anywhere yields the frames that end before the cut and then at most one event without a record |
| Stream.EventsOfRefused | file/list_file_reader.cc:326-351 | After a refused head the rest of the block is dropped and reading goes on with the next block |
| Stream.RefusedIsReported | file/list_file_reader.cc:326-351 | A refused head is reported once, with the size of all that is dropped with it |
| Stream.RestOfFile | file/list_file_reader.cc:281-324 | Fewer than nine bytes at the end are reported, nine blank ones are not, and more blank ones are a bad record without a report |
| Logical.RunUnit | file/list_file_reader.cc:64-174 | The physical records of one full, packed or fragmented unit yield its records and leave no state behind |
| Logical.RunUnits | file/list_file_reader.cc:64-174 | The same for any sequence of units |
| Survival.RecordsOfCut | file/list_file_reader.cc:149-161 | With the frames from some point on missing, exactly the complete units before it are returned |
| Survival.RecordsOfDamage | file/list_file_reader.cc:102-161 | With the frames from d up to e lost to one bad record, exactly the units that use none of them are returned |
| Survival.RecordsOfOrphans | file/list_file_reader.cc:111-131 | Fragments whose first part was lost are reported and never returned |
| ListReading.ListReader.constructor | file/list_file_reader.cc:32-36 | A reader starts with its header unread and everything still to come |
| ListReading.ListReader.ReadBlock | file/list_file_reader.cc:283-297 | Reads the next block, or the last part of one, and notices the end of the file |
| ListReading.ListReader.Uncompress | file/list_file_reader.cc:368-412 | Agrees with the registered decompressor, and fails for an unknown method or a result larger than a block |
| ListReading.ListReader.TakeRecord | file/list_file_reader.cc:309-364 | Decides a buffer of at least nine bytes as its specification does: blank, too long, mismatch or good |
| ListReading.ListReader.ReadPhysicalRecord | file/list_file_reader.cc:277-366 | Returns the next event of the bytes still unread, and what remains is the rest of them |
| ListReading.ListReader.ReadHeader | file/list_file_reader.cc:239-261 | Parses the header once; a rejected header is reported with the file size and ends the reading |
| ListReading.ListReader.NextItem | file/list_file_reader.cc:73-90 | Takes the next entry of the current array, or reports a broken array and drops it |
| ListReading.ListReader.TakeTurn | file/list_file_reader.cc:91-171 | One turn of the switch, including the fall-through after a full record inside a fragmented one |
| ListReading.ListReader.TakeEvent | file/list_file_reader.cc:91-173 | The rest of a turn of the loop: either the call ends with what the trace says, or reports come off it and input is used up |
| ListReading.ListReader.ReadLoop | file/list_file_reader.cc:72-173 | The loop returns the next record of the trace, after exactly the reports that precede it |
| ListReading.ListReader.ReadRecord | file/list_file_reader.cc:64-174 | Each call takes reports and then one record, an end-of-file event or the end off the front of the trace |
| ListReading.ListReader.GetMetaData | file/list_file_reader.cc:58-62 | Returns the metadata of the header if it can be read |
| ListReading.ReadAll | file/list_file_reader.cc:64-174 | Calling ReadRecord until it returns false yields all records of the trace |
| SampleCodec.RunsAreSound | file/list_file.cc:330-368 | A concrete compressor meets the contract that decompression undoes compression |
| SampleCodec.CompressionHappens | file/list_file.cc:356-363 | With it a payload over 64 bytes really is stored compressed |
| Coding.VarintRoundTrip | util/coding/varint.h:259-290 | Decoding undoes encoding for every 32-bit value, and takes exactly the bytes written |
| Coding.VarintWidth | util/coding/varint.h:461-485 | A 32-bit value takes at most five bytes |
| Coding.VarintIsShortest | util/coding/varint.h:461-485 | k bytes are enough exactly for values below 128^k |
| Coding.VarintSpells | util/coding/varint.h:461-485 | The low seven bits of the bytes spell the value, lowest first, and only the last byte has its top bit clear |
| Coding.Fixed32RoundTrip | util/coding/fixed.h:17-41 | The little-endian form of every 32-bit value decodes to it |
| Crc32c.Extend | util/crc32c.cc:286-329 | For every alignment, length and content the four loops compute the bitwise CRC-32C |
| Crc32c.ExtendConcat | util/crc32c.cc:286-329 | Extending over a and then over b is extending over a followed by b |
| Crc32c.Residue | util/crc32c.cc:286-329 | A register of ones fed any string and then its checksum, lowest byte first, holds 0xb798b438 |
| Crc32c.StartsComplemented | util/crc32c.cc:286-329 | The checksum is the complement of the remainder of the message with its first four bytes complemented, from a register of zero |
| Crc32c.MaskRotates | util/crc32c.h:31-34 | Bit 15 goes to the bottom and the bottom to bit 17, before 0xa282ead8 is added |
| Crc32c.Step1FeedsOneByte | util/crc32c.cc:291-294 | The byte step feeds eight bits of the reference |
| Crc32c.Step4FeedsFourBytes | util/crc32c.cc:295-302 | The word step over four tables feeds four bytes of the reference |
| Crc32c.Table0Entry | util/crc32c.cc:13-79 | Every entry of the first table is eight bit steps of its index |
| Crc32c.Table1Entry | util/crc32c.cc:80-145 | Every entry of the second table is sixteen bit steps of its index |
| Crc32c.Table2Entry | util/crc32c.cc:146-212 | Every entry of the third table is twenty-four bit steps of its index |
| Crc32c.Table3Entry | util/crc32c.cc:213-279 | Every entry of the fourth table is thirty-two bit steps of its index |
| Crc32c.MaskRoundTrip | util/crc32c.h:31-41 | Unmask undoes Mask, and Mask undoes Unmask |
| Checksum.MatchesIffMasked | file/list_file_reader.cc:336-341 | The reader's one-call test accepts exactly the stored value of the bytes it covers |
| Checksum.StoredMatches | file/list_file.cc:65-72 | The checksum the writer computes in two calls passes the reader's test |
| EventCount.NoLostWakeup | base/event_count.h:167-203 | In every interleaving of up to INT_MAX threads that call await() any number of times, other notifiers and spurious wakeups, no thread is asleep once the poster's notifyAll has returned |
| EventCount.LosesWakeupIff | base/event_count.h:163-178 | For fewer than 2^32 threads: some run leaves a thread asleep after notifyAll if and only if the condition is false at the start and there are more than INT_MAX threads |
| EventCount.AwaitMeansCondition | base/event_count.h:236-255 | await() returns only when its condition holds |
| EventCount.WaitMeansNotified | base/event_count.h:193-203 | wait(key) returns only after a notification later than the key, whatever wakes the thread |
| EventCount.NotifyIsSeen | base/event_count.h:167-178 | After the first step of any notify no registered thread holds the current epoch, and the futex call follows if somebody sleeps |
| EventCount.NotifyWakes | base/event_count.h:172-176 | The futex call of notify(n) wakes the smaller of n and the number asleep |
| EventCount.EveryWaiterReturns | base/event_count.h:193-203 | From then on no thread is ever blocked, no step of another sets it back, and each call of await() returns within six steps of its own |
| EventCount.CountIsExact | base/event_count.h:148-156 | In every reachable state the low half of val_ is the number of registered threads and the high half the number of notifications modulo 2^32 |
| EventCount.NoBorrow | base/event_count.h:185-203 | Deregistration never borrows from the epoch, and the asserts of cancelWait() and wait() hold |
| EventCount.PostKeepsInv | base/event_count.h:167-178 | Skipping the futex call when no waiter is counted is safe, and making it wakes every sleeper |
| EventCount.SleepersAfterWaking | base/event_count.h:172-176 | A wake with limit n leaves nobody asleep if and only if at most n threads slept |
| EventCount.EpochTestIsExact | base/event_count.h:194-196 | Comparing key and epoch misses notifications exactly when their number is a positive multiple of 2^32 |
| EventCount.WaitKeepsInv | base/event_count.h:236-255 | Every step of await() keeps the invariant |
| EventCount.BumpKeepsInv | base/event_count.h:170-171 | A notification by anyone keeps every key less than 2^32 notifications old and every waiter counted |
| EventCount.RunKeepsInv | base/event_count.h:56-91 | The invariant holds over every run |
| SpscQueue.FirstInFirstOut | base/ProducerConsumerQueue.h:76-132 | Under every interleaving the values taken out are a prefix of those put in, no slot is constructed over or used when empty, no assert fails, and at most size - 1 slots are in use |
| SpscQueue.WriteOutcome | base/ProducerConsumerQueue.h:76-90 | write() fails exactly when the queue is full at its load of readIndex_ |
| SpscQueue.ReadOutcome | base/ProducerConsumerQueue.h:93-119 | read() gives up and frontPtr() is null exactly when the queue is empty at the load of writeIndex_; otherwise they yield the oldest value |
| SpscQueue.ReadCompletes | base/ProducerConsumerQueue.h:93-108 | A read() begun with a value held takes out exactly the oldest value, in its five steps, whatever the producer does between them |
| SpscQueue.TakeCompletes | base/ProducerConsumerQueue.h:93-132 | The same from any point of read() or popFront() |
| SpscQueue.WriteCompletes | base/ProducerConsumerQueue.h:76-90 | A write() begun with room puts in exactly its value, in its four steps, whatever the consumer does between them |
| SpscQueue.ConsumerAnswers | base/ProducerConsumerQueue.h:134-163 | Asked by the consumer, isEmpty() is exact and isFull() and sizeGuess() err on the low side |
| SpscQueue.ProducerAnswers | base/ProducerConsumerQueue.h:134-163 | Asked by the producer, isFull() and sizeGuess() are exact and isEmpty() errs on the high side |
| SpscQueue.ProduceKeepsInv | base/ProducerConsumerQueue.h:76-90 | Every step of write() keeps the contents of the ring |
| SpscQueue.ConsumeKeepsInv | base/ProducerConsumerQueue.h:93-132 | Every step of read(), frontPtr() and popFront() keeps the contents of the ring |
| SpscQueue.DestroyAll | base/ProducerConsumerQueue.h:57-73 | The destructor destroys each value still held once, in order, and leaves no slot occupied |
| Base64.RoundTrip | strings/escaping.cc:849-1075 | Decoding undoes encoding for every byte string, both alphabets, padded or not |
| Base64.SpacesDoNotMatter | strings/escaping.cc:866-876 | White space anywhere in a text without null characters does not matter |
| Base64.PaddingRule | strings/escaping.cc:1019-1072 | Data characters and pads decode exactly if no character is left over alone and the pads are none or complete the last group |
| Base64.BadCharacters | strings/escaping.cc:986-1000 | Any character that is not data, white space or a pad is refused where data are read |
| Base64.GroupsAreSingles | strings/escaping.cc:883-1017 | Without a null character the two loops read what the second alone would |
| Base64.NullRule | strings/escaping.cc:899-917 | A null character between groups is skipped if at least three characters follow, and otherwise ends the text |
| Base64.KnownEncodings | strings/escaping.cc:1219-1283 | The vector foobar of RFC 4648, and one that uses the characters in which the alphabets differ |
| Base64.EncodingLength | strings/escaping.cc:764-809 | The encoding is exactly as long as CalculateBase64EscapedLen says |
| Base64.Escape | strings/escaping.cc:1219-1283 | Writes the encoding if it fits, else returns 0 |
| Base64.EscapeTail | strings/escaping.cc:1243-1281 | The last one or two bytes and their padding, if there is room |
| Base64.Unescape | strings/escaping.cc:849-1075 | On every input, valid or not, both modes agree with the character-at-a-time decoding; with a dest the result is -1 as well exactly if the decoding does not fit |
| Base64.FirstLoop | strings/escaping.cc:883-958 | Taking four characters at once where possible is the same as taking them one by one |
| Base64.GetInput | strings/escaping.cc:866-876 | The macro finds the next data character of a group or the one that stops it |
| Base64.QuadIsExact | strings/escaping.cc:899-902 | The test of the high bit passes exactly when all four characters are data |
| Base64.StoredBytes | strings/escaping.cc:929-937 | The stores write the bytes of the values whatever else is left in temp |
| Base64.SecondLoop | strings/escaping.cc:974-1017 | The slow loop follows the character-at-a-time decoding |
| Base64.FinishGroup | strings/escaping.cc:1019-1057 | The bytes of an incomplete group, and the padding it calls for |
| Base64.CountEquals | strings/escaping.cc:1059-1072 | Counts the pad characters, and fails on anything else that is not a space |
| CEscape.RoundTrip | strings/escaping.cc:254-434 | CUnescape undoes each of the four escapers on every byte string |
| CEscape.EscapedIsPrintable | strings/escaping.cc:516-545 | The output is printable ASCII, but for high bytes that are kept on request |
| CEscape.PlainIsKept | strings/escaping.cc:526-543 | Printable text without quotes and backslashes is not changed |
| CEscape.HexForm | strings/escaping.cc:533-536 | Other bytes are a backslash, x and two lower-case hexadecimal digits ... |
| CEscape.OctalForm | strings/escaping.cc:533-536 | ... or a backslash and three octal digits, of their value |
| CEscape.LettersOfC | strings/escaping.cc:276-286 | The letters of C stand for their control characters |
| CEscape.OctalEscapes | strings/escaping.cc:287-314 | One to three octal digits are their value, refused above 255 |
| CEscape.HexEscapes | strings/escaping.cc:315-344 | Any number of hexadecimal digits after x or X are their value modulo 2^32, refused above 0xff |
| CEscape.UnknownEscapes | strings/escaping.cc:271-426 | A backslash before any other character, at the end, or before an x without digits is an error |
| CEscape.RunesAreSpelled | strings/escaping.cc:345-424 | \u and \U give UTF-8 that spells the value of their digits, and are refused above the Unicode limit |
| CEscape.Utf8Spells | strings/utf8/rune.c:248-303 | A UTF-8 decoder of its own gets every rune back, from as few bytes as the RFC says |
| CEscape.NoDigitAfterHex | strings/escaping.cc:526-540 | After a hexadecimal escape the output never goes on with a hexadecimal digit |
| CEscape.ItemOfPiece | strings/escaping.cc:268-345 | The decoder takes each piece for the character it came from |
| CEscape.Escape | strings/escaping.cc:506-551 | Writes the escaped text and a null if they fit, and returns -1 exactly if they do not; writes the byte behind the buffer exactly if a numeric escape ends the buffer, and nothing further |
| CEscape.EscapeOne | strings/escaping.cc:512-542 | One character, if there is room; the null that snprintf puts after a numeric escape included |
| CEscape.EnoughRoom | strings/escaping.cc:533-536 | A buffer of 4n + 1 bytes has room for the escapes of n bytes, and a buffer with room for the whole text is never overrun |
| CEscape.FourBytesOverrun | strings/escaping.cc:533-536 | A null character escaped into four bytes: snprintf writes a fifth |
| CEscape.Unescape | strings/escaping.cc:254-434 | Decodes or fails as the item-by-item definition says, also when source and destination are the same buffer, if the copy of a kept escape is a move; tells exactly when the ranges of that copy overlap |
| CEscape.KeptIsNull | strings/escaping.cc:304-313 | Only escapes of the null character are kept, as they are written, and only if asked for |
| CEscape.NoOverlap | strings/escaping.cc:304-313 | Without leave_nulls_escaped no copy overlaps |
| CEscape.ShortenedEscapeOverlaps | strings/escaping.cc:335-343 | Decoding \n\x0 in place and keeping the null copies two bytes one place down |
| CEscape.ReadItem | strings/escaping.cc:276-428 | One escape sequence: letters, octal, hexadecimal, \u and \U |
| CEscape.ItemFits | strings/escaping.cc:248-249 | No item decodes to more bytes than it has |
| CEscape.HexIsRefusedIff | strings/escaping.cc:315-334 | A \x escape of any number of digits is refused exactly if its value modulo 2^32 exceeds 0xff |
| CEscape.HexIsExact | strings/escaping.cc:315-334 | That is the documented refusal of values above 0xff if and only if the value is below 2^32 or its low 32 bits exceed 0xff |
| CEscape.HexIsExactByDigits | strings/escaping.cc:323-328 | The same of the digits: at most eight, or only zeroes before the last eight, or the last eight exceed 0xff |
| CEscape.LongHexWraps | strings/escaping.cc:323-328 | The smallest failing family: a 1 before eight digits of a small value is accepted as that value |
| LineEndings.CleanStringLineEndings | strings/escaping.cc:1964-2024 | The in-place loop with its eight-byte skip computes exactly the rewrite of CR LF, CR and LF to LF, plus the optional last LF |
| LineEndings.HasLessIsExact | strings/escaping.cc:1983-1984 | The word test is zero exactly when all eight bytes are at least 14 |
| LineEndings.TakeWord | strings/escaping.cc:1972-1992 | Copying a word keeps the output right and the unread input untouched |
| LineEndings.TakeByte | strings/escaping.cc:1994-2014 | Taking a byte keeps the output right and the unread input untouched |
| LineEndings.Idempotent | strings/escaping.cc:1964-2024 | Cleaning twice is cleaning once |
| LineEndings.NoCarriageReturns | strings/escaping.cc:1919-1936 | No CR is left |
| LineEndings.CleanIsJoined | strings/escaping.cc:1919-1936 | The result is the lines of the text with LF after each, an unterminated last line excepted |
| LineEndings.CleanedKeepsLines | strings/escaping.cc:1919-1936 | The line reader sees the same lines before and after; the text is those lines with LF after each, the last one only if asked for or if it was ended |
| LineEndings.AppendCleaned | strings/escaping.cc:1952-1962 | The other form appends the cleaned text to a string |
| LineReading.ReadLines | file/filesource.cc:98-144 | However the stream is cut into pieces, Next yields its split at LF, CR LF and CR, plus a final non-empty unterminated line |
| LineReading.LineReader.Next | file/filesource.cc:98-144 | Returns the first line of what is left and advances past its terminator; false exactly at the end; counts terminated lines |
| LineReading.LineReader.SkipLeftover | file/filesource.cc:114-122 | An LF that begins a piece is skipped if the last piece ended in its CR |
| LineReading.LineReader.SkipLine | file/filesource.cc:127-138 | Skips the terminator as far as the piece shows it and remembers the rest |
| Lines.SplitOfJoined | file/filesource.cc:98-144 | Lines joined by LF are split into the same lines |
| Lines.SplitOfTerminated | file/filesource.cc:98-144 | A line ended by LF, CR LF, or a CR that no LF follows is the first line, whatever comes after |
| Lines.SplitOfRest | file/filesource.cc:98-144 | What no terminator ends is a line unless it is empty |
| Buffering.FileSource.Peek | util/sinksource.cc:40-50 | A prefix of the rest of the stream, empty exactly at the end, and at least minimal_size long unless the stream ends; the CHECK of that fails exactly if the 32-bit sum wraps, too little room is left and the file goes on |
| Buffering.FileSource.StarvesOnlyIfHuge | util/sinksource.cc:52-58 | That takes a buffer of more than 2^31 bytes |
| Buffering.Starve | util/sinksource.cc:40-58 | With 3 * 2^30 bytes of buffer Peek(1), Skip(2^30 + 1) and Peek(2^31) make the CHECK fail |
| Buffering.FileSource.Skip | util/sinksource.cc:29-38 | Skipped bytes plus buffered bytes stay the prefix of the stream read so far |
| Buffering.FileSource.Refill | util/sinksource.cc:52-73 | Keeps the unread bytes, says exactly when they are moved, the wrap of the sum included, and when the move overlaps, and that it never overlaps if 3 * minimal_size <= buf_size_ |
| Buffering.FileSource.RefillInternal | file/filesource.cc:38-54 | Reads as much as fits behind the unread bytes; a short read is the end of the file |
| Buffering.FileSource.constructor | util/sinksource.cc:24-27 | An empty window at the start of the stream |
| Buffering.StringSource.Peek | util/sinksource.h:136-136 | A prefix of at most block_size bytes, empty only at the end or for block size zero |
| Buffering.StringSource.Skip | util/sinksource.h:135-135 | Drops bytes from the front of the string |
| IntegerText.ParsePositive | strings/numbers.cc:621-642 | Succeeds exactly when all characters are digits below the base and the number they denote is at most the maximum; no intermediate result leaves the type |
| IntegerText.ParseNegative | strings/numbers.cc:644-671 | The same below zero down to the minimum |
| IntegerText.ParseSignAndBase | strings/numbers.cc:535-594 | Trims spaces and takes sign and prefix off as the reading of the text says |
| IntegerText.ParseInt | strings/numbers.cc:673-687 | The value of the text if it is in the range of the type, else failure |
| IntegerText.ParseUint | strings/numbers.cc:689-698 | The same for unsigned types, where any minus sign fails |
| IntegerText.ParseOfIntText | strings/numbers.cc:673-687 | Parsing undoes printing for every value of a type, its minimum included |
| IntegerText.ParseOfNumeral | strings/numbers.cc:742-763 | The same for unsigned numerals in any base |
| IntegerText.ParseOfWritten | strings/numbers.cc:535-698 | Spaces around it, a sign, a prefix that suits the base and a numeral parse to the signed value, in bases 0 and 2 to 36 |
| IntegerText.LettersAreDigits | strings/numbers.cc:631-632 | Letters of either case are digits from ten on |
| IntegerText.NumberOfNumeral | strings/numbers.cc:742-763 | A numeral denotes its value and has no leading zero |
| IntegerText.PrintUInt32 | strings/numbers.cc:923-1003 | The unrolled printer writes the decimal numeral and a null, for every 32-bit value, if a signed product that overflows wraps |
| IntegerText.FirstProduct | strings/numbers.cc:935-939 | The first product fits a signed int if and only if the value is below 2200000000, and wrapped it leaves the same digits |
| IntegerText.PrintUInt64 | strings/numbers.cc:1017-1057 | The same for every 64-bit value, nine digits at a time |
| IntegerText.PrintInt | strings/numbers.cc:1005-1066 | The signed printers, the minimum included |
| IntegerText.PrintBase36 | strings/numbers.cc:742-763 | Writes the base-36 numeral if it fits with its null, else returns 0 |
| IntegerText.NumeralLength | strings/numbers.cc:923-1003 | Ten digits are enough for 32 bits and twenty for 64 |
| DigitOrder.AutoDigitStrCmp | strings/numbers.cc:1098-1171 | The two-index loop computes the order in which runs of digits count as numbers |
| DigitOrder.CompareDigits | strings/numbers.cc:1124-1138 | Comparing by length and then digit by digit orders strings of digits by the numbers they denote |
| DigitOrder.SmallerNumberFirst | strings/numbers.cc:1104-1147 | After a common beginning the smaller number comes first, whatever follows and however many zeroes are in front; in strict mode more zeroes in front of the same number come first |
| DigitOrder.CharactersDecide | strings/numbers.cc:1151-1158 | Where two strings first differ and not within a number, the smaller character comes first |
| DigitOrder.PrefixFirst | strings/numbers.cc:1161-1170 | A string comes before its continuations, unless its last number goes on |
| DigitOrder.WeakOrder | strings/numbers.cc:1075-1096 | In both modes the comparison is antisymmetric and transitive, and ties are interchangeable |
| DigitOrder.StrictIsTotal | strings/numbers.cc:1075-1096 | In strict mode only identical strings tie |
| DigitOrder.TiesDifferInZeroes | strings/numbers.cc:1075-1096 | In non-strict mode the ties are exactly the strings that are equal up to leading zeroes of runs of digits |
| EditDistance.EditDistance | strings/util.cc:627-659 | The table computes the distance |
| EditDistance.DistanceIsLeast | strings/util.cc:627-659 | The distance is the least number of insertions, deletions and changes that turn one string into the other |
| EditDistance.Metric | strings/util.cc:627-659 | Zero only between equal strings, symmetric, and with the triangle inequality |
| EditDistance.EditIsNear | strings/util.cc:645-656 | One edit moves the distance from any string by at most one |
| MinMax.MinMaxElement | base/algorithm.h:144-206 | The first minimum and the last maximum under any strict weak ordering, in at most floor(3(N-1)/2) calls of the comparison object |
| MinMax.NextPair | base/algorithm.h:172-189 | Of two new elements only the smaller can be the minimum and only the other the maximum |
| MinMax.Unique | base/algorithm.h:136-143 | There is only one such pair |
| Uint128.Uint128.AddAssign | base/int128.h:270-277 | Addition modulo 2^128, also of an object to itself |
| Uint128.Uint128.SubAssign | base/int128.h:279-285 | Subtraction modulo 2^128, also of an object from itself |
| Uint128.Uint128.MulAssign | base/int128.h:287-308 | Multiplication modulo 2^128, also of an object by itself |
| Uint128.Uint128.ShiftLeftAssign | base/int128.h:224-239 | The in-place shift is the one by expression |
| Uint128.Uint128.ShiftRightAssign | base/int128.h:241-256 | What the code leaves, including its order of assignments |
| Uint128.ShiftRightAssignIsExactIff | base/int128.h:248-250 | >>= divides by 2^n if and only if n < 64, n >= 128 or the high half is below 2^(n - 64) |
| Uint128.ShiftRightAssignLosesBits | base/int128.h:248-250 | 2^64 >>= 64 yields 0 where 1 is right |
| Uint128.ShiftLeftIsExact | base/int128.h:190-205 | << multiplies by 2^n modulo 2^128 for every n |
| Uint128.ShiftRightIsExact | base/int128.h:207-222 | >> divides by 2^n for every n |
| Uint128.NegationIsExact | base/int128.h:143-151 | Unary minus is negation modulo 2^128 |
| Uint128.Comparisons | base/int128.h:94-137 | <, >, >=, <= and == of the halves are those of the values |
| Uint128.Expansion | base/int128.h:296-300 | Only the low columns of the limb products matter modulo 2^128 |

## Left out

- Append mode of the writer: its constructor leaves block_offset_ at 0, so the block invariant does not hold there.
- ListReader::Reset, which does not clear the block buffer.
- Block multipliers above 100, which the writer accepts and the reader rejects.
- Counters kept beside the data: records_added_, bytes_added_, compression_savings_, read_header_bytes_, read_data_bytes_.
- Compression levels and the real compressors, errors of sinks and files, mmap, the protobuf layer over the reader.
- Timed waits of the event count, whose early returns skip deregistration; exceptions thrown by a condition; weak memory.
- The message texts of corruption reports and of CUnescape errors: only which report or failure is made.
- LineReading.Source.Peek: it stands for every source by its contract, because the virtual base class has no counterpart here; that FileSource and StringSource keep the same contract is proved for each of them.
- Source::SkipPos, which moves the file position behind the buffer; decompressing sources; CsvReader.
- Base64 and C-escape functions that only wrap the ones above in string or file types, Base32, and the older UnescapeCEscapeSequences.
- The result of notify(), which tells whether a futex call was made.
- The bitwise operators of uint128 and its increments, which are expressions on the two halves.
- Parsing and printing of floating-point numbers, and strtol and printf wrappers.
- unique_partition, sample_k_of_n and the other templates around minmax_element.
- SingleProducerTaskPool, hashing, timers, status and string helpers.
