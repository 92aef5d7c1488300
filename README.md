# POD HD500 hwdep monitor: reassembly and decode engine

A Dafny model of the core of `hd500.c`, a console monitor for the Line 6 POD
HD500 hardware-dependent (hwdep) channel. The core consists of:

- **Reassembly.** Each read from the channel is a fragment: a 4-byte header
  whose first two bytes are the little-endian payload length, then the
  payload. A fragment whose length word is not the number of bytes after the
  header is bogus. It is dumped, and the message in progress is dropped.
  Otherwise the payload is appended to the message buffer (`msg`/`msg_size`).
  The message is complete when the buffer holds exactly
  `(msg[0] + msg[1] * 256) * 4 + 4` bytes. It is then decoded, and the
  buffer is emptied.
- **Decoding** (`print_message`). The little-endian word at offset 4 is the
  tag. Seven tags are known: preset changed, setlist, preset index, pedal,
  tempo, preset name and footswitch. Each has fields at fixed offsets.
  Anything else is hex-dumped.
- **Hex dump** (`print_buf`). Rows of 16 bytes. Each row is labelled with its
  offset in at least four hex digits, and each byte is printed as two digits.

The files, one module each:

- `bytes.dfy` (`Bytes`): the byte type, little-endian 16- and 32-bit reads, and their encoders.
- `hexdump.dfy` (`HexDump`):
  - `print_buf` as a method with the source's two nested loops, proved against the recursive reference `DumpRows`;
  - the text of a row, with a parser that reads the text back.
- `decoder.dfy` (`Decoder`):
  - the tag table (`TagOf`, `FieldsEnd`) and `Decode`;
  - the partner of `Decode`, `Encode`, which builds the canonical message of an event. `Decode(Encode(e)) == e` is proved.
- `reassembly.dfy` (`Reassembly`):
  - the pure transition `Step` from one buffer and one fragment to the next buffer and an `Outcome`, and `Run` over a sequence of reads;
  - the class `Reassembler`. It holds the 8192-byte array `buf` and the fill level `size`. `HandleFragment` changes them in place (the memcpy is a loop) and is proved against `Step`. `Reset` empties the buffer. `IsComplete` changes nothing and is proved equal to `MessageComplete` of the contents.
- `monitor.dfy` (`Monitor`):
  - the read loop `ReadMessages` over a sequence of fragments, which turns every read into a `Report` through `PrintOutcome`;
  - the end-to-end lemmas.

Choices where the source leaves something undefined:

- **Capacity.** The append is guarded. A fragment whose payload would carry the buffer past its 8192 bytes is reported as `Overflow`. The fragment is dumped and the message in progress is dropped. The source writes past the array instead (see Findings).
- **Truncated fields.** A message of at least 8 bytes with a known tag, but too short for that tag's fields, decodes to `Unrecognized` and is dumped. The source would read stale bytes left in `msg` by earlier messages.
- **Completion below 2 bytes.** `message_complete` reads `msg[0]` and `msg[1]` even when `msg_size < 2`. The expected size is always at least 4, so such a buffer is never complete. `IsComplete` reads the first two array cells just as the source does, and it is proved equal to `MessageComplete`, which is false below 2 bytes.
- **Empty reads.** A read of 0 bytes is ignored (`if (ret > 0)`): the outcome is `NoData` and the buffer is kept. Fragments of 1 to 3 bytes are always bogus. The length word is at least 0, and `ret - 4` is negative. For a 1-byte read the source takes the second length byte from stale memory, which cannot change that result.

Consequences of the code worth stating:

- **Overshoot.** Nothing in the code checks that the buffer stays within the size it declares. A buffer that grows past that size is never completed, because the completion test asks for equality, and so it is never reset by it. It grows until a bogus fragment arrives, or (in the model) until it overflows. `OvershootIsSticky` states this.
- **Preset name.** The name field is 16 bytes (copied into a 17-byte, NUL-terminated array), but `%s` prints it only up to its first NUL byte. `VisibleName` models what is printed.
- **Header word.** A message's first two bytes count its 32-bit words after the first. A 12-byte message therefore has header word 2; a 12-byte message whose header word is 8 declares 36 bytes and is not complete. `PresetSelectedExample` uses header word 2.
- **Hex digits.** `PadHex` is `%.<width>x` for the widths the code uses (4 and 2). For width 0 and the value 0 it gives `0`, where `printf` would print nothing; that case does not arise.

## Model

| member | source | states |
|---|---|---|
| Bytes.U16Le | hd500.c:184 | the fragment length word is `b0 + b1 * 256`, below 65536, and its low and high bytes are `b0` and `b1` |
| Bytes.U32Le | hd500.c:130 | a 32-bit word read through `msg32` is below 2^32 |
| Bytes.U32RoundTrip | hd500.c:130 | reading back the four little-endian bytes of a 32-bit value gives the value |
| Bytes.U32Encode | hd500.c:130 | the word at an offset determines the four bytes there: encoding it gives them back |
| Bytes.U32LeWindow | hd500.c:130 | a word read depends only on its four bytes |
| HexDump.DumpRows | hd500.c:104-112 | the reference dump has `ceil(size/16)` rows, each holding 1 to 16 bytes |
| HexDump.PrintBuf | hd500.c:104-112 | the nested loops give `ceil(size/16)` rows; row k has offset `start + 16k` and bytes `16k` up to `min(16k + 16, size)`, in order; the rows equal the reference `DumpRows` |
| HexDump.DumpRowsShape | hd500.c:106-111 | the reference dump has `ceil(size/16)` rows, row k at offset `start + 16k` with `min(16, size - 16k)` bytes; an empty buffer has no rows |
| HexDump.FlattenDumpRows | hd500.c:106-111 | every byte of the buffer appears exactly once across the rows, in order |
| HexDump.HexDigit | hd500.c:107-109 | every digit is a lower-case hexadecimal digit, and only zero gives `0` |
| HexDump.DigitValue | hd500.c:107-109 | the value of a hexadecimal digit is below 16 and its digit is that character: the inverse of `HexDigit` |
| HexDump.Hex | hd500.c:107-109 | `%x`: at least one hexadecimal digit, no leading zero for a nonzero value, one digit below 16 and at most two below 256 |
| HexDump.PadHex | hd500.c:107-109 | `%.<width>x`: hexadecimal digits only, as many as the larger of width and the digits of the value; exactly two for a byte at width 2 |
| HexDump.HexTextIff | hd500.c:107-109 | a text passes `HexText` exactly when every one of its characters is a hexadecimal digit |
| HexDump.PadHexParses | hd500.c:107 | `%.4lx` and `%.2x`: hexadecimal digits that read back as the value, at least width of them, zero-padded only up to width (a longer text starts with a nonzero digit) |
| HexDump.ParseHexOfHex | hd500.c:107 | the hex digits of a number read back as that number |
| HexDump.BytesText | hd500.c:108-109 | `" %.2x"` per byte is three characters per byte |
| HexDump.BytesTextLayout | hd500.c:108-109 | `" %.2x"` per byte: three characters per byte, a space then two hexadecimal digits reading back as the byte |
| HexDump.RowText | hd500.c:107-110 | a row's text is its offset label, then three characters per byte, plus the colon and the newline |
| HexDump.RowTextFrame | hd500.c:107-110 | a row's text starts with at least 4 hexadecimal digits that read back as the offset, zero-padded only up to 4, then a colon, and ends with a newline |
| HexDump.RowTextBytes | hd500.c:108-109 | after the colon, byte k of a row is a space and two hexadecimal digits reading back as that byte |
| Decoder.TagOf | hd500.c:139-162 | every case label is a 32-bit word whose low three bytes are `00 40 00` |
| Decoder.FieldsEnd | hd500.c:143-164 | the fields of every message type end between byte 8 and byte 24, at a word boundary |
| Decoder.TypeOfTag | hd500.c:139-169 | a tag maps to a message type exactly when it is one of the seven case labels, and then to the type with that tag |
| Decoder.Decode | hd500.c:128-169 | an unrecognized result carries the whole message; a recognized one comes from a message of at least 8 bytes whose tag at offset 4 is that event's tag |
| Decoder.DecodeUnrecognizedIff | hd500.c:135-168 | the decoder falls back to a dump exactly when the message is under 8 bytes, its tag is not one of the seven, or it is too short for the fields of its tag |
| Decoder.DecodeFields | hd500.c:143-164 | setlist and preset index are the word at 8, pedal the word at 16, tempo the word at 20, the name bytes 8..23, footswitch index the word at 12 and "enabled" exactly when the word at 16 is nonzero |
| Decoder.VisibleName | hd500.c:158-160 | the printed name is a prefix of the raw name with no NUL, ending at the first NUL or at the end |
| Decoder.VisibleNameBound | hd500.c:157-161 | a preset name is copied as exactly 16 bytes and its visible part is never longer than 16 |
| Decoder.Encode | hd500.c:139-165 | the canonical message of an event carries the event's tag at offset 4, is as long as its fields need and declares its own length in its header |
| Decoder.DecodeEncode | hd500.c:139-165 | decoding the canonical message of a well-formed event gives back the event |
| Decoder.FieldRoundTrip | hd500.c:144-164 | a word placed at a body offset is read back at 8 bytes further into the message |
| Reassembly.ExpectedSize | hd500.c:121 | the expected size is at least 4 and a multiple of 4 |
| Reassembly.MessageComplete | hd500.c:119-126 | a completed message is at least 4 bytes long and a whole number of 32-bit words |
| Reassembly.Accepted | hd500.c:184-185 | a fragment under 4 bytes is never accepted; an accepted one carries exactly as many payload bytes as its length word declares |
| Reassembly.Payload | hd500.c:192 | a fragment of at least 4 bytes is its 4-byte header followed by its payload |
| Reassembly.Step | hd500.c:183-199 | an empty read changes nothing; a read is bogus exactly when it is not empty and not accepted; an overflow is an accepted fragment whose payload does not fit; a pending read leaves the buffer grown by the payload, incomplete and within 8192 bytes; a complete read hands on exactly the grown buffer, which is a completed message; every outcome but no data and pending empties the buffer |
| Reassembly.StepBogus | hd500.c:184-189 | a non-empty fragment is bogus exactly when its length word is not `len - 4` (always so below 4 bytes); a bogus fragment empties the buffer whatever it held |
| Reassembly.StepAppends | hd500.c:192-198 | an accepted fragment appends exactly `frag[4..]`, growing the buffer by the declared length and keeping its earlier bytes; the buffer is emptied exactly when that completes the message and kept otherwise |
| Reassembly.StepPreservesIdle | hd500.c:183-199 | between reads the buffer never holds a completed message and never exceeds 8192 bytes |
| Reassembly.OvershootIsSticky | hd500.c:195-198 | once the buffer holds more than it declares, no accepted fragment completes it; it only grows or is dropped |
| Reassembly.Run | hd500.c:181-200 | a sequence of reads has one outcome per read |
| Reassembly.RunLast | hd500.c:181-199 | the last read of a sequence acts on the buffer the earlier reads leave, and its outcome follows theirs unchanged |
| Reassembly.RunPreservesIdle | hd500.c:181-200 | the idle invariant holds after any sequence of reads |
| Reassembly.RunConcat | hd500.c:181-200 | reading two sequences in a row is reading the second from where the first left the buffer |
| Reassembly.RunTwice | hd500.c:181-200 | the same reads fed twice from an empty buffer, when they leave it empty, give the same outcomes twice |
| Reassembly.PrefixNotComplete | hd500.c:119-126 | no proper prefix of a completed message is complete |
| Reassembly.RunPrefixPending | hd500.c:192-198 | accepted fragments read from an empty buffer whose payloads form a proper prefix of a completed message are all pending, and the buffer ends holding all their payloads in order |
| Reassembly.StepCompletes | hd500.c:192-197 | an accepted fragment whose payload completes the buffer within its capacity hands on exactly the grown buffer and empties it |
| Reassembly.ReassembleMessage | hd500.c:183-199 | a completed message cut into accepted fragments, the last not empty, is reported complete exactly once, after the last fragment, and the buffer is left empty |
| Reassembly.FragmentOf | hd500.c:184-185 | a payload behind a header holding its length is an accepted fragment carrying exactly that payload |
| Reassembly.AppendAsWritten | hd500.c:192-193 | the unguarded memcpy grows the buffer by the declared payload length, keeps its earlier bytes, puts the fragment's payload `buf + 4` right after them and puts no bound on the result |
| Reassembly.GuardAgreesWithinCapacity | hd500.c:192-198 | the capacity check discards a fragment exactly when the unguarded append would run past `msg[8192]`; otherwise the pending buffer or the completed message is exactly what the unguarded memcpy produces |
| Reassembly.AsWrittenOverruns | hd500.c:192-193 | without a capacity check, an idle buffer reached by one read plus one accepted fragment of at most 8192 bytes runs past `msg[8192]` |
| Reassembly.Reassembler.constructor | hd500.c:65-66 | the message buffer starts empty, with 8192 bytes of room |
| Reassembly.Reassembler.Reset | hd500.c:114-117 | `reset_message` empties the buffer |
| Reassembly.Reassembler.IsComplete | hd500.c:119-126 | reading `msg[0]` and `msg[1]` whatever the fill level, the result is exactly `MessageComplete` of the contents |
| Reassembly.Reassembler.HandleFragment | hd500.c:183-199 | one read changes the array contents and reports exactly as `Step` says, and keeps the idle invariant |
| Monitor.MessageReport | hd500.c:128-174 | a completed message is reported as its decoded event, or, when not recognized, as a dump that holds every byte of it in `ceil(size/16)` rows, row k labelled `16k` because the dump starts at offset 0 |
| Monitor.ReportOf | hd500.c:186-197 | a read prints nothing exactly when it read no data or left the message pending; a bogus or overflowing fragment is dumped whole; a completed message gets its own report |
| Monitor.PrintMessage | hd500.c:128-174 | the decoded event, or for an unrecognized message the dump of the whole message from offset 0 |
| Monitor.PrintOutcome | hd500.c:186-197 | what is printed for one read's outcome is exactly `ReportOf` of it |
| Monitor.ReadMessages | hd500.c:176-201 | the reads are handled in order, one report each, as `Run` says, and the buffer ends as `Run` leaves it |
| Monitor.BogusDumpsWholeFragment | hd500.c:186-188 | a bogus fragment is dumped in full from offset 0, once per byte, in `ceil(len/16)` rows |
| Monitor.MessageReportCases | hd500.c:135-173 | a completed message is dumped whole exactly when it is short, has an unknown tag or lacks its fields; otherwise its event is printed |
| Monitor.EncodedComplete | hd500.c:121-123 | the canonical message of an event is one the reassembler sees as complete, and fits the buffer |
| Monitor.SilentUntilLastFragment | hd500.c:183-199 | a completed message cut into accepted fragments, the last not empty, prints nothing before its last fragment, and the buffer is empty afterwards |
| Monitor.LastFragmentReports | hd500.c:195-197 | the last fragment of such a message prints exactly that message's report |
| Monitor.EventSurvivesFragmentation | hd500.c:176-201 | the canonical message of an event, fragmented in any way, prints exactly that event after its last fragment and nothing before |
| Monitor.PresetSelectedExample | hd500.c:146-148 | tag bytes `00 40 00 27` with 5 at offset 8 print as preset 5 |
| Monitor.ShortMessageExample | hd500.c:135-138 | a 4-byte all-zero message is complete and dumps as the single row `0000: 00 00 00 00` |
| Monitor.TwentyByteDumpExample | hd500.c:106-111 | a 20-byte dump has two rows, the second at offset 0x10 holding the last 4 bytes |

## Left out

- Command-line handling (`main`, `show_usage`, `show_version`, `long_opts`): option parsing, outside the core.
- Device discovery and lifecycle (`open_hwdep`, `init_hwdep`, `finish_hwdep`): ALSA calls.
- The reading itself: `snd_hwdep_read`, the `ret >= 0` retry of the do-while loop, the `poll` loop, and `sighandler`/`interrupted`. The reads are a sequence of fragments given to `ReadMessages`. A read error ends that sequence.
- The compiled-out `get_current_preset_idx` write path (`#if 0`).
- Floating point: pedal and tempo values are kept as the raw 32-bit word at their offset. Their float value and the `%f` text are not modelled.
- The text of the event lines (`"setlist: %d"` and the others, including `%d` printing a 32-bit word as signed). Events are reported as `Event` values. Only hex-dump rows are modelled down to their text.
- The line `Got bogus packet, dump:` is the `BogusPacket` report. The source has no line for an overflow, because it has no overflow check.
- The model's reads may be of any length. The source's reads are at most 8192 bytes. Every proved property holds for any length.

## Findings

| source | as written | input that shows it | evidently intended | confidence | as-written member | corrected member |
|---|---|---|---|---|---|---|
| hd500.c:192-193 | `memcpy(msg + msg_size, buf + 4, data_size)` with no check against the 8192 bytes of `msg` | a first fragment whose payload is `ff ff` followed by 4094 zero bytes (it declares 262144 bytes and stays pending at 4096), then an accepted fragment carrying 4100 zero bytes: `msg_size` would become 8196 | the message buffer is never written past its 8192 bytes | not executed | Reassembly.AsWrittenOverruns | Reassembly.StepPreservesIdle |
