# worktool core in Dafny

This project models the three data-processing components of the `worktool` desktop utility, and proves properties of each model.

- **Logic-analyser trace decoders** (`logic_tool.dfy`, module `LogicTool`). A Kingst CSV export passes through a header gate: its first line must carry the protocol's column signature. Each later row is then handled in one of three ways:
  - it is skipped when it is the analyser's "idle state of the CLK line" error row;
  - otherwise its comma fields that contain `0x` are concatenated, every leading `0x` is stripped, and the rest is parsed as hex;
  - if that parse fails, the decoder panics.

  Four sinks consume the values:
  - raw SPI bytes (`.out`);
  - IIS samples as little-endian `u16` pairs;
  - a hex-dump text with 16 cells per line;
  - the Bluetrum voice-dump framer. It reads an 8-byte header, then the announced number of body bytes, and routes each body to `.out1`, `.out2` or `.out3` by frame type.

  Every decoder is a loop method proved equal to a specification function. The framer is also proved equal to an independent frame-by-frame reference (`Demux`).
- **RISC-V crash-dump extractor** (`hardfault_tool.dfy`, module `HardfaultTool`). A device log is scanned line by line, with lines split at every `\r` and every `\n`:
  - An `ERR:`+`EPC:` line starts a full 32-register capture.
  - A `WDT_RST:` line starts a watchdog capture of 16 printed words. The slots the dump does not print get the placeholder `0xXXXXXXXX`.
  - Hex words are written in place into a 32-slot `array<string>` as `0x` followed by 8 upper-case digits.
  - Every completed capture pushes a copy of the buffer.
  - `display` lays a dump out four registers per line.
- **SPI log-message assembler** (`analyze_tool.dfy`, module `AnalyzeTool`). It reads (time, MOSI-token) records and rebuilds text:
  - The token `NUL` becomes a space.
  - The token `LF ` ends a line. The trimmed line is emitted only when it contains `:`, stamped with the time of the first record since the last emitted message.
  - A filter keeps the messages whose type appears in a comma-separated type list. The type is the text before the first `:`.

  The timestamp is an opaque type parameter `T`, and its parser is a function parameter.

Two library modules model the Rust operations the components use:
- `Strings` covers `contains`, `split`, `trim`, `trim_start_matches`, `position` and the "newline every w cells" layout.
- `Hex` covers `from_str_radix(.., 16)` with the type's bound, and zero-padded hex formatting.

A Rust panic inside the core (an `unwrap` on a failed parse, an out-of-bounds array index) is modelled as its own result variant:
- `Run.Aborted` and `Run.HeaderPanicked` in `LogicTool`;
- `Progress.IndexPanic` and `Outcome.Panicked` in `HardfaultTool`.

## Model

| member | source | states |
|---|---|---|
| Hex.DigitValue | src/component/logic_tool.rs:191 | a hex digit of either case has a value below 16 |
| Hex.FromStrRadix16 | src/component/logic_tool.rs:215 | a parsed value always lies below the target type's limit |
| Hex.FromStrRadix16Meaning | src/component/logic_tool.rs:213-215 | parsing succeeds exactly on an optional '+' followed by at least one hex digit worth less than the type's limit, and yields that worth; so empty text, a lone sign, a '-', any other character and an overflow of `u8`/`u16`/`u32` all fail |
| Hex.FromStrRadix16Rejects | src/component/logic_tool.rs:215 | "+" and "-1" do not parse, and "100" overflows `u8` while "ff" parses to 255 and "12" to 0x12 |
| Hex.ParsedTextChars | src/component/hardfault_tool.rs:193 | text that parses is neither empty nor a lone '+', and is made only of hex digits apart from one leading '+' |
| Hex.HexDigit | src/component/logic_tool.rs:325 | a formatted digit reads back as its value |
| Hex.Pad | src/component/logic_tool.rs:325 | the zero-padded hex text has exactly the requested width |
| Hex.PadDigits | src/component/logic_tool.rs:325 | every character of the padded text is a hex digit of the requested case |
| Hex.PadRoundTrip | src/component/hardfault_tool.rs:194 | `from_str_radix` reads zero-padded hex text back as the value it formats, for every value of the type |
| Strings.ContainsIffOccurs | src/component/logic_tool.rs:162 | `contains` holds exactly when the pattern occurs at some position |
| Strings.Split | src/component/hardfault_tool.rs:185 | splitting always yields at least one piece |
| Strings.SplitCount | src/component/hardfault_tool.rs:185 | there is one more piece than separators, so "\r\n" leaves an empty line between its two characters |
| Strings.SplitPiecesFree | src/component/hardfault_tool.rs:189 | no piece of a split contains a separator |
| Strings.SplitJoin | src/component/logic_tool.rs:189 | joining the pieces back with the separator restores the text |
| Strings.JoinSplit | src/component/logic_tool.rs:189 | splitting a join of separator-free pieces gives back those pieces |
| Strings.SplitFirst | src/component/analyze_tool.rs:173 | the first piece of a split is the text before the first separator, or the whole text |
| Strings.FirstIndex | src/component/analyze_tool.rs:124-127 | `position` yields the first index holding the element, and the length when it is absent |
| Strings.TrimPrefixes | src/component/logic_tool.rs:190 | `trim_start_matches` with a string pattern; its meaning is stated by TrimPrefixesRepeat |
| Strings.TrimPrefixesRepeat | src/component/logic_tool.rs:190 | `trim_start_matches` removes some number of copies of the prefix and leaves text that does not start with it |
| Strings.TrimRepeated | src/component/logic_tool.rs:190 | any number of leading copies of the prefix are all removed, leaving exactly the text after them |
| Strings.Trim | src/component/analyze_tool.rs:149 | `str::trim` over Unicode whitespace; its meaning is stated by TrimSpan, TrimEnds and TrimKeeps |
| Strings.TrimSpan | src/component/analyze_tool.rs:149 | the trimmed text is a contiguous part of the text that contains every non-whitespace character |
| Strings.TrimEnds | src/component/analyze_tool.rs:149 | trimmed text neither starts nor ends with whitespace |
| Strings.TrimKeeps | src/component/analyze_tool.rs:149-150 | a non-whitespace character is in the trimmed text exactly when it is in the text |
| Strings.GroupedIsLines | src/component/hardfault_tool.rs:31-36 | writing a newline before every w-th cell lays the cells out in lines of w |
| LogicTool.Preproc | src/component/logic_tool.rs:157-168 | the lines after the first are handed on exactly when the first line is readable and holds the signature; an unreadable first line panics; an unopenable or empty file is rejected |
| LogicTool.HexFieldsKept | src/component/logic_tool.rs:213 | a field is kept exactly when it contains "0x", and at most all fields are kept |
| LogicTool.HexFieldsAppend | src/component/logic_tool.rs:213 | the filter works field by field, so the kept fields stay in their order |
| LogicTool.ClassifyRow | src/component/logic_tool.rs:207-215 | a row is skipped exactly when it is unreadable or holds the Kingst error text; a parsed value is below the type's limit |
| LogicTool.OverflowMalformed | src/component/logic_tool.rs:213-215 | a data row whose hex digits are worth the type's limit or more overflows and is malformed, so the decoder panics there |
| LogicTool.FirstMalformed | src/component/logic_tool.rs:215 | it is the index of the first row whose parse fails, or the row count |
| LogicTool.GatherIsPayloads | src/component/logic_tool.rs:206-218 | the values written are those of the data rows before the first malformed row, and the run aborts exactly when such a row exists |
| LogicTool.ExtractBelow | src/component/logic_tool.rs:215 | every extracted value fits the parsed type |
| LogicTool.OneValuePerDataRow | src/component/logic_tool.rs:206-217 | without a malformed row there is exactly one value per data row |
| LogicTool.SkippedRowIgnored | src/component/logic_tool.rs:207-211 | inserting an unreadable row or an error row anywhere leaves the output unchanged |
| LogicTool.FieldTextSingle | src/component/logic_tool.rs:213-214 | a row with a single "0x" field yields that field's digits |
| LogicTool.FieldTextRepeatedPrefix | src/component/logic_tool.rs:213-214 | a row whose single hex field repeats the "0x" prefix any number of times yields the same digits as with one prefix |
| LogicTool.RepeatedPrefixExample | src/component/logic_tool.rs:213-215 | the field `0x0x12` reads as the digits "12" and the value 0x12 |
| LogicTool.SingleHexFieldRow | src/component/logic_tool.rs:213-215 | such a row is parsed to the value of its hex digits |
| LogicTool.ProcSpiRaw | src/component/logic_tool.rs:200-220 | the raw SPI decoder's output and ending are those of `SpiRawOutput` |
| LogicTool.SpiRawOnePerRow | src/component/logic_tool.rs:206-217 | a complete raw decode writes one byte per data row, the row's value |
| LogicTool.LittleEndianLayout | src/component/logic_tool.rs:192 | each sample becomes two bytes, low byte first |
| LogicTool.LittleEndianRoundTrip | src/component/logic_tool.rs:192 | the little-endian pairs decode back to the samples |
| LogicTool.IisExample | src/component/logic_tool.rs:192 | 0x1234, 0xABCD are written as 34 12 CD AB |
| LogicTool.ProcIis | src/component/logic_tool.rs:174-196 | the IIS decoder's output and ending are those of `IisOutput` |
| LogicTool.IisTwoBytesPerSample | src/component/logic_tool.rs:182-193 | a complete IIS decode writes two bytes per data row, low byte first |
| LogicTool.HexDumpLayout | src/component/logic_tool.rs:322-325 | the dump is lines of 16 cells; each cell is two lower-case hex digits and a space, reading back as its byte |
| LogicTool.HexDumpSnoc | src/component/logic_tool.rs:322-325 | a byte adds its cell, preceded by a newline after every 16 cells |
| LogicTool.WriteCell | src/component/logic_tool.rs:322-326 | one loop step extends the dump by one byte |
| LogicTool.ProcSpiTxt | src/component/logic_tool.rs:304-330 | the hex-dump decoder's output and ending are those of `SpiTxtOutput` |
| LogicTool.ProcSpiBluetrum | src/component/logic_tool.rs:235-302 | the voice-dump decoder's three outputs and ending are those of `SpiBluetrumOutput` |
| LogicTool.ParseHeader | src/component/logic_tool.rs:267-273 | the body length is big-endian: its high byte is cached byte 5 and its low byte cached byte 6 |
| LogicTool.Feed | src/component/logic_tool.rs:262-297 | one byte through the framer; its meaning is stated by HeaderBytesCached, HeaderCompleted, BodyBytesRouted and FrameEnds |
| LogicTool.FeedAll | src/component/logic_tool.rs:249-300 | the framer over a byte sequence; its meaning is stated by FrameConsumed, FrameCut, FeedAllIsDemuxFrom and FramerIsDemux |
| LogicTool.HeaderBytesCached | src/component/logic_tool.rs:263-265 | fewer than 8 header bytes are only cached |
| LogicTool.HeaderCompleted | src/component/logic_tool.rs:264-273 | the 8th header byte switches to the body with the parsed header |
| LogicTool.RouteAppend | src/component/logic_tool.rs:278-289 | routing body bytes one at a time equals routing them together |
| LogicTool.BodyBytesRouted | src/component/logic_tool.rs:277-291 | body bytes before the last are routed to the frame type's stream and counted |
| LogicTool.CounterReachesLength | src/component/logic_tool.rs:291-292 | the wrapped `u16` counter meets the length after the announced number of bytes, 65536 for length 0 |
| LogicTool.FrameEnds | src/component/logic_tool.rs:291-296 | the last body byte returns the framer to the header phase with an empty cache |
| LogicTool.FrameEndsExample | src/component/logic_tool.rs:262-296 | a frame of type 0 and length 2 puts its two body bytes into `.out1` |
| LogicTool.FrameConsumed | src/component/logic_tool.rs:262-296 | a whole frame is consumed as header plus announced body |
| LogicTool.FrameCut | src/component/logic_tool.rs:277-291 | a frame cut short routes all of its remaining bytes |
| LogicTool.FeedAllIsDemuxFrom | src/component/logic_tool.rs:262-298 | from a frame boundary the framer adds exactly the reference demultiplexer's streams |
| LogicTool.FramerIsDemux | src/component/logic_tool.rs:249-300 | the framer's three outputs equal the frame-by-frame reference for every byte stream |
| LogicTool.OutputNeedsHeader | src/component/logic_tool.rs:157-168 | a decoder decodes exactly when the first line is readable and holds the signature |
| LogicTool.HeaderNotDecoded | src/component/logic_tool.rs:157-168 | the header line is never decoded: for each of the four decoders, any two header lines carrying its signature give the same output |
| LogicTool.ErrorRowNoEffect | src/component/logic_tool.rs:252-254 | an error row anywhere after the header changes no decoder's output |
| LogicTool.ProcSpi | src/component/logic_tool.rs:332-338 | the dispatch runs the decoder the conversion type names |
| HardfaultTool.FormatReg | src/component/hardfault_tool.rs:194 | `format!("{:#010X}", reg)`; its meaning is stated by FormatRegRoundTrip |
| HardfaultTool.FormatRegRoundTrip | src/component/hardfault_tool.rs:194 | a register text is "0x" and 8 upper-case digits that read back as the value |
| HardfaultTool.Store | src/component/hardfault_tool.rs:189-199 | the handling of one word shared by both capture modes; its meaning is stated by StoreWord and StoreKept |
| HardfaultTool.LineBody | src/component/hardfault_tool.rs:187-245 | one line's words in the mode the line starts in; its meaning is stated by LineBodyPushes |
| HardfaultTool.Complete | src/component/hardfault_tool.rs:201-204 | the end-of-line test that stops a capture and pushes the buffer; its meaning is stated by LineBodyPushes |
| HardfaultTool.ScanLine | src/component/hardfault_tool.rs:185-258 | one line: its words, then the markers; its meaning is stated by MarkersAfterBody, IdleLineIgnored and ScanLineSound |
| HardfaultTool.ScanLines | src/component/hardfault_tool.rs:185-259 | the loop over all lines; its meaning is stated by IdleLinesIgnored and ScanLinesSound |
| HardfaultTool.Hardfault | src/component/hardfault_tool.rs:162-263 | `hardfault_tool` on the log text; its meaning is stated by HardfaultWellFormed |
| HardfaultTool.FullLine | src/component/hardfault_tool.rs:189-200 | the in-place word loop of a full capture computes `FullWords` of the line's words, including the panic |
| HardfaultTool.FillPlaceholders | src/component/hardfault_tool.rs:214-223 | the fill loop writes the placeholder into the slots up to the bound and nothing else |
| HardfaultTool.PlaceholdersDue | src/component/hardfault_tool.rs:208-226 | the placeholders written before a watchdog word are those due at index 0, 2 and 18 |
| HardfaultTool.WatchdogLine | src/component/hardfault_tool.rs:207-238 | the in-place word loop of a watchdog capture computes `WatchdogWords`, including the panic |
| HardfaultTool.HardfaultScan | src/component/hardfault_tool.rs:162-263 | the scanner returns the dumps of `Hardfault`, or the panic |
| HardfaultTool.StoreKept | src/component/hardfault_tool.rs:193-199 | a word may change only the slot at `index`, and then only advances it |
| HardfaultTool.StoreWord | src/component/hardfault_tool.rs:189-199 | a non-empty word sets slot `index` to its formatted value when it parses, ends the capture (state 3) when it does not, and advances `index` either way |
| HardfaultTool.WatchdogFillKept | src/component/hardfault_tool.rs:208-226 | placeholders change only the slots they step over |
| HardfaultTool.FullWordsKept | src/component/hardfault_tool.rs:189-200 | a full-capture line changes only slots from `index` on, and never the header or the pushed dumps |
| HardfaultTool.WatchdogWordsKept | src/component/hardfault_tool.rs:207-238 | the same for a watchdog line |
| HardfaultTool.DumpLineWords | src/component/hardfault_tool.rs:189 | a line printing hex words splits back into those words and has no ':' |
| HardfaultTool.NoColonNoMarker | src/component/hardfault_tool.rs:247-258 | a line without ':' holds none of the three markers |
| HardfaultTool.FullWordsStore | src/component/hardfault_tool.rs:189-200 | words that parse fill consecutive slots from `index` with their formatted values |
| HardfaultTool.NonEmpty | src/component/hardfault_tool.rs:189-191 | the words `split(' ')` yields that are not empty, in order: none is empty and every non-empty word of the line is kept |
| HardfaultTool.FullWordsSkipsEmpty | src/component/hardfault_tool.rs:189-191 | the empty words of a line (leading, trailing or doubled spaces) change nothing: the line is read as its non-empty words |
| HardfaultTool.FullWordsCount | src/component/hardfault_tool.rs:189-200 | any full-capture line with n non-empty words advances `index` by n, also past words that do not parse; the capture is ended exactly when some non-empty word does not parse |
| HardfaultTool.SlotsAt | src/component/hardfault_tool.rs:193-199 | in the slot reference, word k lands in slot `index + k`: its formatted value when it parses, the old text when it does not |
| HardfaultTool.SlotsBelow | src/component/hardfault_tool.rs:193-199 | slots before the line's first index are not touched |
| HardfaultTool.FullWordsSlots | src/component/hardfault_tool.rs:189-200 | any full-capture line leaves the buffer as the slot reference says for its non-empty words |
| HardfaultTool.FullWordsPanics | src/component/hardfault_tool.rs:189-194 | any full-capture line panics exactly when one of its non-empty words parses and falls past the last slot |
| HardfaultTool.FullWordsOverflow | src/component/hardfault_tool.rs:194 | a parsed word past the 32nd slot panics |
| HardfaultTool.ScanLineUnmarked | src/component/hardfault_tool.rs:247-258 | a line without markers leaves capture state alone once its words are read |
| HardfaultTool.IdleLineIgnored | src/component/hardfault_tool.rs:187-258 | outside a capture, a line without a marker changes nothing |
| HardfaultTool.IdleLinesIgnored | src/component/hardfault_tool.rs:185-259 | lines are ignored until the next marker line |
| HardfaultTool.LineBodyPushes | src/component/hardfault_tool.rs:187-245 | a capture line pushes exactly one dump, the buffer its words leave, exactly when they bring `index` to 32 (full) or 19 (watchdog), after which the state is 3, and pushes nothing otherwise; outside a capture the words are not read |
| HardfaultTool.FullCapture | src/component/hardfault_tool.rs:188-204 | a 32-word line after a full marker fills the buffer and pushes the dump |
| HardfaultTool.FullOverflow | src/component/hardfault_tool.rs:189-199 | a full capture line of more than 32 words panics |
| HardfaultTool.WatchdogWordsPlain | src/component/hardfault_tool.rs:207-238 | between the placeholder slots parsed words fill consecutive slots |
| HardfaultTool.WatchdogSlots | src/component/hardfault_tool.rs:208-237 | the watchdog layout: slot 0 placeholder, words to 1, 4 to 17 and 28, placeholders 2, 3 and 18 to 27, slots 29 to 31 unchanged |
| HardfaultTool.WatchdogWordsCapture | src/component/hardfault_tool.rs:207-238 | 16 parsed words after a watchdog marker give that layout with `index` 29 |
| HardfaultTool.WatchdogCapture | src/component/hardfault_tool.rs:206-243 | a 16-word watchdog line fills the layout and pushes the dump |
| HardfaultTool.MarkersAfterBody | src/component/hardfault_tool.rs:247-258 | markers are tested after the words; `WDT_RST:` wins over `ERR:`+`EPC:`; either sets the header and restarts at index 0 |
| HardfaultTool.MarkerLineCompletes | src/component/hardfault_tool.rs:188-252 | a marker line at index 31 ends the capture as complete, pushes it, and starts a new one |
| HardfaultTool.BlankLineFull | src/component/hardfault_tool.rs:188-204 | an empty line changes nothing in a full capture |
| HardfaultTool.BlankLineWatchdog | src/component/hardfault_tool.rs:206-243 | an empty line in a watchdog capture writes the placeholders due, and at index 18 completes the capture |
| HardfaultTool.CrLfBlankLine | src/component/hardfault_tool.rs:185 | a "\r\n" line ending yields an extra empty line |
| HardfaultTool.CrLfCutsWatchdog | src/component/hardfault_tool.rs:185-243 | that empty line ends a watchdog capture at index 18 and pushes a truncated dump |
| HardfaultTool.ScanLineSound | src/component/hardfault_tool.rs:185-258 | one line keeps the scan's invariant and only appends to the pushed dumps |
| HardfaultTool.ScanLinesSound | src/component/hardfault_tool.rs:185-259 | the whole scan keeps the invariant and only appends dumps |
| HardfaultTool.HardfaultWellFormed | src/component/hardfault_tool.rs:162-263 | every returned dump has 32 slots and a marker line as header |
| HardfaultTool.DisplayText | src/component/hardfault_tool.rs:28-38 | the text `display` returns; its meaning is stated by DisplayLayout |
| HardfaultTool.DisplayLayout | src/component/hardfault_tool.rs:28-38 | the display is the header line, then the `name: value, ` entries in register order, four per line |
| HardfaultTool.WriteEntry | src/component/hardfault_tool.rs:31-36 | one loop step appends the next entry, after a newline before every fourth |
| HardfaultTool.Display | src/component/hardfault_tool.rs:28-38 | the display loop builds the display text |
| AnalyzeTool.ColumnsFound | src/component/analyze_tool.rs:123-131 | both columns must be present; a missing time column is reported first; each chosen index is the first column of that exact name |
| AnalyzeTool.ReadAllOk | src/component/analyze_tool.rs:134-139 | when every record reads, each has both fields, a time that parses, and gives that time and its MOSI token |
| AnalyzeTool.ReadAllErr | src/component/analyze_tool.rs:134-139 | a failure is the error of one record whose predecessors all read |
| AnalyzeTool.ReadAllStops | src/component/analyze_tool.rs:135-139 | a failing record fails the whole run the same way |
| AnalyzeTool.ProcessLogicData | src/component/analyze_tool.rs:112-169 | the record loop returns the messages of `LogMessages`, or its error |
| AnalyzeTool.Step | src/component/analyze_tool.rs:141-163 | the loop body on one record; its meaning is stated by StepText and StepLineFeed |
| AnalyzeTool.Feed | src/component/analyze_tool.rs:134-164 | the loop over the records; its meaning is stated by FeedWithoutLineFeed, LineMessage, TailDropped, FeedGrows and FeedEmitted |
| AnalyzeTool.LogMessages | src/component/analyze_tool.rs:112-169 | `process_logic_data`; its meaning is stated by ColumnsFound, ReadAllOk, ReadAllErr and LogMessagesEmitted |
| AnalyzeTool.StepText | src/component/analyze_tool.rs:141-162 | a token other than "LF " appends its text ("NUL" a space), emits nothing, and sets a missing start time |
| AnalyzeTool.FeedWithoutLineFeed | src/component/analyze_tool.rs:134-163 | records without a line feed append their texts, emit nothing, and take the start time from the first of them when none is held |
| AnalyzeTool.StepLineFeed | src/component/analyze_tool.rs:147-161 | "LF " clears the text; it emits the trimmed text exactly when the text holds a ':', stamped with the start time held, and releases it; otherwise the start time carries on |
| AnalyzeTool.LineMessage | src/component/analyze_tool.rs:141-161 | a whole line emits its trimmed text iff it holds a ':', stamped with the time of the line's first record unless an earlier one is held |
| AnalyzeTool.DiscardedLineCarries | src/component/analyze_tool.rs:141-158 | after a line without ':' is dropped, the next emitted message carries that dropped line's first time |
| AnalyzeTool.TailDropped | src/component/analyze_tool.rs:134-168 | records after the last line feed emit nothing |
| AnalyzeTool.FeedGrows | src/component/analyze_tool.rs:152-155 | messages are only appended, so they stay in input order |
| AnalyzeTool.FeedEmitted | src/component/analyze_tool.rs:147-158 | every emitted message holds a ':' and is trimmed |
| AnalyzeTool.LogMessagesEmitted | src/component/analyze_tool.rs:112-169 | every message returned holds a ':' and is trimmed |
| AnalyzeTool.ValidateMessageType | src/component/analyze_tool.rs:172-178 | `validate_message_type`; its meaning is stated by ValidateIffPrefix and ValidateTyped |
| AnalyzeTool.ValidateIffPrefix | src/component/analyze_tool.rs:172-178 | a message validates iff the text before its first ':' (all of it when there is none) is a listed type |
| AnalyzeTool.ValidateTyped | src/component/analyze_tool.rs:172-178 | "type:rest" validates exactly when that type is listed |
| AnalyzeTool.TypeSet | src/component/analyze_tool.rs:193 | the set of trimmed comma-separated types; its meaning is stated by TypeSetMembers and TypeSetOfList |
| AnalyzeTool.TypeSetMembers | src/component/analyze_tool.rs:193 | every listed type is trimmed and holds no comma |
| AnalyzeTool.TypeSetOfList | src/component/analyze_tool.rs:193 | a comma-joined list gives the set of its trimmed names |
| AnalyzeTool.Validated | src/component/analyze_tool.rs:200-203 | the filter over the messages; its meaning is stated by ValidatedAppend, ValidatedOne and ValidatedExactly |
| AnalyzeTool.ValidatedAppend | src/component/analyze_tool.rs:200-203 | the filter distributes over concatenation, so order is kept |
| AnalyzeTool.ValidatedOne | src/component/analyze_tool.rs:200-203 | one message is kept exactly when it validates |
| AnalyzeTool.ValidatedExactly | src/component/analyze_tool.rs:200-203 | a message is in the output exactly when it is in the input and validates |
| AnalyzeTool.Analyze | src/component/analyze_tool.rs:192-203 | `analyze_main` up to writing; its meaning is stated by AnalyzeOutput and ValidatedExactly |
| AnalyzeTool.AnalyzeOutput | src/component/analyze_tool.rs:192-203 | every message written holds a ':', is trimmed, and has a listed type |

## Left out

- The egui/eframe pages, preference storage, file-drop previews, and the thread and channel plumbing that runs each tool. These are rendering and concurrency, not the computation.
- File opening, creating, reading and writing. Inputs are modelled as line, text or record sequences; outputs as the byte or text sequences the files would hold. For a decoder, a file that cannot be opened is `Source.Unopenable`. For the crash-dump scanner, it is `None`.
- The crash-dump scanner's encoding detection and UTF-8 conversion (`convert_file_to_utf8`, `detect_encoding`), and the `read_to_end` and `String::from_utf8` unwraps. These depend on foreign crates and the file system; the log is taken as text.
- `println!` debug output, and the `hci_tool` process launcher and build script, which are not part of this model.
- LogicTool.ProcSpiBluetrum: the body counter `cnt` wraps as in a release build; a debug build would panic on the overflow instead.
- LogicTool.ParseHeader: `(b5 as u16) << 8 | (b6 as u16)` is written as `b5 * 256 + b6`. The two agree because the bytes occupy disjoint bits; no bit-vector lemma states it.
- LogicTool.ProcSpiTxt: the byte counter is an `i32` in the code and would overflow after 2^31 - 1 data rows; the model's counter is unbounded.
- The `csv` crate's tokenising and its record errors, in the log analyser. The header row and records are given as sequences of fields. The `flexible(true)` reader lets records have any length, so a short record reaches the per-field checks.
- The analyser's `f64` time parsing, which is the parameter `parse`, and the `{:.6}` formatting and writing in `write_output`.
- AnalyzeTool.Analyze: the `unwrap` panics of `analyze_main` are returned as the error value, and the output file is not written.
- `HashSet` is modelled as a mathematical `set`; its hashing and iteration order play no part in the result.

## Behaviour worth knowing

- `trim_start_matches("0x")` strips every leading `0x` of a row's hex text, so a field `0x0x12` reads as 0x12 (`Strings.TrimRepeated`, `LogicTool.FieldTextRepeatedPrefix`, `LogicTool.RepeatedPrefixExample`).
- A watchdog capture reuses the register buffer of the previous capture, so slots 29 to 31 keep the previous capture's values (`HardfaultTool.WatchdogSlots`).
