/** The RISC-V crash-dump extractor. It scans a device log line by line. A marker
    line (`ERR:` with `EPC:`, or `WDT_RST:`) starts a capture. The following
    lines' hex words fill a 32-slot register buffer in place. Every finished
    capture pushes a copy of the buffer. */
module HardfaultTool {
  import opened Strings
  import opened Hex

  type u32 = x: int | 0 <= x < 0x1_0000_0000

  /** ABI names of the 32 integer registers, in register-number order. */
  const REG_NAME: seq<string> := [
    "zero", "ra", "sp", "gp", "tp", "t0", "t1", "t2", "s0", "s1", "a0", "a1", "a2", "a3", "a4",
    "a5", "a6", "a7", "s2", "s3", "s4", "s5", "s6", "s7", "s8", "s9", "s10", "s11", "t3", "t4",
    "t5", "t6"]

  const REG_COUNT: nat := 32

  const ERR_FLAG: string := "ERR:"
  const EPC_FLAG: string := "EPC:"
  const WDT_FLAG: string := "WDT_RST:"

  /** Written into the slots that a watchdog dump does not print. */
  const EMPTY_REG: string := "0xXXXXXXXX"

  /** Values of the scanner's `state` variable. */
  const IDLE: nat := 0
  const FULL: nat := 1
  const WATCHDOG: nat := 2
  const DONE: nat := 3

  /** A line ending with `index` at least this value completes a capture. */
  const FULL_END: nat := 32
  const WATCHDOG_END: nat := 19

  /** The file is split into lines at every '\r' and every '\n'. */
  const LINE_SEPS: set<char> := {'\r', '\n'}
  /** A line is split into words at every single space. */
  const WORD_SEPS: set<char> := {' '}

  /** One captured dump (`CPURegs`): the 32 register texts and the marker line. */
  datatype CpuRegs = CpuRegs(regs: seq<string>, header: string)

  /** `format!("{:#010X}", v)` for a `u32`: "0x" and then 8 upper-case digits. */
  function FormatReg(v: u32): string {
    "0x" + Pad(v, 8, true)
  }

  /** The formatted text has the "0x" prefix, and its digits read back as `v`. */
  lemma FormatRegRoundTrip(v: u32)
    ensures |FormatReg(v)| == 10 && FormatReg(v)[..2] == "0x"
    ensures forall k :: 2 <= k < 10 ==> IsHexOfCase(FormatReg(v)[k], true)
    ensures FromStrRadix16(FormatReg(v)[2..], U32_LIMIT) == Some(v)
  {
    Pow16Widths();
    assert FormatReg(v)[2..] == Pad(v, 8, true);
    PadDigits(v, 8, true);
    PadRoundTrip(v, 8, true, U32_LIMIT);
  }

  // ---------------------------------------------------------------------------
  // The scan as a specification

  /** The scanner's variables: the buffer's slots and header, `state`, `index`,
      and the dumps pushed so far. */
  datatype Scan = Scan(regs: seq<string>, header: string, state: nat, index: nat, found: seq<CpuRegs>)

  /** The scan goes on, or it indexed the buffer out of bounds and panicked. */
  datatype Progress = Running(scan: Scan) | IndexPanic

  /** The handling of one word that both capture modes share. An empty word is
      skipped. A word that parses as `u32` hex goes into slot `index`, which
      panics past the last slot. Any other word ends the capture. Both of the
      last two cases advance `index`. */
  function Store(s: Scan, word: string): Progress {
    if word == "" then Running(s)
    else match FromStrRadix16(word, U32_LIMIT)
      case Some(v) =>
        if s.index < |s.regs| then Running(s.(regs := s.regs[s.index := FormatReg(v)], index := s.index + 1))
        else IndexPanic
      case None => Running(s.(state := DONE, index := s.index + 1))
  }

  /** `regs` with slots `lo` up to `hi` (exclusive) set to the placeholder. */
  function Fill(regs: seq<string>, lo: nat, hi: nat): seq<string> {
    seq(|regs|, k requires 0 <= k < |regs| => if lo <= k < hi then EMPTY_REG else regs[k])
  }

  /** What a watchdog capture does before each word. At index 0, 2 and 18 it
      writes placeholders over the slots the dump does not print (0; 2 and 3;
      18 to 27) and steps over them. */
  function WatchdogFill(s: Scan): Scan {
    if s.index == 0 then s.(regs := Fill(s.regs, 0, 1), index := 1)
    else if s.index == 2 then s.(regs := Fill(s.regs, 2, 4), index := 4)
    else if s.index == 18 then s.(regs := Fill(s.regs, 18, 28), index := 28)
    else s
  }

  /** The words of one line read during a full capture. */
  function FullWords(s: Scan, words: seq<string>): Progress
    decreases |words|
  {
    if words == [] then Running(s)
    else match Store(s, words[0])
      case IndexPanic => IndexPanic
      case Running(t) => FullWords(t, words[1..])
  }

  /** The words of one line read during a watchdog capture. */
  function WatchdogWords(s: Scan, words: seq<string>): Progress
    decreases |words|
  {
    if words == [] then Running(s)
    else match Store(WatchdogFill(s), words[0])
      case IndexPanic => IndexPanic
      case Running(t) => WatchdogWords(t, words[1..])
  }

  /** End of a capture line: once `index` reaches `end`, the capture stops and a
      copy of the buffer is pushed. */
  function Complete(t: Scan, end: nat): Scan {
    if t.index >= end then t.(state := DONE, found := t.found + [CpuRegs(t.regs, t.header)]) else t
  }

  /** One line's words, read in the mode the line starts in. */
  function LineBody(s: Scan, line: string): Progress {
    var words := Split(line, WORD_SEPS);
    if s.state == FULL then
      match FullWords(s, words)
        case IndexPanic => IndexPanic
        case Running(t) => Running(Complete(t, FULL_END))
    else if s.state == WATCHDOG then
      match WatchdogWords(s, words)
        case IndexPanic => IndexPanic
        case Running(t) => Running(Complete(t, WATCHDOG_END))
    else Running(s)
  }

  /** The markers are tested after the words, the full-dump marker first. */
  function Markers(t: Scan, line: string): Scan {
    var t1 := if Contains(line, ERR_FLAG) && Contains(line, EPC_FLAG) then t.(header := line, state := FULL, index := 0) else t;
    if Contains(line, WDT_FLAG) then t1.(header := line, state := WATCHDOG, index := 0) else t1
  }

  function ScanLine(s: Scan, line: string): Progress {
    match LineBody(s, line)
      case IndexPanic => IndexPanic
      case Running(t) => Running(Markers(t, line))
  }

  function ScanLines(s: Scan, lines: seq<string>): Progress
    decreases |lines|
  {
    if lines == [] then Running(s)
    else match ScanLine(s, lines[0])
      case IndexPanic => IndexPanic
      case Running(t) => ScanLines(t, lines[1..])
  }

  /** `CPURegs::default()` with state 0 and index 0. */
  function Initial(): Scan {
    Scan(seq(REG_COUNT, _ => ""), "", IDLE, 0, [])
  }

  /** What `hardfault_tool` hands back: the pushed dumps, or nothing, because the
      worker thread panicked. */
  datatype Outcome = Dumps(dumps: seq<CpuRegs>) | Panicked

  /** `file` is the log's text, or None when the file cannot be opened. */
  function Hardfault(file: Option<string>): Outcome {
    match file
      case None => Dumps([])
      case Some(text) =>
        match ScanLines(Initial(), Split(text, LINE_SEPS))
          case IndexPanic => Panicked
          case Running(s) => Dumps(s.found)
  }

  lemma FullWordsAt(s: Scan, words: seq<string>, j: nat)
    requires j < |words|
    ensures FullWords(s, words[j..]) ==
      match Store(s, words[j])
        case IndexPanic => IndexPanic
        case Running(t) => FullWords(t, words[j + 1..])
  {
    assert words[j..][1..] == words[j + 1..];
  }

  lemma WatchdogWordsAt(s: Scan, words: seq<string>, j: nat)
    requires j < |words|
    ensures WatchdogWords(s, words[j..]) ==
      match Store(WatchdogFill(s), words[j])
        case IndexPanic => IndexPanic
        case Running(t) => WatchdogWords(t, words[j + 1..])
  {
    assert words[j..][1..] == words[j + 1..];
  }

  lemma ScanLinesAt(s: Scan, lines: seq<string>, i: nat)
    requires i < |lines|
    ensures ScanLines(s, lines[i..]) ==
      match ScanLine(s, lines[i])
        case IndexPanic => IndexPanic
        case Running(t) => ScanLines(t, lines[i + 1..])
  {
    assert lines[i..][1..] == lines[i + 1..];
  }

  // ---------------------------------------------------------------------------
  // The scan as the source writes it: loops over a buffer updated in place

  /** The `1 =>` arm: the words of `line` in a full capture. */
  method FullLine(regs: array<string>, line: string, state0: nat, index0: nat,
                  ghost header: string, ghost found: seq<CpuRegs>)
    returns (panicked: bool, state: nat, index: nat)
    modifies regs
    ensures FullWords(Scan(old(regs[..]), header, state0, index0, found), Split(line, WORD_SEPS)) ==
      if panicked then IndexPanic else Running(Scan(regs[..], header, state, index, found))
  {
    var words := Split(line, WORD_SEPS);
    state, index := state0, index0;
    ghost var goal := FullWords(Scan(regs[..], header, state, index, found), words);
    var j := 0;
    while j < |words|
      invariant j <= |words|
      invariant FullWords(Scan(regs[..], header, state, index, found), words[j..]) == goal
    {
      FullWordsAt(Scan(regs[..], header, state, index, found), words, j);
      var l := words[j];
      if |l| > 0 {
        var parsed := FromStrRadix16(l, U32_LIMIT);
        if parsed.Some? {
          if index >= regs.Length {
            return true, state, index;
          }
          regs[index] := FormatReg(parsed.value);
        } else {
          state := DONE;
        }
        index := index + 1;
      }
      j := j + 1;
    }
    return false, state, index;
  }

  /** The `while index < to` loops of a watchdog capture. */
  method FillPlaceholders(regs: array<string>, from: nat, to: nat) returns (index: nat)
    requires from <= to <= regs.Length
    modifies regs
    ensures index == to && regs[..] == Fill(old(regs[..]), from, to)
  {
    index := from;
    while index < to
      invariant from <= index <= to
      invariant regs[..] == Fill(old(regs[..]), from, index)
    {
      regs[index] := EMPTY_REG;
      index := index + 1;
    }
  }

  /** The `match index` that starts each word of a watchdog capture. */
  method PlaceholdersDue(regs: array<string>, index0: nat, ghost header: string, ghost state: nat, ghost found: seq<CpuRegs>)
    returns (index: nat)
    requires regs.Length == REG_COUNT
    modifies regs
    ensures Scan(regs[..], header, state, index, found) == WatchdogFill(Scan(old(regs[..]), header, state, index0, found))
  {
    index := index0;
    if index == 0 {
      regs[0] := EMPTY_REG;
      index := 1;
      assert regs[..] == Fill(old(regs[..]), 0, 1);
    } else if index == 2 {
      index := FillPlaceholders(regs, index, 4);
    } else if index == 18 {
      index := FillPlaceholders(regs, index, 28);
    }
  }

  /** The `2 =>` arm: the words of `line` in a watchdog capture. */
  method WatchdogLine(regs: array<string>, line: string, state0: nat, index0: nat,
                      ghost header: string, ghost found: seq<CpuRegs>)
    returns (panicked: bool, state: nat, index: nat)
    requires regs.Length == REG_COUNT
    modifies regs
    ensures WatchdogWords(Scan(old(regs[..]), header, state0, index0, found), Split(line, WORD_SEPS)) ==
      if panicked then IndexPanic else Running(Scan(regs[..], header, state, index, found))
  {
    var words := Split(line, WORD_SEPS);
    state, index := state0, index0;
    ghost var goal := WatchdogWords(Scan(regs[..], header, state, index, found), words);
    var j := 0;
    while j < |words|
      invariant j <= |words|
      invariant WatchdogWords(Scan(regs[..], header, state, index, found), words[j..]) == goal
    {
      WatchdogWordsAt(Scan(regs[..], header, state, index, found), words, j);
      index := PlaceholdersDue(regs, index, header, state, found);
      var l := words[j];
      if |l| > 0 {
        var parsed := FromStrRadix16(l, U32_LIMIT);
        if parsed.Some? {
          if index >= regs.Length {
            return true, state, index;
          }
          regs[index] := FormatReg(parsed.value);
        } else {
          state := DONE;
        }
        index := index + 1;
      }
      j := j + 1;
    }
    return false, state, index;
  }

  /** `hardfault_tool`: every dump found in the log, or a panic. */
  method HardfaultScan(file: Option<string>) returns (out: Outcome)
    ensures out == Hardfault(file)
  {
    if file.None? {
      return Dumps([]);
    }
    var regs := new string[REG_COUNT](_ => "");
    var header := "";
    var reg_vec: seq<CpuRegs> := [];
    var index: nat := 0;
    var state: nat := IDLE;
    var lines := Split(file.value, LINE_SEPS);
    assert regs[..] == Initial().regs;
    var i := 0;
    while i < |lines|
      invariant i <= |lines|
      invariant ScanLines(Scan(regs[..], header, state, index, reg_vec), lines[i..]) == ScanLines(Initial(), lines)
    {
      var line := lines[i];
      ghost var before := Scan(regs[..], header, state, index, reg_vec);
      ScanLinesAt(before, lines, i);
      if state == FULL {
        var panicked;
        panicked, state, index := FullLine(regs, line, state, index, header, reg_vec);
        if panicked {
          return Panicked;
        }
        if index >= FULL_END {
          state := DONE;
          reg_vec := reg_vec + [CpuRegs(regs[..], header)];
        }
      } else if state == WATCHDOG {
        var panicked;
        panicked, state, index := WatchdogLine(regs, line, state, index, header, reg_vec);
        if panicked {
          return Panicked;
        }
        if index >= WATCHDOG_END {
          state := DONE;
          reg_vec := reg_vec + [CpuRegs(regs[..], header)];
        }
      }
      if Contains(line, ERR_FLAG) && Contains(line, EPC_FLAG) {
        header := line;
        state := FULL;
        index := 0;
      }
      if Contains(line, WDT_FLAG) {
        header := line;
        state := WATCHDOG;
        index := 0;
      }
      i := i + 1;
    }
    return Dumps(reg_vec);
  }
  // ---------------------------------------------------------------------------
  // What one line's words may change

  /** `t` follows `s` within one line: header, pushed dumps and buffer size are
      unchanged, `index` only grows, `state` either stays or becomes 3, and every
      slot outside the ones just passed keeps its text. */
  predicate Kept(s: Scan, t: Scan) {
    t.header == s.header && t.found == s.found && |t.regs| == |s.regs|
    && s.index <= t.index && (t.state == s.state || t.state == DONE)
    && forall k :: 0 <= k < |s.regs| && !(s.index <= k < t.index) ==> t.regs[k] == s.regs[k]
  }

  lemma KeptTrans(a: Scan, b: Scan, c: Scan)
    requires Kept(a, b) && Kept(b, c)
    ensures Kept(a, c)
  {
  }

  lemma StoreKept(s: Scan, word: string)
    requires Store(s, word).Running?
    ensures Kept(s, Store(s, word).scan)
  {
  }

  lemma WatchdogFillKept(s: Scan)
    ensures Kept(s, WatchdogFill(s)) && WatchdogFill(s).state == s.state
  {
  }

  /** A full-capture line writes only the slots it steps over. */
  lemma {:induction false} FullWordsKept(s: Scan, words: seq<string>)
    requires FullWords(s, words).Running?
    ensures Kept(s, FullWords(s, words).scan)
    decreases |words|
  {
    if words != [] {
      StoreKept(s, words[0]);
      var t := Store(s, words[0]).scan;
      FullWordsKept(t, words[1..]);
      KeptTrans(s, t, FullWords(t, words[1..]).scan);
    }
  }

  /** A watchdog line, placeholders included, writes only the slots it steps over. */
  lemma {:induction false} WatchdogWordsKept(s: Scan, words: seq<string>)
    requires WatchdogWords(s, words).Running?
    ensures Kept(s, WatchdogWords(s, words).scan)
    decreases |words|
  {
    if words != [] {
      var f := WatchdogFill(s);
      WatchdogFillKept(s);
      StoreKept(f, words[0]);
      var t := Store(f, words[0]).scan;
      KeptTrans(s, f, t);
      WatchdogWordsKept(t, words[1..]);
      KeptTrans(s, t, WatchdogWords(t, words[1..]).scan);
    }
  }

  // ---------------------------------------------------------------------------
  // Dump lines made of register values

  /** A register value as a dump line prints it: 8 hex digits. */
  function Digits8(v: u32): string {
    Pad(v, 8, false)
  }

  /** The words of a line that prints `vs`. */
  function Words(vs: seq<u32>): seq<string> {
    seq(|vs|, k requires 0 <= k < |vs| => Digits8(vs[k]))
  }

  /** The register texts captured from `vs`. */
  function Registers(vs: seq<u32>): seq<string> {
    seq(|vs|, k requires 0 <= k < |vs| => FormatReg(vs[k]))
  }

  /** `regs` with the slots from `at` on replaced by `texts`. */
  function Stored(regs: seq<string>, at: nat, texts: seq<string>): seq<string> {
    seq(|regs|, k requires 0 <= k < |regs| => if at <= k < at + |texts| then texts[k - at] else regs[k])
  }

  lemma Digits8Parse(v: u32)
    ensures Digits8(v) != "" && FromStrRadix16(Digits8(v), U32_LIMIT) == Some(v)
    ensures ' ' !in Digits8(v) && ':' !in Digits8(v)
  {
    Pow16Widths();
    PadRoundTrip(v, 8, false, U32_LIMIT);
    PadDigits(v, 8, false);
    assert forall j :: 0 <= j < |Digits8(v)| ==> IsHexOfCase(Digits8(v)[j], false);
  }

  /** A spaced line of values splits back into their words and holds no colon. */
  lemma DumpLineWords(vs: seq<u32>)
    requires vs != []
    ensures Split(Join(Words(vs), ' '), WORD_SEPS) == Words(vs)
    ensures ':' !in Join(Words(vs), ' ')
  {
    forall k | 0 <= k < |Words(vs)|
      ensures ' ' !in Words(vs)[k] && ':' !in Words(vs)[k]
    {
      Digits8Parse(vs[k]);
    }
    JoinSplit(Words(vs), ' ');
    JoinAvoids(Words(vs), ' ', ':');
  }

  /** Without a colon a line carries none of the three markers. */
  lemma NoColonNoMarker(line: string)
    requires ':' !in line
    ensures !Contains(line, ERR_FLAG) && !Contains(line, EPC_FLAG) && !Contains(line, WDT_FLAG)
  {
    if Contains(line, ERR_FLAG) {
      ContainsChar(line, ERR_FLAG, 3);
    }
    if Contains(line, EPC_FLAG) {
      ContainsChar(line, EPC_FLAG, 3);
    }
    if Contains(line, WDT_FLAG) {
      ContainsChar(line, WDT_FLAG, 7);
    }
  }

  /** Word `w` is a `u32` in hex whose capture is the register text `text`. */
  predicate ReadsAs(w: string, text: string) {
    w != "" && FromStrRadix16(w, U32_LIMIT).Some? && FormatReg(FromStrRadix16(w, U32_LIMIT).value) == text
  }

  /** The first `|texts|` of `words` read as `texts`, one by one. */
  predicate AllReadAs(words: seq<string>, texts: seq<string>) {
    |texts| <= |words| && forall k {:trigger ReadsAs(words[k], texts[k])} :: 0 <= k < |texts| ==> ReadsAs(words[k], texts[k])
  }

  lemma WordsReadAs(vs: seq<u32>)
    ensures AllReadAs(Words(vs), Registers(vs))
  {
    forall k | 0 <= k < |vs|
      ensures ReadsAs(Words(vs)[k], Registers(vs)[k])
    {
      Digits8Parse(vs[k]);
    }
  }

  lemma AllReadAsTail(words: seq<string>, texts: seq<string>)
    requires AllReadAs(words, texts) && texts != []
    ensures ReadsAs(words[0], texts[0]) && AllReadAs(words[1..], texts[1..])
  {
    assert forall k :: 0 <= k < |texts| - 1 ==> words[1..][k] == words[k + 1] && texts[1..][k] == texts[k + 1];
  }

  lemma StoredStep(regs: seq<string>, at: nat, texts: seq<string>)
    requires at < |regs| && texts != []
    ensures Stored(regs[at := texts[0]], at + 1, texts[1..]) == Stored(regs, at, texts)
  {
    var a := Stored(regs[at := texts[0]], at + 1, texts[1..]);
    var b := Stored(regs, at, texts);
    forall k | 0 <= k < |regs|
      ensures a[k] == b[k]
    {
      if at + 1 <= k < at + |texts| {
        assert texts[1..][k - (at + 1)] == texts[k - at];
      }
    }
  }

  lemma StoredNone(regs: seq<string>, at: nat)
    ensures Stored(regs, at, []) == regs
  {
  }

  lemma StoreReads(s: Scan, w: string, text: string)
    requires ReadsAs(w, text) && s.index < |s.regs|
    ensures Store(s, w) == Running(s.(regs := s.regs[s.index := text], index := s.index + 1))
  {
  }

  /** While there is room, a full capture puts each value into the next slot. */
  lemma {:induction false} FullWordsStore(s: Scan, words: seq<string>, texts: seq<string>)
    requires AllReadAs(words, texts) && |words| == |texts| && s.index + |texts| <= |s.regs|
    ensures FullWords(s, words) == Running(s.(regs := Stored(s.regs, s.index, texts), index := s.index + |texts|))
    decreases |texts|
  {
    if texts == [] {
      StoredNone(s.regs, s.index);
    } else {
      assert AllReadAs(words[1..], texts[1..]);
      StoredStep(s.regs, s.index, texts);
      StoreReads(s, words[0], texts[0]);
      FullWordsStore(s.(regs := s.regs[s.index := texts[0]], index := s.index + 1), words[1..], texts[1..]);
    }
  }

  /** A value word past the last slot panics the scan. */
  lemma {:induction false} FullWordsOverflow(s: Scan, words: seq<string>, texts: seq<string>)
    requires AllReadAs(words, texts) && s.index <= |s.regs| < s.index + |texts|
    ensures FullWords(s, words) == IndexPanic
    decreases |texts|
  {
    if s.index < |s.regs| {
      assert AllReadAs(words[1..], texts[1..]);
      StoreReads(s, words[0], texts[0]);
      FullWordsOverflow(s.(regs := s.regs[s.index := texts[0]], index := s.index + 1), words[1..], texts[1..]);
    } else {
      assert ReadsAs(words[0], texts[0]);
    }
  }

  /** A line with none of the markers leaves the state where its words put it. */
  lemma ScanLineUnmarked(s: Scan, line: string)
    requires !Contains(line, ERR_FLAG) && !Contains(line, EPC_FLAG) && !Contains(line, WDT_FLAG)
    ensures ScanLine(s, line) == LineBody(s, line)
  {
  }

  /** Outside a capture, a line without a marker changes nothing: lines are
      ignored until the next marker line. */
  lemma IdleLineIgnored(s: Scan, line: string)
    requires s.state != FULL && s.state != WATCHDOG
    requires !Contains(line, WDT_FLAG) && !(Contains(line, ERR_FLAG) && Contains(line, EPC_FLAG))
    ensures ScanLine(s, line) == Running(s)
  {
  }

  /** The same for any run of lines without markers. */
  lemma {:induction false} IdleLinesIgnored(s: Scan, lines: seq<string>)
    requires s.state != FULL && s.state != WATCHDOG
    requires forall k :: 0 <= k < |lines| ==>
      !Contains(lines[k], WDT_FLAG) && !(Contains(lines[k], ERR_FLAG) && Contains(lines[k], EPC_FLAG))
    ensures ScanLines(s, lines) == Running(s)
    decreases |lines|
  {
    if lines != [] {
      IdleLineIgnored(s, lines[0]);
      assert forall k :: 0 <= k < |lines| - 1 ==> lines[1..][k] == lines[k + 1];
      IdleLinesIgnored(s, lines[1..]);
    }
  }

  /** What a word leaves in the slot it is read into: its formatted value when it
      parses, the slot's old text when it does not. */
  function Written(prev: string, word: string): string {
    match FromStrRadix16(word, U32_LIMIT)
      case Some(v) => FormatReg(v)
      case None => prev
  }

  /** One non-empty word in a full capture: it takes slot `index` when it parses
      and ends the capture when it does not; either way `index` advances. */
  lemma StoreWord(s: Scan, word: string)
    requires word != "" && Store(s, word).Running?
    ensures var r := Store(s, word).scan;
      r.index == s.index + 1 && r.header == s.header && r.found == s.found
      && r.regs == (if s.index < |s.regs| then s.regs[s.index := Written(s.regs[s.index], word)] else s.regs)
      && (r.state == DONE <==> s.state == DONE || FromStrRadix16(word, U32_LIMIT).None?)
      && (r.state != DONE ==> r.state == s.state)
  {
    if FromStrRadix16(word, U32_LIMIT).None? && s.index < |s.regs| {
      assert s.regs[s.index := s.regs[s.index]] == s.regs;
    }
  }

  /** The words of a line that `Store` does not skip, in order. */
  function NonEmpty(words: seq<string>): (r: seq<string>)
    ensures forall k :: 0 <= k < |r| ==> r[k] != ""
    ensures forall w :: w in r <==> w in words && w != ""
    decreases |words|
  {
    if words == [] then []
    else if words[0] == "" then NonEmpty(words[1..])
    else [words[0]] + NonEmpty(words[1..])
  }

  /** Empty words, which `split(' ')` yields for leading, trailing or doubled
      spaces, change nothing: a line is read as its non-empty words alone. */
  lemma {:induction false} FullWordsSkipsEmpty(s: Scan, words: seq<string>)
    ensures FullWords(s, words) == FullWords(s, NonEmpty(words))
    decreases |words|
  {
    if words != [] {
      var ws := NonEmpty(words);
      if words[0] == "" {
        FullWordsSkipsEmpty(s, words[1..]);
      } else {
        assert ws[0] == words[0] && ws[1..] == NonEmpty(words[1..]);
        match Store(s, words[0])
          case IndexPanic =>
          case Running(t) => FullWordsSkipsEmpty(t, words[1..]);
      }
    }
  }

  /** A full-capture line reads all of its non-empty words, also those after one
      that does not parse: `index` advances once per non-empty word, and the
      capture is ended exactly when some non-empty word does not parse. */
  lemma FullWordsCount(s: Scan, words: seq<string>)
    requires FullWords(s, words).Running?
    ensures var t := FullWords(s, words).scan; var ws := NonEmpty(words);
      t.index == s.index + |ws| && |t.regs| == |s.regs|
      && (t.state == DONE <==> s.state == DONE || exists k :: 0 <= k < |ws| && FromStrRadix16(ws[k], U32_LIMIT).None?)
      && (t.state != DONE ==> t.state == s.state)
  {
    FullWordsSkipsEmpty(s, words);
    DenseWordsCount(s, NonEmpty(words));
  }

  /** The same for a line with no empty word, by induction on its words. */
  lemma {:induction false} DenseWordsCount(s: Scan, words: seq<string>)
    requires forall k :: 0 <= k < |words| ==> words[k] != ""
    requires FullWords(s, words).Running?
    ensures var t := FullWords(s, words).scan;
      t.index == s.index + |words| && |t.regs| == |s.regs|
      && (t.state == DONE <==> s.state == DONE || exists k :: 0 <= k < |words| && FromStrRadix16(words[k], U32_LIMIT).None?)
      && (t.state != DONE ==> t.state == s.state)
    decreases |words|
  {
    if words != [] {
      var rest := words[1..];
      assert forall k :: 0 <= k < |rest| ==> rest[k] == words[k + 1];
      StoreWord(s, words[0]);
      var r := Store(s, words[0]).scan;
      DenseWordsCount(r, rest);
      assert FullWords(s, words) == FullWords(r, rest);
      if FromStrRadix16(words[0], U32_LIMIT).Some? && s.state != DONE && FullWords(r, rest).scan.state == DONE {
        var k :| 0 <= k < |rest| && FromStrRadix16(rest[k], U32_LIMIT).None?;
        assert FromStrRadix16(words[k + 1], U32_LIMIT).None?;
      }
    }
  }

  /** The buffer after `words` are read into consecutive slots from `at`: each
      word leaves in its slot what `Written` says, and a word past the last slot
      changes nothing. */
  function Slots(regs: seq<string>, at: nat, words: seq<string>): (r: seq<string>)
    ensures |r| == |regs|
    decreases |words|
  {
    if words == [] then regs
    else Slots(if at < |regs| then regs[at := Written(regs[at], words[0])] else regs, at + 1, words[1..])
  }

  /** Slots below `at` are not touched. */
  lemma {:induction false} SlotsBelow(regs: seq<string>, at: nat, words: seq<string>, j: nat)
    requires j < at && j < |regs|
    ensures Slots(regs, at, words)[j] == regs[j]
    decreases |words|
  {
    if words != [] {
      var next := if at < |regs| then regs[at := Written(regs[at], words[0])] else regs;
      SlotsBelow(next, at + 1, words[1..], j);
    }
  }

  /** Word `k` goes into slot `at + k`: its formatted value when it parses, the
      slot's old text when it does not. */
  lemma {:induction false} SlotsAt(regs: seq<string>, at: nat, words: seq<string>, k: nat)
    requires k < |words| && at + k < |regs|
    ensures Slots(regs, at, words)[at + k] == Written(regs[at + k], words[k])
    decreases k
  {
    var next := regs[at := Written(regs[at], words[0])];
    if k == 0 {
      SlotsBelow(next, at + 1, words[1..], at);
    } else {
      SlotsAt(next, at + 1, words[1..], k - 1);
      assert words[1..][k - 1] == words[k];
    }
  }

  /** A full-capture line reads every non-empty word into the next slot, also
      after a word that does not parse. */
  lemma FullWordsSlots(s: Scan, words: seq<string>)
    requires FullWords(s, words).Running?
    ensures FullWords(s, words).scan.regs == Slots(s.regs, s.index, NonEmpty(words))
  {
    FullWordsSkipsEmpty(s, words);
    DenseWordsSlots(s, NonEmpty(words));
  }

  /** The same for a line with no empty word, by induction on its words. */
  lemma {:induction false} DenseWordsSlots(s: Scan, words: seq<string>)
    requires forall k :: 0 <= k < |words| ==> words[k] != ""
    requires FullWords(s, words).Running?
    ensures FullWords(s, words).scan.regs == Slots(s.regs, s.index, words)
    decreases |words|
  {
    if words != [] {
      StoreWord(s, words[0]);
      var r := Store(s, words[0]).scan;
      FullWordsFirst(s, words);
      DenseWordsSlots(r, words[1..]);
    }
  }

  lemma FullWordsFirst(s: Scan, words: seq<string>)
    requires words != [] && Store(s, words[0]).Running?
    ensures FullWords(s, words) == FullWords(Store(s, words[0]).scan, words[1..])
  {
  }

  /** A full-capture line panics exactly when a non-empty word that parses
      would go past the last slot. */
  lemma FullWordsPanics(s: Scan, words: seq<string>)
    ensures var ws := NonEmpty(words);
      FullWords(s, words).IndexPanic? <==>
      exists k :: 0 <= k < |ws| && |s.regs| <= s.index + k && FromStrRadix16(ws[k], U32_LIMIT).Some?
  {
    FullWordsSkipsEmpty(s, words);
    DenseWordsPanics(s, NonEmpty(words));
  }

  /** The same for a line with no empty word, by induction on its words. */
  lemma {:induction false} DenseWordsPanics(s: Scan, words: seq<string>)
    requires forall k :: 0 <= k < |words| ==> words[k] != ""
    ensures FullWords(s, words).IndexPanic? <==>
      exists k :: 0 <= k < |words| && |s.regs| <= s.index + k && FromStrRadix16(words[k], U32_LIMIT).Some?
    decreases |words|
  {
    if words != [] {
      var rest := words[1..];
      assert forall k :: 0 <= k < |rest| ==> rest[k] == words[k + 1];
      if Store(s, words[0]).Running? {
        var r := Store(s, words[0]).scan;
        assert |r.regs| == |s.regs| && r.index == s.index + 1;
        DenseWordsPanics(r, rest);
        if FullWords(r, rest).IndexPanic? {
          var k :| 0 <= k < |rest| && |r.regs| <= r.index + k && FromStrRadix16(rest[k], U32_LIMIT).Some?;
          assert FromStrRadix16(words[k + 1], U32_LIMIT).Some?;
        }
      } else {
        assert FromStrRadix16(words[0], U32_LIMIT).Some?;
      }
    }
  }

  /** A line read in a capture pushes one dump, the buffer as its words leave
      it, exactly when those words bring `index` to 32 (full capture) or 19
      (watchdog capture), and the capture is then over (state 3); otherwise it
      pushes nothing. Outside a capture the words are not read at all. */
  lemma LineBodyPushes(s: Scan, line: string)
    requires LineBody(s, line).Running?
    ensures var words := Split(line, WORD_SEPS);
      var b := LineBody(s, line).scan;
      (|b.found| == |s.found| + 1 <==>
        (s.state == FULL && FullWords(s, words).scan.index >= FULL_END) ||
        (s.state == WATCHDOG && WatchdogWords(s, words).scan.index >= WATCHDOG_END))
      && (|b.found| == |s.found| + 1 ==> b.found == s.found + [CpuRegs(b.regs, b.header)])
      && (|b.found| == |s.found| + 1 ==> b.state == DONE)
      && (|b.found| != |s.found| + 1 ==> b.found == s.found)
      && (s.state != FULL && s.state != WATCHDOG ==> b == s)
  {
    var words := Split(line, WORD_SEPS);
    if s.state == FULL {
      FullWordsKept(s, words);
    } else if s.state == WATCHDOG {
      WatchdogWordsKept(s, words);
    }
  }

  lemma StoredAll(regs: seq<string>, texts: seq<string>)
    requires |regs| == |texts|
    ensures Stored(regs, 0, texts) == texts
  {
  }

  /** A line of 32 values after an `ERR:`/`EPC:` marker fills every slot in order
      and pushes the buffer, with the marker line as its header. */
  lemma FullCapture(s: Scan, vs: seq<u32>)
    requires s.state == FULL && s.index == 0 && |s.regs| == REG_COUNT && |vs| == REG_COUNT
    ensures ScanLine(s, Join(Words(vs), ' ')) ==
      Running(s.(regs := Registers(vs), state := DONE, index := REG_COUNT,
                 found := s.found + [CpuRegs(Registers(vs), s.header)]))
  {
    var line := Join(Words(vs), ' ');
    DumpLineWords(vs);
    NoColonNoMarker(line);
    ScanLineUnmarked(s, line);
    WordsReadAs(vs);
    FullWordsStore(s, Words(vs), Registers(vs));
    StoredAll(s.regs, Registers(vs));
  }

  /** A capture line with more values than slots panics the scan. */
  lemma FullOverflow(s: Scan, vs: seq<u32>)
    requires s.state == FULL && s.index == 0 && |s.regs| == REG_COUNT && |vs| > REG_COUNT
    ensures ScanLine(s, Join(Words(vs), ' ')) == IndexPanic
  {
    DumpLineWords(vs);
    WordsReadAs(vs);
    FullWordsOverflow(s, Words(vs), Registers(vs));
  }

  // ---------------------------------------------------------------------------
  // Watchdog dumps

  /** The scan after `text` went into slot `index`. */
  function Next(s: Scan, text: string): Scan
    requires s.index < |s.regs|
  {
    s.(regs := s.regs[s.index := text], index := s.index + 1)
  }

  /** The scan after `texts` went into consecutive slots from `index` on. */
  function Advanced(s: Scan, texts: seq<string>): Scan
    requires s.index + |texts| <= |s.regs|
  {
    s.(regs := Stored(s.regs, s.index, texts), index := s.index + |texts|)
  }

  lemma WatchdogPlainStep(s: Scan, words: seq<string>, text: string)
    requires words != [] && ReadsAs(words[0], text)
    requires 2 < s.index < 18 <= |s.regs|
    ensures WatchdogWords(s, words) == WatchdogWords(Next(s, text), words[1..])
  {
    assert WatchdogFill(s) == s;
    StoreReads(s, words[0], text);
  }

  lemma WatchdogPlainLink(s: Scan, words: seq<string>, texts: seq<string>)
    requires 0 < |texts| <= |words| && ReadsAs(words[0], texts[0])
    requires 2 < s.index && s.index + |texts| <= 18 <= |s.regs|
    requires WatchdogWords(Next(s, texts[0]), words[1..]) ==
      WatchdogWords(Advanced(Next(s, texts[0]), texts[1..]), words[1..][|texts[1..]|..])
    ensures WatchdogWords(s, words) == WatchdogWords(Advanced(s, texts), words[|texts|..])
  {
    WatchdogPlainStep(s, words, texts[0]);
    assert Advanced(Next(s, texts[0]), texts[1..]) == Advanced(s, texts) by {
      StoredStep(s.regs, s.index, texts);
    }
    assert words[1..][|texts[1..]|..] == words[|texts|..];
  }

  /** Between slots 3 and 18 a watchdog capture writes no placeholder, so each
      value goes into the next slot as in a full capture. */
  lemma {:induction false} WatchdogWordsPlain(s: Scan, words: seq<string>, texts: seq<string>)
    requires AllReadAs(words, texts)
    requires 2 < s.index && s.index + |texts| <= 18 <= |s.regs|
    ensures WatchdogWords(s, words) == WatchdogWords(Advanced(s, texts), words[|texts|..])
    decreases |texts|
  {
    if texts == [] {
      StoredNone(s.regs, s.index);
      assert words[0..] == words;
      assert Advanced(s, texts) == s;
    } else {
      AllReadAsTail(words, texts);
      WatchdogWordsPlain(Next(s, texts[0]), words[1..], texts[1..]);
      WatchdogPlainLink(s, words, texts);
    }
  }

  /** Where the 16 values of a watchdog dump land: the first in slot 1 (`ra`),
      the next fourteen in slots 4 to 17 (`tp` to `a7`), the last in slot 28
      (`t3`). The placeholder goes into slots 0, 2, 3 and 18 to 27. Slots 29 to 31
      keep what the buffer held before. */
  function WatchdogLayout(prev: seq<string>, texts: seq<string>): seq<string>
    requires |prev| == REG_COUNT && |texts| == 16
  {
    seq(REG_COUNT, k requires 0 <= k < REG_COUNT =>
      if k == 0 || k == 2 || k == 3 || 18 <= k < 28 then EMPTY_REG
      else if k == 1 then texts[0]
      else if k < 18 then texts[k - 3]
      else if k == 28 then texts[15]
      else prev[k])
  }

  lemma WatchdogSlots(prev: seq<string>, texts: seq<string>, r1: seq<string>, r2: seq<string>, r3: seq<string>, r4: seq<string>)
    requires |prev| == REG_COUNT && |texts| == 16
    requires r1 == Fill(prev, 0, 1)[1 := texts[0]]
    requires r2 == Fill(r1, 2, 4)[4 := texts[1]]
    requires r3 == Stored(r2, 5, texts[2..15])
    requires r4 == Fill(r3, 18, 28)[28 := texts[15]]
    ensures r4 == WatchdogLayout(prev, texts)
  {
    forall k | 0 <= k < REG_COUNT
      ensures r4[k] == WatchdogLayout(prev, texts)[k]
    {
      if 5 <= k < 18 {
        assert texts[2..15][k - 5] == texts[k - 3];
      }
    }
  }

  /** One value word of a watchdog capture: the placeholders due, then the value. */
  lemma WatchdogValue(s: Scan, words: seq<string>, j: nat, text: string, t: Scan)
    requires j < |words| && ReadsAs(words[j], text)
    requires WatchdogFill(s).index < |s.regs|
    requires t == WatchdogFill(s).(regs := WatchdogFill(s).regs[WatchdogFill(s).index := text],
                                   index := WatchdogFill(s).index + 1)
    ensures WatchdogWords(s, words[j..]) == WatchdogWords(t, words[j + 1..])
  {
    WatchdogWordsAt(s, words, j);
    StoreReads(WatchdogFill(s), words[j], text);
  }

  /** The 16 value words of a watchdog dump, read from slot 0 on. */
  lemma WatchdogWordsCapture(s: Scan, words: seq<string>, texts: seq<string>)
    requires AllReadAs(words, texts) && |words| == |texts| == 16
    requires s.index == 0 && |s.regs| == REG_COUNT
    ensures WatchdogWords(s, words) == Running(s.(regs := WatchdogLayout(s.regs, texts), index := 29))
  {
    assert words[2..][13..] == words[15..];
    assert words[16..] == [];
    assert words[0..] == words;
    assert AllReadAs(words[2..], texts[2..15]);
    assert ReadsAs(words[0], texts[0]) && ReadsAs(words[1], texts[1]) && ReadsAs(words[15], texts[15]);
    var r1 := Fill(s.regs, 0, 1)[1 := texts[0]];
    var s1 := s.(regs := r1, index := 2);
    WatchdogValue(s, words, 0, texts[0], s1);
    var r2 := Fill(r1, 2, 4)[4 := texts[1]];
    var s2 := s1.(regs := r2, index := 5);
    WatchdogValue(s1, words, 1, texts[1], s2);
    var r3 := Stored(r2, 5, texts[2..15]);
    var s3 := s2.(regs := r3, index := 18);
    WatchdogWordsPlain(s2, words[2..], texts[2..15]);
    var r4 := Fill(r3, 18, 28)[28 := texts[15]];
    var s4 := s3.(regs := r4, index := 29);
    WatchdogValue(s3, words, 15, texts[15], s4);
    WatchdogSlots(s.regs, texts, r1, r2, r3, r4);
  }

  /** A line of 16 values after a `WDT_RST:` marker fills the slots as
      `WatchdogLayout` says and pushes the buffer. */
  lemma WatchdogCapture(s: Scan, vs: seq<u32>)
    requires s.state == WATCHDOG && s.index == 0 && |s.regs| == REG_COUNT && |vs| == 16
    ensures ScanLine(s, Join(Words(vs), ' ')) ==
      Running(s.(regs := WatchdogLayout(s.regs, Registers(vs)), state := DONE, index := 29,
                 found := s.found + [CpuRegs(WatchdogLayout(s.regs, Registers(vs)), s.header)]))
  {
    DumpLineWords(vs);
    NoColonNoMarker(Join(Words(vs), ' '));
    WordsReadAs(vs);
    WatchdogWordsCapture(s, Words(vs), Registers(vs));
  }

  // ---------------------------------------------------------------------------
  // Markers, blank lines and line breaks

  /** The markers are read after the line's words, and the watchdog marker is
      read last: it wins over the full-dump marker on the same line. A line with
      no marker leaves the scan where its words put it. Markers touch neither
      the slots nor the pushed dumps. */
  lemma MarkersAfterBody(s: Scan, line: string)
    requires LineBody(s, line).Running?
    ensures var b := LineBody(s, line).scan;
      var t := ScanLine(s, line).scan;
      ScanLine(s, line).Running? && t.regs == b.regs && t.found == b.found
      && (Contains(line, WDT_FLAG) ==> t.header == line && t.state == WATCHDOG && t.index == 0)
      && (!Contains(line, WDT_FLAG) && Contains(line, ERR_FLAG) && Contains(line, EPC_FLAG) ==>
            t.header == line && t.state == FULL && t.index == 0)
      && (!Contains(line, WDT_FLAG) && !(Contains(line, ERR_FLAG) && Contains(line, EPC_FLAG)) ==> t == b)
  {
  }

  /** Neither marker of a full-dump marker line is hex: `:` is not a digit. */
  lemma NotHexWithColon(w: string)
    requires |w| == 4 && w[3] == ':'
    ensures FromStrRadix16(w, U32_LIMIT) == None
  {
    if FromStrRadix16(w, U32_LIMIT).Some? {
      ParsedTextChars(w, U32_LIMIT);
      assert false;
    }
  }

  lemma MarkerLineWords()
    ensures Split("ERR: EPC:", WORD_SEPS) == ["ERR:", "EPC:"]
  {
    var a, b := "ERR:", "EPC:";
    SplitFree(b, WORD_SEPS);
    SplitAtSep(a, ' ', b, WORD_SEPS);
    assert a + [' '] + b == "ERR: EPC:";
  }

  lemma MarkerLineFlags()
    ensures Contains("ERR: EPC:", ERR_FLAG) && Contains("ERR: EPC:", EPC_FLAG) && !Contains("ERR: EPC:", WDT_FLAG)
  {
    var line := "ERR: EPC:";
    assert StartsWith(line, ERR_FLAG);
    assert StartsWith(line[5..], EPC_FLAG);
    assert line[1..][1..][1..][1..][1..] == line[5..];
    assert 'W' !in line;
    if Contains(line, WDT_FLAG) {
      ContainsChar(line, WDT_FLAG, 0);
      assert false;
    }
  }

  /** A marker line is also a line of words: when it arrives one word short of a
      full dump, its first word (which is not hex) still takes the last index, so
      the dump is pushed before the new capture starts. */
  lemma MarkerLineCompletes(s: Scan)
    requires s.state == FULL && s.index == REG_COUNT - 1 && |s.regs| == REG_COUNT
    ensures ScanLine(s, "ERR: EPC:") ==
      Running(s.(header := "ERR: EPC:", state := FULL, index := 0, found := s.found + [CpuRegs(s.regs, s.header)]))
  {
    var line := "ERR: EPC:";
    var t2 := s.(state := DONE, index := s.index + 2);
    assert LineBody(s, line) == Running(Complete(t2, FULL_END)) by {
      var words := ["ERR:", "EPC:"];
      MarkerLineWords();
      NotHexWithColon(words[0]);
      NotHexWithColon(words[1]);
      var t1 := s.(state := DONE, index := s.index + 1);
      assert Store(s, words[0]) == Running(t1);
      assert Store(t1, words[1]) == Running(t2);
      assert words[1..][1..] == [];
    }
    assert Markers(Complete(t2, FULL_END), line) ==
      s.(header := line, state := FULL, index := 0, found := s.found + [CpuRegs(s.regs, s.header)]) by {
      MarkerLineFlags();
    }
  }

  /** A blank line in a full capture changes nothing. */
  lemma BlankLineFull(s: Scan)
    requires s.state == FULL && s.index < FULL_END
    ensures ScanLine(s, "") == Running(s)
  {
    assert Split("", WORD_SEPS) == [""];
    assert [""][1..] == [];
    assert FullWords(s, [""]) == Running(s);
  }

  /** A blank line in a watchdog capture still passes one (empty) word, so at
      index 0, 2 or 18 it writes the placeholders due; elsewhere it changes
      nothing. */
  lemma BlankLineWatchdog(s: Scan)
    requires s.state == WATCHDOG && s.index < WATCHDOG_END
    ensures s.index != 0 && s.index != 2 && s.index != 18 ==> ScanLine(s, "") == Running(s)
    ensures s.index == 0 || s.index == 2 ==> ScanLine(s, "") == Running(WatchdogFill(s))
    ensures s.index == 18 ==>
      ScanLine(s, "") == Running(WatchdogFill(s).(state := DONE, found := s.found + [CpuRegs(Fill(s.regs, 18, 28), s.header)]))
  {
    assert Split("", WORD_SEPS) == [""];
    assert [""][1..] == [];
    assert WatchdogWords(s, [""]) == Running(WatchdogFill(s));
  }

  /** A CRLF line break yields an empty line between the two lines. */
  lemma CrLfBlankLine(a: string, b: string)
    requires '\r' !in a && '\n' !in a && '\r' !in b && '\n' !in b
    ensures Split(a + "\r\n" + b, LINE_SEPS) == [a, "", b]
  {
    SplitFree(b, LINE_SEPS);
    SplitAtSep("", '\n', b, LINE_SEPS);
    SplitAtSep(a, '\r', "\n" + b, LINE_SEPS);
    assert a + "\r\n" + b == a + ['\r'] + ("\n" + b);
    assert "" + ['\n'] + b == "\n" + b;
  }

  /** With CRLF line breaks, a watchdog dump whose value line ends at index 18
      is cut short by the blank line that follows: slots 18 to 27 get the
      placeholder and the dump is pushed with 28 slots written. */
  lemma CrLfCutsWatchdog(s: Scan)
    requires s.state == WATCHDOG && s.index == 18 && |s.regs| == REG_COUNT
    ensures ScanLine(s, "").Running? && ScanLine(s, "").scan.state == DONE
    ensures ScanLine(s, "").scan.found == s.found + [CpuRegs(Fill(s.regs, 18, 28), s.header)]
  {
    BlankLineWatchdog(s);
  }

  // ---------------------------------------------------------------------------
  // What the pushed dumps look like

  /** A header that starts a capture. */
  predicate Flagged(h: string) {
    Contains(h, WDT_FLAG) || (Contains(h, ERR_FLAG) && Contains(h, EPC_FLAG))
  }

  /** Every pushed dump has 32 slots and a marker line as its header. */
  predicate WellFormed(d: CpuRegs) {
    |d.regs| == REG_COUNT && Flagged(d.header)
  }

  /** The scan's invariant: 32 slots, a marker header while capturing, and only
      well-formed dumps pushed. */
  predicate Sound(s: Scan) {
    |s.regs| == REG_COUNT && (s.state == FULL || s.state == WATCHDOG ==> Flagged(s.header))
    && forall k :: 0 <= k < |s.found| ==> WellFormed(s.found[k])
  }

  /** The words of a line keep the invariant, and push at most the one dump. */
  lemma LineBodySound(s: Scan, line: string)
    requires Sound(s) && LineBody(s, line).Running?
    ensures Sound(LineBody(s, line).scan)
    ensures s.found <= LineBody(s, line).scan.found
  {
    var words := Split(line, WORD_SEPS);
    if s.state == FULL {
      FullWordsKept(s, words);
    } else if s.state == WATCHDOG {
      WatchdogWordsKept(s, words);
    }
  }

  /** One line keeps the invariant, and the pushed dumps only grow. */
  lemma ScanLineSound(s: Scan, line: string)
    requires Sound(s) && ScanLine(s, line).Running?
    ensures Sound(ScanLine(s, line).scan)
    ensures s.found <= ScanLine(s, line).scan.found
  {
    LineBodySound(s, line);
    MarkersAfterBody(s, line);
  }

  lemma {:induction false} ScanLinesSound(s: Scan, lines: seq<string>)
    requires Sound(s) && ScanLines(s, lines).Running?
    ensures Sound(ScanLines(s, lines).scan)
    ensures s.found <= ScanLines(s, lines).scan.found
    decreases |lines|
  {
    if lines != [] {
      ScanLineSound(s, lines[0]);
      var t := ScanLine(s, lines[0]).scan;
      ScanLinesSound(t, lines[1..]);
    }
  }

  /** Every dump `hardfault_tool` returns has 32 slots and has as its header a
      line that holds `WDT_RST:`, or both `ERR:` and `EPC:`. */
  lemma HardfaultWellFormed(file: Option<string>)
    requires Hardfault(file).Dumps?
    ensures forall k :: 0 <= k < |Hardfault(file).dumps| ==> WellFormed(Hardfault(file).dumps[k])
  {
    if file.Some? {
      ScanLinesSound(Initial(), Split(file.value, LINE_SEPS));
    }
  }

  // ---------------------------------------------------------------------------
  // `CPURegs::display`

  /** One register as the listing writes it: its ABI name, a colon, the slot's
      text and a comma. */
  function Entry(i: nat, reg: string): string
    requires i < REG_COUNT
  {
    REG_NAME[i] + ": " + reg + ", "
  }

  function Entries(regs: seq<string>): (r: seq<string>)
    requires |regs| == REG_COUNT
    ensures |r| == REG_COUNT
  {
    seq(|regs|, i requires 0 <= i < |regs| => Entry(i, regs[i]))
  }

  /** The listing: the header line, then the entries with a newline before
      every fourth one after the first. */
  function DisplayText(c: CpuRegs): string
    requires |c.regs| == REG_COUNT
  {
    c.header + "\n" + Grouped(Entries(c.regs), 4)
  }

  /** The header line, then eight lines of four entries each joined by
      newlines, with no newline at the end. */
  lemma DisplayLayout(c: CpuRegs)
    requires |c.regs| == REG_COUNT
    ensures DisplayText(c) == c.header + "\n" + Lines(Entries(c.regs), 4)
    ensures |Entries(c.regs)| == REG_COUNT
    ensures forall i :: 0 <= i < REG_COUNT ==> Entries(c.regs)[i] == REG_NAME[i] + ": " + c.regs[i] + ", "
  {
    GroupedIsLines(Entries(c.regs), 4);
  }

  /** One turn of the listing loop: the newline due before entry `i`, then the
      entry, extend the listing of the entries before `i` by one. */
  method WriteEntry(ret: string, i: nat, reg: string, ghost head: string, ghost cells: seq<string>)
    returns (r: string)
    requires i < |cells| && i < REG_COUNT && cells[i] == Entry(i, reg)
    requires ret == head + Grouped(cells[..i], 4)
    ensures r == head + Grouped(cells[..i + 1], 4)
  {
    ghost var nl := Break(i, 4);
    assert Grouped(cells[..i + 1], 4) == Grouped(cells[..i], 4) + nl + cells[i] by {
      assert cells[..i + 1] == cells[..i] + [cells[i]];
      GroupedSnoc(cells[..i], cells[i], 4);
    }
    BreakMod(i, 4);
    r := ret;
    if i > 0 && i % 4 == 0 {
      r := r + "\n";
    }
    assert r == ret + nl;
    r := r + Entry(i, reg);
    Regroup(head, Grouped(cells[..i], 4), nl, cells[i]);
  }

  lemma Regroup(a: string, b: string, c: string, d: string)
    ensures a + b + c + d == a + (b + c + d)
  {
  }

  method Display(c: CpuRegs) returns (ret: string)
    requires |c.regs| == REG_COUNT
    ensures ret == DisplayText(c)
  {
    ghost var cells := Entries(c.regs);
    ret := c.header + "\n";
    for i := 0 to REG_COUNT
      invariant ret == c.header + "\n" + Grouped(cells[..i], 4)
    {
      ret := WriteEntry(ret, i, c.regs[i], c.header + "\n", cells);
    }
    assert cells[..REG_COUNT] == cells;
  }
}
