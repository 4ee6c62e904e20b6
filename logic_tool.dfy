/** The logic-analyser trace decoders: a header gate on the first line of a
    Kingst export, the per-row field extractor, and the four sinks (raw SPI bytes,
    IIS samples as little-endian pairs, a hex-dump text, and the Bluetrum
    voice-dump framer that splits a framed byte stream over three outputs). */
module LogicTool {
  import opened Strings
  import opened Hex

  type byte = x: int | 0 <= x < 0x100
  type u16 = x: int | 0 <= x < 0x1_0000

  /** A row that Kingst writes when it could not decode a sample. */
  const KINGST_ERROR_STR: string := "The initial (idle) state of the CLK line does not match the settings"
  /** The header line signatures of an IIS and an SPI export. */
  const KINGST_IIS_FILE_FORMAT: string := "Time [s],Channel,Value"
  const KINGST_SPI_FILE_FORMAT: string := "Time [s],Packet ID,MOSI,MISO"

  /** One item of the line iterator: a decoded line, or a read error such as
      invalid UTF-8. */
  datatype Line = Text(text: string) | Unreadable

  /** The trace file: it could not be opened, or it yields these lines. */
  datatype Source = Unopenable | Opened(lines: seq<Line>)

  // ---------------------------------------------------------------------------
  // Header gate

  /** What the gate leaves: the lines after an accepted header; no decoding at
      all; or a panic because the first line could not be read. */
  datatype Gate = Accepted(rows: seq<Line>) | Rejected | HeaderPanic

  function Preproc(src: Source, header: string): (g: Gate)
    ensures g.Accepted? <==> AcceptsHeader(src, header)
    ensures g.Accepted? ==> g.rows == src.lines[1..]
    ensures g.HeaderPanic? <==> src.Opened? && |src.lines| > 0 && src.lines[0].Unreadable?
  {
    if src.Unopenable? || src.lines == [] then Rejected
    else match src.lines[0]
      case Unreadable => HeaderPanic
      case Text(first) => if Contains(first, header) then Accepted(src.lines[1..]) else Rejected
  }

  /** The source has a readable first line that carries the signature. */
  predicate AcceptsHeader(src: Source, header: string) {
    src.Opened? && |src.lines| > 0 && src.lines[0].Text? && Contains(src.lines[0].text, header)
  }

  /** How a decoder run ends: without creating any output file; with a panic
      before creating one; after decoding every row; or with a panic part-way,
      the output holding what was written before it. */
  datatype Run<T> = Skipped | HeaderPanicked | Done(out: T) | Aborted(out: T)

  // ---------------------------------------------------------------------------
  // Field extractor

  /** The fields of a row that contain "0x", in order. */
  function HexFields(fields: seq<string>): seq<string> {
    if fields == [] then []
    else (if Contains(fields[0], "0x") then [fields[0]] else []) + HexFields(fields[1..])
  }

  /** `filter(|w| w.contains("0x"))`: a field is kept exactly when it contains
      "0x". */
  lemma {:induction false} HexFieldsKept(fields: seq<string>, x: string)
    ensures x in HexFields(fields) <==> x in fields && Contains(x, "0x")
    ensures |HexFields(fields)| <= |fields|
    decreases |fields|
  {
    if fields != [] {
      HexFieldsKept(fields[1..], x);
      assert fields == [fields[0]] + fields[1..];
    }
  }

  /** The filter works field by field, so kept fields stay in their order. */
  lemma {:induction false} HexFieldsAppend(a: seq<string>, b: seq<string>)
    ensures HexFields(a + b) == HexFields(a) + HexFields(b)
    decreases |a|
  {
    if a == [] {
      assert a + b == b;
    } else {
      HexFieldsAppend(a[1..], b);
      assert (a + b)[1..] == a[1..] + b;
    }
  }

  /** The text a data row hands to `from_str_radix`: the concatenation of its
      comma-separated fields that contain "0x", with every leading "0x" removed. */
  function FieldText(row: string): string {
    TrimPrefixes(Concat(HexFields(Split(row, {','}))), "0x")
  }

  /** A readable line without the error marker: a row the decoders parse. */
  predicate IsDataRow(row: Line) {
    row.Text? && !Contains(row.text, KINGST_ERROR_STR)
  }

  /** What one line means to a decoder that parses values below `limit`. */
  datatype RowValue = Skip | Value(v: nat) | Malformed

  function ClassifyRow(row: Line, limit: nat): (c: RowValue)
    ensures c.Skip? <==> !IsDataRow(row)
    ensures c.Value? ==> c.v < limit
  {
    if !IsDataRow(row) then Skip
    else match FromStrRadix16(FieldText(row.text), limit)
      case Some(v) => Value(v)
      case None => Malformed
  }

  /** A data row whose hex digits are worth `limit` or more overflows the type:
      `unwrap` panics, as on any other text that does not parse. */
  lemma OverflowMalformed(row: Line, limit: nat)
    requires IsDataRow(row)
    requires var d := Unsigned(FieldText(row.text)); DigitsValue(d).Some? && DigitsValue(d).value >= limit
    ensures ClassifyRow(row, limit) == Malformed
  {
    FromStrRadix16Meaning(FieldText(row.text), limit);
  }

  /** The per-line step every decoder repeats: skip an unreadable line or one
      carrying the error marker, else collect the "0x" fields, strip the prefixes
      and parse the digits. */
  method ReadRow(row: Line, limit: nat) returns (c: RowValue)
    ensures c == ClassifyRow(row, limit)
  {
    if row.Unreadable? {
      return Skip;
    }
    var line := row.text;
    if Contains(line, KINGST_ERROR_STR) {
      return Skip;
    }
    var data := Concat(HexFields(Split(line, {','})));
    var digits := TrimPrefixes(data, "0x");
    var parsed := FromStrRadix16(digits, limit);
    c := if parsed.Some? then Value(parsed.value) else Malformed;
  }

  /** What each line of the trace means to a decoder. */
  function Classify(rows: seq<Line>, limit: nat): (cs: seq<RowValue>)
    ensures |cs| == |rows|
    decreases |rows|
  {
    if rows == [] then [] else [ClassifyRow(rows[0], limit)] + Classify(rows[1..], limit)
  }

  /** Each line is classified on its own. */
  lemma {:induction false} ClassifyAt(rows: seq<Line>, k: nat, limit: nat)
    requires k < |rows|
    ensures Classify(rows, limit)[k] == ClassifyRow(rows[k], limit)
    decreases k
  {
    if k > 0 {
      ClassifyAt(rows[1..], k - 1, limit);
    }
  }

  /** The values of the data rows in order, up to the first row that does not
      parse; `malformed` records that such a row stopped the decoder. */
  datatype Extraction = Extraction(values: seq<nat>, malformed: bool)

  /** The row loop every decoder runs: skipped lines are passed over, a value is
      handed to the sink, a malformed row panics and ends the run. */
  function Gather(cs: seq<RowValue>): (e: Extraction)
    ensures |e.values| <= |cs|
    decreases |cs|
  {
    if cs == [] then Extraction([], false)
    else match cs[0]
      case Skip => Gather(cs[1..])
      case Malformed => Extraction([], true)
      case Value(v) =>
        var e := Gather(cs[1..]);
        Extraction([v] + e.values, e.malformed)
  }

  function Extract(rows: seq<Line>, limit: nat): Extraction {
    Gather(Classify(rows, limit))
  }

  /** Index of the first malformed row, or the number of rows when there is none. */
  function FirstMalformed(cs: seq<RowValue>): (n: nat)
    ensures n <= |cs|
    ensures forall k :: 0 <= k < n ==> !cs[k].Malformed?
    ensures n < |cs| ==> cs[n].Malformed?
    decreases |cs|
  {
    if cs == [] then 0 else if cs[0].Malformed? then 0 else 1 + FirstMalformed(cs[1..])
  }

  /** The values of the `Value` rows, in order. */
  function Payloads(cs: seq<RowValue>): seq<nat>
    decreases |cs|
  {
    if cs == [] then [] else (if cs[0].Value? then [cs[0].v] else []) + Payloads(cs[1..])
  }

  /** The row loop hands on exactly the values of the rows before the first
      malformed one, and it stops early precisely when there is such a row. */
  lemma {:induction false} GatherIsPayloads(cs: seq<RowValue>)
    ensures Gather(cs) == Extraction(Payloads(cs[..FirstMalformed(cs)]), FirstMalformed(cs) < |cs|)
    decreases |cs|
  {
    if cs != [] {
      var n := FirstMalformed(cs);
      GatherIsPayloads(cs[1..]);
      if !cs[0].Malformed? {
        assert cs[..n][0] == cs[0];
        assert cs[..n][1..] == cs[1..][..n - 1];
      }
    }
  }

  /** Every extracted value fits the type it was parsed into. */
  lemma {:induction false} GatherBelow(cs: seq<RowValue>, limit: nat)
    requires forall k :: 0 <= k < |cs| && cs[k].Value? ==> cs[k].v < limit
    ensures forall k :: 0 <= k < |Gather(cs).values| ==> Gather(cs).values[k] < limit
    decreases |cs|
  {
    if cs != [] {
      assert forall k :: 0 <= k < |cs| - 1 ==> cs[1..][k] == cs[k + 1];
      GatherBelow(cs[1..], limit);
    }
  }

  lemma ExtractBelow(rows: seq<Line>, limit: nat)
    ensures forall k :: 0 <= k < |Extract(rows, limit).values| ==> Extract(rows, limit).values[k] < limit
  {
    var cs := Classify(rows, limit);
    forall k | 0 <= k < |cs| && cs[k].Value?
      ensures cs[k].v < limit
    {
      ClassifyAt(rows, k, limit);
    }
    GatherBelow(cs, limit);
  }

  /** `e` with `done` already decoded in front of it. */
  function Prefixed(done: seq<nat>, e: Extraction): Extraction {
    Extraction(done + e.values, e.malformed)
  }

  /** One step of a decoder loop: the extraction from row `i` on, in terms of row
      `i` and the extraction after it. */
  lemma GatherAt(cs: seq<RowValue>, i: nat, done: seq<nat>)
    requires i < |cs|
    ensures cs[i].Skip? ==> Prefixed(done, Gather(cs[i..])) == Prefixed(done, Gather(cs[i + 1..]))
    ensures cs[i].Malformed? ==> Prefixed(done, Gather(cs[i..])) == Extraction(done, true)
    ensures cs[i].Value? ==> Prefixed(done, Gather(cs[i..])) == Prefixed(done + [cs[i].v], Gather(cs[i + 1..]))
  {
    assert cs[i..][0] == cs[i];
    assert cs[i..][1..] == cs[i + 1..];
    assert done + [] == done;
    if cs[i].Value? {
      var e := Gather(cs[i + 1..]);
      assert done + ([cs[i].v] + e.values) == done + [cs[i].v] + e.values;
    }
  }

  /** Number of lines a decoder parses: readable ones without the error marker. */
  function CountDataRows(rows: seq<Line>): nat
    decreases |rows|
  {
    if rows == [] then 0 else (if IsDataRow(rows[0]) then 1 else 0) + CountDataRows(rows[1..])
  }

  /** When no row is malformed, there is one value per data row. */
  lemma {:induction false} OneValuePerDataRow(rows: seq<Line>, limit: nat)
    requires FirstMalformed(Classify(rows, limit)) == |rows|
    ensures |Payloads(Classify(rows, limit))| == CountDataRows(rows)
    decreases |rows|
  {
    if rows != [] {
      OneValuePerDataRow(rows[1..], limit);
    }
  }

  /** A line that is skipped neither yields a value nor disturbs what the lines
      around it yield. */
  lemma {:induction false} GatherSkip(before: seq<RowValue>, after: seq<RowValue>)
    ensures Gather(before + [Skip] + after) == Gather(before + after)
    decreases |before|
  {
    if before == [] {
      assert before + [Skip] + after == [Skip] + after;
      assert ([Skip] + after)[1..] == after;
      assert before + after == after;
    } else {
      assert (before + [Skip] + after)[1..] == before[1..] + [Skip] + after;
      assert (before + after)[1..] == before[1..] + after;
      GatherSkip(before[1..], after);
    }
  }

  /** Lines are classified one by one, independently of their neighbours. */
  lemma {:induction false} ClassifyAppend(a: seq<Line>, b: seq<Line>, limit: nat)
    ensures Classify(a + b, limit) == Classify(a, limit) + Classify(b, limit)
    decreases |a|
  {
    if a == [] {
      assert a + b == b;
    } else {
      assert (a + b)[0] == a[0];
      assert (a + b)[1..] == a[1..] + b;
      ClassifyAppend(a[1..], b, limit);
    }
  }

  lemma ClassifySkipped(row: Line, limit: nat)
    requires !IsDataRow(row)
    ensures Classify([row], limit) == [Skip]
  {
    assert [row][1..] == [];
  }

  lemma SkippedRowIgnored(before: seq<Line>, row: Line, after: seq<Line>, limit: nat)
    requires row.Unreadable? || Contains(row.text, KINGST_ERROR_STR)
    ensures Extract(before + [row] + after, limit) == Extract(before + after, limit)
  {
    ClassifyAppend(before + [row], after, limit);
    ClassifyAppend(before, [row], limit);
    ClassifyAppend(before, after, limit);
    ClassifySkipped(row, limit);
    GatherSkip(Classify(before, limit), Classify(after, limit));
  }

  lemma {:induction false} HexFieldsSingle(fields: seq<string>, k: nat)
    requires k < |fields| && Contains(fields[k], "0x")
    requires forall j :: 0 <= j < |fields| && j != k ==> !Contains(fields[j], "0x")
    ensures HexFields(fields) == [fields[k]]
    decreases |fields|
  {
    if k == 0 {
      HexFieldsNone(fields[1..]);
    } else {
      HexFieldsSingle(fields[1..], k - 1);
    }
  }

  lemma {:induction false} HexFieldsNone(fields: seq<string>)
    requires forall j :: 0 <= j < |fields| ==> !Contains(fields[j], "0x")
    ensures HexFields(fields) == []
    decreases |fields|
  {
    if fields != [] {
      HexFieldsNone(fields[1..]);
    }
  }

  lemma ConcatSingle(x: string)
    ensures Concat([x]) == x
  {
    assert [x][..0] == [];
  }

  lemma TrimOnePrefix(digits: string)
    requires !StartsWith(digits, "0x")
    ensures TrimPrefixes("0x" + digits, "0x") == digits
  {
    var f := "0x" + digits;
    assert StartsWith(f, "0x");
    assert f[2..] == digits;
  }

  /** The text handed to the parser from a row with exactly one "0x" field. */
  lemma FieldTextSingle(fields: seq<string>, k: nat, digits: string)
    requires k < |fields| && fields[k] == "0x" + digits
    requires forall i :: 0 <= i < |fields| ==> ',' !in fields[i]
    requires forall j :: 0 <= j < |fields| && j != k ==> !Contains(fields[j], "0x")
    requires !StartsWith(digits, "0x")
    ensures FieldText(Join(fields, ',')) == digits
  {
    JoinSplit(fields, ',');
    assert Contains(fields[k], "0x") by { assert StartsWith(fields[k], "0x"); }
    HexFieldsSingle(fields, k);
    ConcatSingle(fields[k]);
    TrimOnePrefix(digits);
  }

  /** `trim_start_matches` strips every leading "0x" of the hex field, not just
      one: a field with the prefix repeated `n` times yields the same digits as
      a field with it once. */
  lemma FieldTextRepeatedPrefix(fields: seq<string>, k: nat, n: nat, digits: string)
    requires k < |fields| && n > 0 && fields[k] == Repeat("0x", n) + digits
    requires forall i :: 0 <= i < |fields| ==> ',' !in fields[i]
    requires forall j :: 0 <= j < |fields| && j != k ==> !Contains(fields[j], "0x")
    requires !StartsWith(digits, "0x")
    ensures FieldText(Join(fields, ',')) == digits
  {
    JoinSplit(fields, ',');
    assert Contains(fields[k], "0x") by { RepeatStarts("0x", n, digits); }
    HexFieldsSingle(fields, k);
    ConcatSingle(fields[k]);
    TrimRepeated("0x", n, digits);
  }

  /** The field `0x0x12` reads as the value 0x12. */
  lemma RepeatedPrefixExample()
    ensures FieldText("0x0x12") == "12"
    ensures ClassifyRow(Text("0x0x12"), U8_LIMIT) == Value(0x12)
  {
    assert Repeat("0x", 2) + "12" == "0x0x12" by {
      assert Repeat("0x", 2) == "0x" + ("0x" + "");
    }
    assert ',' !in "0x0x12";
    assert !StartsWith("12", "0x") by { assert "12"[0] != "0x"[0]; }
    FieldTextRepeatedPrefix(["0x0x12"], 0, 2, "12");
    assert Join(["0x0x12"], ',') == "0x0x12";
    ContainsLonger("0x0x12", KINGST_ERROR_STR);
    FromStrRadix16Rejects();
  }

  /** A Kingst data row in the expected shape, one field "0x" followed by the
      digits of the value and no other field containing "0x", yields that value. */
  lemma SingleHexFieldRow(fields: seq<string>, k: nat, digits: string, limit: nat)
    requires k < |fields| && fields[k] == "0x" + digits
    requires forall i :: 0 <= i < |fields| ==> ',' !in fields[i]
    requires forall j :: 0 <= j < |fields| && j != k ==> !Contains(fields[j], "0x")
    requires !StartsWith(digits, "0x") && FromStrRadix16(digits, limit).Some?
    requires !Contains(Join(fields, ','), KINGST_ERROR_STR)
    ensures ClassifyRow(Text(Join(fields, ',')), limit) == Value(FromStrRadix16(digits, limit).value)
  {
    FieldTextSingle(fields, k, digits);
  }

  // ---------------------------------------------------------------------------
  // Raw SPI sink

  function Conclude<T>(e: Extraction, out: T): Run<T> {
    if e.malformed then Aborted(out) else Done(out)
  }

  /** The `.out` file of a raw SPI decode: one byte per data row. */
  function SpiRawOutput(src: Source): Run<seq<byte>> {
    match Preproc(src, KINGST_SPI_FILE_FORMAT)
    case Rejected => Skipped
    case HeaderPanic => HeaderPanicked
    case Accepted(rows) =>
      ExtractBelow(rows, U8_LIMIT);
      var e := Extract(rows, U8_LIMIT);
      var out: seq<byte> := e.values;
      Conclude(e, out)
  }

  method ProcSpiRaw(src: Source) returns (r: Run<seq<byte>>)
    ensures r == SpiRawOutput(src)
  {
    var gate := Preproc(src, KINGST_SPI_FILE_FORMAT);
    if !gate.Accepted? {
      return if gate.Rejected? then Skipped else HeaderPanicked;
    }
    var rows := gate.rows;
    ghost var cs := Classify(rows, U8_LIMIT);
    ghost var ext := Extract(rows, U8_LIMIT);
    var out: seq<byte> := [];
    var i := 0;
    while i < |rows|
      invariant i <= |rows|
      invariant ext == Prefixed(out, Gather(cs[i..]))
    {
      var c := ReadRow(rows[i], U8_LIMIT);
      ClassifyAt(rows, i, U8_LIMIT);
      GatherAt(cs, i, out);
      match c {
        case Skip =>
        case Malformed =>
          return Aborted(out);
        case Value(data) =>
          var b: byte := data;
          out := out + [b];
      }
      i := i + 1;
    }
    assert out + [] == out;
    return Done(out);
  }

  /** A raw decode that runs to the end writes one byte per data row: the values
      of the rows, in row order. */
  lemma SpiRawOnePerRow(src: Source)
    requires SpiRawOutput(src).Done?
    ensures SpiRawOutput(src).out == Payloads(Classify(src.lines[1..], U8_LIMIT))
    ensures |SpiRawOutput(src).out| == CountDataRows(src.lines[1..])
  {
    var cs := Classify(src.lines[1..], U8_LIMIT);
    GatherIsPayloads(cs);
    assert cs[..|cs|] == cs;
    OneValuePerDataRow(src.lines[1..], U8_LIMIT);
  }

  // ---------------------------------------------------------------------------
  // IIS sink

  /** Each 16-bit sample as its two bytes, low byte first (`u16::to_le_bytes`). */
  function LittleEndian(vs: seq<u16>): (out: seq<byte>)
    decreases |vs|
  {
    if vs == [] then [] else [vs[0] % 0x100, vs[0] / 0x100] + LittleEndian(vs[1..])
  }

  /** Reads a little-endian byte stream back into 16-bit samples. */
  function FromLittleEndian(bs: seq<byte>): seq<u16>
    decreases |bs|
  {
    if |bs| < 2 then [] else [bs[0] as nat + 0x100 * bs[1] as nat] + FromLittleEndian(bs[2..])
  }

  /** Writing one more sample appends its two bytes: the loop's step. */
  lemma {:induction false} LittleEndianSnoc(vs: seq<u16>, v: u16)
    ensures LittleEndian(vs + [v]) == LittleEndian(vs) + [v % 0x100, v / 0x100]
    decreases |vs|
  {
    if vs == [] {
      assert vs + [v] == [v];
      assert [v][1..] == [];
    } else {
      assert (vs + [v])[1..] == vs[1..] + [v];
      LittleEndianSnoc(vs[1..], v);
      var a, b := [vs[0] % 0x100, vs[0] / 0x100], LittleEndian(vs[1..]);
      assert a + (b + [v % 0x100, v / 0x100]) == a + b + [v % 0x100, v / 0x100];
    }
  }

  lemma {:induction false} LittleEndianLayout(vs: seq<u16>)
    ensures |LittleEndian(vs)| == 2 * |vs|
    ensures forall k :: 0 <= k < |vs| ==>
      LittleEndian(vs)[2 * k] == vs[k] % 0x100 && LittleEndian(vs)[2 * k + 1] == vs[k] / 0x100
    decreases |vs|
  {
    if vs != [] {
      LittleEndianLayout(vs[1..]);
      var bs := LittleEndian(vs);
      forall k | 1 <= k < |vs|
        ensures bs[2 * k] == vs[k] % 0x100 && bs[2 * k + 1] == vs[k] / 0x100
      {
        assert vs[1..][k - 1] == vs[k];
        assert 2 * k == 2 + 2 * (k - 1);
      }
    }
  }

  /** Reading the bytes back gives the samples. */
  lemma {:induction false} LittleEndianRoundTrip(vs: seq<u16>)
    ensures FromLittleEndian(LittleEndian(vs)) == vs
    decreases |vs|
  {
    if vs != [] {
      var bs := LittleEndian(vs);
      assert bs[2..] == LittleEndian(vs[1..]);
      LittleEndianRoundTrip(vs[1..]);
      assert bs[0] as nat + 0x100 * bs[1] as nat == vs[0];
      assert [vs[0]] + vs[1..] == vs;
    }
  }

  lemma IisExample()
    ensures LittleEndian([0x1234, 0xABCD]) == [0x34, 0x12, 0xCD, 0xAB]
  {
    assert [0x1234, 0xABCD][1..] == [0xABCD];
    assert [0xABCD][1..] == [];
  }

  /** The `.out` file of an IIS decode: every 16-bit sample as two bytes. */
  function IisOutput(src: Source): Run<seq<byte>> {
    match Preproc(src, KINGST_IIS_FILE_FORMAT)
    case Rejected => Skipped
    case HeaderPanic => HeaderPanicked
    case Accepted(rows) =>
      ExtractBelow(rows, U16_LIMIT);
      var e := Extract(rows, U16_LIMIT);
      var samples: seq<u16> := e.values;
      Conclude(e, LittleEndian(samples))
  }

  method ProcIis(src: Source) returns (r: Run<seq<byte>>)
    ensures r == IisOutput(src)
  {
    var gate := Preproc(src, KINGST_IIS_FILE_FORMAT);
    if !gate.Accepted? {
      return if gate.Rejected? then Skipped else HeaderPanicked;
    }
    var rows := gate.rows;
    ghost var cs := Classify(rows, U16_LIMIT);
    ghost var ext := Extract(rows, U16_LIMIT);
    var out: seq<byte> := [];
    ghost var samples: seq<u16> := [];
    var i := 0;
    while i < |rows|
      invariant i <= |rows|
      invariant out == LittleEndian(samples)
      invariant ext == Prefixed(samples, Gather(cs[i..]))
    {
      var c := ReadRow(rows[i], U16_LIMIT);
      ClassifyAt(rows, i, U16_LIMIT);
      GatherAt(cs, i, samples);
      match c {
        case Skip =>
        case Malformed =>
          return Aborted(out);
        case Value(data) =>
          var sample: u16 := data;
          out := out + [sample % 0x100, sample / 0x100];
          LittleEndianSnoc(samples, sample);
          samples := samples + [sample];
      }
      i := i + 1;
    }
    assert samples + [] == samples;
    return Done(out);
  }

  /** Every sample of an IIS decode is two output bytes, low byte first. */
  lemma IisTwoBytesPerSample(src: Source)
    requires IisOutput(src).Done?
    ensures |IisOutput(src).out| == 2 * CountDataRows(src.lines[1..])
    ensures |Payloads(Classify(src.lines[1..], U16_LIMIT))| == CountDataRows(src.lines[1..])
    ensures forall k :: 0 <= k < |Payloads(Classify(src.lines[1..], U16_LIMIT))| ==>
      var v := Payloads(Classify(src.lines[1..], U16_LIMIT))[k];
      IisOutput(src).out[2 * k] == v % 0x100 && IisOutput(src).out[2 * k + 1] == v / 0x100
  {
    var rows := src.lines[1..];
    var cs := Classify(rows, U16_LIMIT);
    GatherIsPayloads(cs);
    assert cs[..|cs|] == cs;
    OneValuePerDataRow(rows, U16_LIMIT);
    ExtractBelow(rows, U16_LIMIT);
    LittleEndianLayout(Extract(rows, U16_LIMIT).values);
  }

  // ---------------------------------------------------------------------------
  // Hex-dump text sink

  /** A byte as `{:02x} ` writes it. */
  function HexCell(v: byte): string {
    Pad(v, 2, false) + " "
  }

  function HexCells(vs: seq<byte>): seq<string>
  {
    seq(|vs|, k requires 0 <= k < |vs| => HexCell(vs[k]))
  }

  /** The text a dump of `vs` writes: a newline before every byte whose index is a
      positive multiple of 16. */
  function HexDump(vs: seq<byte>): string
  {
    Grouped(HexCells(vs), 16)
  }

  /** The dump is lines of sixteen cells joined by single newlines, with no leading
      or trailing newline; every cell is two lower-case digits that read back as
      the byte, then a space. */
  lemma HexDumpLayout(vs: seq<byte>)
    ensures HexDump(vs) == Lines(HexCells(vs), 16)
    ensures forall k :: 0 <= k < |vs| ==>
      |HexCells(vs)[k]| == 3 && HexCells(vs)[k][2] == ' '
      && IsHexOfCase(HexCells(vs)[k][0], false) && IsHexOfCase(HexCells(vs)[k][1], false)
      && FromStrRadix16(HexCells(vs)[k][..2], U8_LIMIT) == Some(vs[k])
  {
    GroupedIsLines(HexCells(vs), 16);
    forall k | 0 <= k < |vs|
      ensures IsHexOfCase(HexCells(vs)[k][0], false) && IsHexOfCase(HexCells(vs)[k][1], false)
      ensures FromStrRadix16(HexCells(vs)[k][..2], U8_LIMIT) == Some(vs[k])
    {
      Pow16Widths();
      PadDigits(vs[k], 2, false);
      PadRoundTrip(vs[k], 2, false, U8_LIMIT);
      assert HexCells(vs)[k][..2] == Pad(vs[k], 2, false);
    }
  }

  /** One more byte: a newline first when the count of bytes already written is
      a positive multiple of 16, then its cell. This is the loop's step. */
  lemma HexDumpSnoc(vs: seq<byte>, v: byte)
    ensures |vs| > 0 && |vs| % 16 == 0 ==> HexDump(vs + [v]) == HexDump(vs) + "\n" + HexCell(v)
    ensures !(|vs| > 0 && |vs| % 16 == 0) ==> HexDump(vs + [v]) == HexDump(vs) + HexCell(v)
  {
    assert HexCells(vs + [v]) == HexCells(vs) + [HexCell(v)];
    GroupedSnoc(HexCells(vs), HexCell(v), 16);
    BreakMod(|vs|, 16);
    var d := HexDump(vs);
    assert d + "" == d;
  }

  /** The text sink's write of one more byte, the `cnt`-th. */
  method WriteCell(text: string, cnt: nat, ghost written: seq<byte>, b: byte) returns (r: string)
    requires cnt == |written| && text == HexDump(written)
    ensures r == HexDump(written + [b])
  {
    HexDumpSnoc(written, b);
    r := text;
    if cnt > 0 && cnt % 16 == 0 {
      r := r + "\n";
    }
    r := r + HexCell(b);
  }

  /** The `.txt` file of a text SPI decode. */
  function SpiTxtOutput(src: Source): Run<string> {
    match Preproc(src, KINGST_SPI_FILE_FORMAT)
    case Rejected => Skipped
    case HeaderPanic => HeaderPanicked
    case Accepted(rows) =>
      ExtractBelow(rows, U8_LIMIT);
      var e := Extract(rows, U8_LIMIT);
      var bytes: seq<byte> := e.values;
      Conclude(e, HexDump(bytes))
  }

  method ProcSpiTxt(src: Source) returns (r: Run<string>)
    ensures r == SpiTxtOutput(src)
  {
    var gate := Preproc(src, KINGST_SPI_FILE_FORMAT);
    if !gate.Accepted? {
      return if gate.Rejected? then Skipped else HeaderPanicked;
    }
    var rows := gate.rows;
    ghost var cs := Classify(rows, U8_LIMIT);
    ghost var ext := Extract(rows, U8_LIMIT);
    var text: string := "";
    var cnt: nat := 0;
    ghost var written: seq<byte> := [];
    var i := 0;
    while i < |rows|
      invariant i <= |rows|
      invariant cnt == |written| && text == HexDump(written)
      invariant ext == Prefixed(written, Gather(cs[i..]))
    {
      var c := ReadRow(rows[i], U8_LIMIT);
      ClassifyAt(rows, i, U8_LIMIT);
      GatherAt(cs, i, written);
      match c {
        case Skip =>
        case Malformed =>
          return Aborted(text);
        case Value(data) =>
          var b: byte := data;
          text := WriteCell(text, cnt, written, b);
          cnt := cnt + 1;
          written := written + [b];
      }
      i := i + 1;
    }
    assert written + [] == written;
    return Done(text);
  }

  // ---------------------------------------------------------------------------
  // Bluetrum voice-dump framer

  /** `BluetrumVoiceDumpState`. */
  datatype Phase = Header | Body

  /** The 8-byte frame header: version, frame type, body length, frame number. */
  datatype VoiceHeader = VoiceHeader(version: seq<byte>, frameType: byte, len: u16, frameNum: byte)

  const DEFAULT_HEADER: VoiceHeader := VoiceHeader([0, 0, 0, 0], 0, 0, 0)

  /** The header read from the 8 cached bytes. The length is
      `(b5 as u16) << 8 | (b6 as u16)`: the two bytes occupy disjoint bits, so the
      or is the sum `b5 * 256 + b6`. */
  function ParseHeader(cache: seq<byte>): (h: VoiceHeader)
    requires |cache| == 8
    ensures h.len / 0x100 == cache[5] && h.len % 0x100 == cache[6]
  {
    VoiceHeader(cache[..4], cache[4], cache[5] as int * 0x100 + cache[6] as int, cache[7])
  }

  /** The three output streams `.out1`, `.out2`, `.out3`. */
  datatype Streams = Streams(out1: seq<byte>, out2: seq<byte>, out3: seq<byte>)

  const NO_STREAMS: Streams := Streams([], [], [])

  function Append(s: Streams, t: Streams): Streams {
    Streams(s.out1 + t.out1, s.out2 + t.out2, s.out3 + t.out3)
  }

  /** Body bytes go to the stream of frame type 0, 2 or 4; other types drop them. */
  function Route(s: Streams, frameType: byte, bs: seq<byte>): Streams {
    if frameType == 0 then s.(out1 := s.out1 + bs)
    else if frameType == 2 then s.(out2 := s.out2 + bs)
    else if frameType == 4 then s.(out3 := s.out3 + bs)
    else s
  }

  /** The decoder's variables `state`, `header_cache`, `header`, `cnt` and what
      the three output files hold. */
  datatype Framer = Framer(phase: Phase, cache: seq<byte>, header: VoiceHeader, cnt: u16, streams: Streams)

  const INITIAL_FRAMER: Framer := Framer(Header, [], DEFAULT_HEADER, 0, NO_STREAMS)

  /** One byte through the framer. In the body the counter is a `u16` and is
      incremented (wrapping, as in a release build) before it is compared with the
      length. */
  function Feed(f: Framer, b: byte): Framer {
    match f.phase
    case Header =>
      var cache := f.cache + [b];
      if |cache| == 8 then f.(phase := Body, cache := cache, header := ParseHeader(cache))
      else f.(cache := cache)
    case Body =>
      var streams := Route(f.streams, f.header.frameType, [b]);
      var cnt := (f.cnt + 1) % 0x1_0000;
      if cnt == f.header.len then f.(phase := Header, cache := [], cnt := 0, streams := streams)
      else f.(cnt := cnt, streams := streams)
  }

  function FeedAll(f: Framer, bs: seq<byte>): Framer
    decreases |bs|
  {
    if bs == [] then f else FeedAll(Feed(f, bs[0]), bs[1..])
  }

  /** The `.out1`/`.out2`/`.out3` files of a Bluetrum voice-dump decode. */
  function SpiBluetrumOutput(src: Source): Run<Streams> {
    match Preproc(src, KINGST_SPI_FILE_FORMAT)
    case Rejected => Skipped
    case HeaderPanic => HeaderPanicked
    case Accepted(rows) =>
      ExtractBelow(rows, U8_LIMIT);
      var e := Extract(rows, U8_LIMIT);
      var bytes: seq<byte> := e.values;
      Conclude(e, FeedAll(INITIAL_FRAMER, bytes).streams)
  }

  lemma FeedAllSnoc(f: Framer, bs: seq<byte>, b: byte)
    ensures FeedAll(f, bs + [b]) == Feed(FeedAll(f, bs), b)
  {
    FeedAllAppend(f, bs, [b]);
    assert [b][1..] == [];
  }

  method ProcSpiBluetrum(src: Source) returns (r: Run<Streams>)
    ensures r == SpiBluetrumOutput(src)
  {
    var gate := Preproc(src, KINGST_SPI_FILE_FORMAT);
    if !gate.Accepted? {
      return if gate.Rejected? then Skipped else HeaderPanicked;
    }
    var rows := gate.rows;
    ghost var cs := Classify(rows, U8_LIMIT);
    ghost var ext := Extract(rows, U8_LIMIT);
    var out1, out2, out3: seq<byte> := [], [], [];
    var cnt: u16 := 0;
    var header := DEFAULT_HEADER;
    var cache: seq<byte> := [];
    var state := Header;
    ghost var fed: seq<byte> := [];
    var i := 0;
    while i < |rows|
      invariant i <= |rows|
      invariant ext == Prefixed(fed, Gather(cs[i..]))
      invariant Framer(state, cache, header, cnt, Streams(out1, out2, out3)) == FeedAll(INITIAL_FRAMER, fed)
    {
      var c := ReadRow(rows[i], U8_LIMIT);
      ClassifyAt(rows, i, U8_LIMIT);
      GatherAt(cs, i, fed);
      match c {
        case Skip =>
        case Malformed =>
          return Aborted(Streams(out1, out2, out3));
        case Value(data) =>
          var b: byte := data;
          ghost var before := Framer(state, cache, header, cnt, Streams(out1, out2, out3));
          FeedAllSnoc(INITIAL_FRAMER, fed, b);
          fed := fed + [b];
          match state {
            case Header =>
              cache := cache + [b];
              if |cache| == 8 {
                state := Body;
                header := ParseHeader(cache);
              }
            case Body =>
              ghost var routed := Route(before.streams, header.frameType, [b]);
              if header.frameType == 0 {
                out1 := out1 + [b];
              } else if header.frameType == 2 {
                out2 := out2 + [b];
              } else if header.frameType == 4 {
                out3 := out3 + [b];
              }
              assert Streams(out1, out2, out3) == routed;
              cnt := (cnt + 1) % 0x1_0000;
              if cnt == header.len {
                state := Header;
                cache := [];
                cnt := 0;
              }
          }
      }
      i := i + 1;
    }
    assert fed + [] == fed;
    return Done(Streams(out1, out2, out3));
  }

  // Framer properties

  lemma {:induction false} FeedAllAppend(f: Framer, a: seq<byte>, b: seq<byte>)
    ensures FeedAll(f, a + b) == FeedAll(FeedAll(f, a), b)
    decreases |a|
  {
    if a == [] {
      assert a + b == b;
    } else {
      assert (a + b)[1..] == a[1..] + b;
      FeedAllAppend(Feed(f, a[0]), a[1..], b);
    }
  }

  /** In the header phase bytes only go to the header cache: nothing is routed. */
  lemma {:induction false} HeaderBytesCached(f: Framer, hs: seq<byte>)
    requires f.phase == Header && |f.cache| + |hs| < 8
    ensures FeedAll(f, hs) == f.(cache := f.cache + hs)
    decreases |hs|
  {
    if hs == [] {
      assert f.cache + hs == f.cache;
    } else {
      HeaderBytesCached(Feed(f, hs[0]), hs[1..]);
      assert f.cache + [hs[0]] + hs[1..] == f.cache + hs;
    }
  }

  /** The eighth header byte turns the cache into the header and starts the body;
      the counter is left as it was. */
  lemma HeaderCompleted(f: Framer, hs: seq<byte>)
    requires f.phase == Header && f.cache == [] && |hs| == 8
    ensures FeedAll(f, hs) == f.(phase := Body, cache := hs, header := ParseHeader(hs))
  {
    FeedAllAppend(f, hs[..7], [hs[7]]);
    assert hs[..7] + [hs[7]] == hs;
    HeaderBytesCached(f, hs[..7]);
    assert [] + hs[..7] == hs[..7];
  }

  /** The number of body bytes a header announces: `len`, except that with the
      increment before the comparison a zero length ends only when the 16-bit
      counter wraps back to 0, after 65536 bytes. */
  function BodyLength(len: u16): nat {
    if len == 0 then 0x1_0000 else len
  }

  lemma RouteAppend(s: Streams, t: byte, a: seq<byte>, b: seq<byte>)
    ensures Route(Route(s, t, a), t, b) == Route(s, t, a + b)
    ensures Route(s, t, a) == Append(s, Route(NO_STREAMS, t, a))
  {
  }

  /** In the body every byte is routed and counted; short of the announced length
      the framer stays in the body. */
  lemma {:induction false} BodyBytesRouted(f: Framer, bs: seq<byte>)
    requires f.phase == Body && f.cnt + |bs| < BodyLength(f.header.len)
    ensures FeedAll(f, bs) == f.(cnt := f.cnt + |bs|, streams := Route(f.streams, f.header.frameType, bs))
    decreases |bs|
  {
    if bs == [] {
      assert f.streams.(out1 := f.streams.out1 + bs) == f.streams;
    } else {
      var g := Feed(f, bs[0]);
      assert g == f.(cnt := f.cnt + 1, streams := Route(f.streams, f.header.frameType, [bs[0]]));
      BodyBytesRouted(g, bs[1..]);
      RouteAppend(f.streams, f.header.frameType, [bs[0]], bs[1..]);
      assert [bs[0]] + bs[1..] == bs;
    }
  }

  /** The wrapped increment hits the length exactly at the announced body size. */
  lemma CounterReachesLength(c: nat, len: u16)
    requires c + 1 == BodyLength(len)
    ensures (c + 1) % 0x1_0000 == len
  {
  }

  /** The byte that brings the counter to the announced length ends the frame: back
      to the header phase with an empty cache and the counter at 0. */
  lemma FrameEnds(f: Framer, bs: seq<byte>)
    requires f.phase == Body && f.cnt + |bs| == BodyLength(f.header.len) && bs != []
    ensures FeedAll(f, bs) == Framer(Header, [], f.header, 0, Route(f.streams, f.header.frameType, bs))
  {
    var n := |bs| - 1;
    var front, last := bs[..n], bs[n];
    assert front + [last] == bs;
    FeedAllSnoc(f, front, last);
    BodyBytesRouted(f, front);
    var g := FeedAll(f, front);
    assert g.phase == Body && g.header == f.header && g.cnt == f.cnt + n;
    CounterReachesLength(g.cnt, g.header.len);
    RouteAppend(f.streams, f.header.frameType, front, [last]);
    assert Route(g.streams, g.header.frameType, [last]) == Route(f.streams, f.header.frameType, bs);
  }

  /** A type-0 frame announcing two body bytes: both go to `.out1` and the framer
      then waits for the next header. */
  lemma FrameEndsExample(x: byte, y: byte)
    ensures FeedAll(INITIAL_FRAMER, [1, 0, 0, 0, 0, 0, 2, 5, x, y])
         == Framer(Header, [], VoiceHeader([1, 0, 0, 0], 0, 2, 5), 0, Streams([x, y], [], []))
  {
    var vs: seq<byte> := [1, 0, 0, 0, 0, 0, 2, 5, x, y];
    var hs: seq<byte> := [1, 0, 0, 0, 0, 0, 2, 5];
    assert vs[..8] == hs;
    assert hs[..4] == [1, 0, 0, 0];
    FrameConsumed(INITIAL_FRAMER, vs, 2);
    assert vs[8..10] == [x, y];
    assert vs[10..] == [];
  }

  /** Independent reference for the framer: read the value stream frame by frame
      (8 header bytes, then the announced number of body bytes, the last frame
      possibly cut short) and route each body to its frame type's stream. */
  function Demux(vs: seq<byte>): Streams
    decreases |vs|
  {
    if |vs| < 8 then NO_STREAMS
    else
      var end := FrameEnd(vs);
      Append(Route(NO_STREAMS, ParseHeader(vs[..8]).frameType, vs[8..end]), Demux(vs[end..]))
  }

  /** Where the frame that starts `vs` ends: after its announced body, or at the
      end of the stream when the body is cut short. */
  function FrameEnd(vs: seq<byte>): (end: nat)
    requires |vs| >= 8
    ensures 8 <= end <= |vs|
  {
    var n := BodyLength(ParseHeader(vs[..8]).len);
    if 8 + n <= |vs| then 8 + n else |vs|
  }

  /** A whole frame, header and announced body, through a framer waiting for a
      header: the body is routed and the framer waits for the next header. */
  lemma FrameConsumed(f: Framer, vs: seq<byte>, n: nat)
    requires f.phase == Header && f.cache == [] && f.cnt == 0 && |vs| >= 8
    requires n == BodyLength(ParseHeader(vs[..8]).len) && 8 + n <= |vs|
    ensures FeedAll(f, vs) == FeedAll(Framer(Header, [], ParseHeader(vs[..8]), 0,
      Route(f.streams, ParseHeader(vs[..8]).frameType, vs[8..8 + n])), vs[8 + n..])
  {
    var hs, body := vs[..8], vs[8..8 + n];
    assert vs == hs + body + vs[8 + n..];
    FeedAllAppend(f, hs + body, vs[8 + n..]);
    FeedAllAppend(f, hs, body);
    HeaderCompleted(f, hs);
    FrameEnds(FeedAll(f, hs), body);
  }

  /** A last frame cut short: its bytes are routed and nothing follows. */
  lemma FrameCut(f: Framer, vs: seq<byte>)
    requires f.phase == Header && f.cache == [] && f.cnt == 0 && |vs| >= 8
    requires |vs| < 8 + BodyLength(ParseHeader(vs[..8]).len)
    ensures FeedAll(f, vs).streams == Route(f.streams, ParseHeader(vs[..8]).frameType, vs[8..])
  {
    var hs, body := vs[..8], vs[8..];
    assert vs == hs + body;
    FeedAllAppend(f, hs, body);
    HeaderCompleted(f, hs);
    BodyBytesRouted(FeedAll(f, hs), body);
  }

  lemma AppendAssoc3(a: Streams, b: Streams, c: Streams)
    ensures Append(Append(a, b), c) == Append(a, Append(b, c))
    ensures Append(a, NO_STREAMS) == a
  {
    assert a.out1 + [] == a.out1 && a.out2 + [] == a.out2 && a.out3 + [] == a.out3;
  }

  lemma DemuxFirst(vs: seq<byte>)
    requires |vs| >= 8
    ensures Demux(vs) == Append(Route(NO_STREAMS, ParseHeader(vs[..8]).frameType, vs[8..FrameEnd(vs)]), Demux(vs[FrameEnd(vs)..]))
  {
  }

  lemma DemuxAt(vs: seq<byte>, frameType: byte, e: nat, m: nat)
    requires e == m && 8 <= e <= |vs|
    ensures Append(Route(NO_STREAMS, frameType, vs[8..e]), Demux(vs[e..]))
      == Append(Route(NO_STREAMS, frameType, vs[8..m]), Demux(vs[m..]))
  {
  }

  lemma DemuxWhole(vs: seq<byte>, n: nat)
    requires |vs| >= 8 && n == BodyLength(ParseHeader(vs[..8]).len) && 8 + n <= |vs|
    ensures Demux(vs) == Append(Route(NO_STREAMS, ParseHeader(vs[..8]).frameType, vs[8..8 + n]), Demux(vs[8 + n..]))
  {
    DemuxFirst(vs);
    DemuxAt(vs, ParseHeader(vs[..8]).frameType, FrameEnd(vs), 8 + n);
  }

  /** The Demux step for a whole frame, given the claim for what follows it. */
  lemma DemuxFrameStep(f: Framer, vs: seq<byte>, n: nat)
    requires f.phase == Header && f.cache == [] && f.cnt == 0 && |vs| >= 8
    requires n == BodyLength(ParseHeader(vs[..8]).len) && 8 + n <= |vs|
    requires var h := ParseHeader(vs[..8]);
      var g := Framer(Header, [], h, 0, Route(f.streams, h.frameType, vs[8..8 + n]));
      FeedAll(g, vs[8 + n..]).streams == Append(g.streams, Demux(vs[8 + n..]))
    ensures FeedAll(f, vs).streams == Append(f.streams, Demux(vs))
  {
    var h := ParseHeader(vs[..8]);
    var body := vs[8..8 + n];
    DemuxWhole(vs, n);
    FrameConsumed(f, vs, n);
    RouteAppend(f.streams, h.frameType, body, []);
    AppendAssoc3(f.streams, Route(NO_STREAMS, h.frameType, body), Demux(vs[8 + n..]));
  }

  /** The Demux step for a last frame cut short. */
  lemma DemuxCutStep(f: Framer, vs: seq<byte>)
    requires f.phase == Header && f.cache == [] && f.cnt == 0 && |vs| >= 8
    requires |vs| < 8 + BodyLength(ParseHeader(vs[..8]).len)
    ensures FeedAll(f, vs).streams == Append(f.streams, Demux(vs))
  {
    var h := ParseHeader(vs[..8]);
    FrameCut(f, vs);
    RouteAppend(f.streams, h.frameType, vs[8..], []);
    AppendAssoc3(f.streams, Route(NO_STREAMS, h.frameType, vs[8..]), NO_STREAMS);
    assert Demux(vs[|vs|..]) == NO_STREAMS;
  }

  lemma {:induction false} FeedAllIsDemuxFrom(f: Framer, vs: seq<byte>)
    requires f.phase == Header && f.cache == [] && f.cnt == 0
    ensures FeedAll(f, vs).streams == Append(f.streams, Demux(vs))
    decreases |vs|
  {
    if |vs| < 8 {
      HeaderBytesCached(f, vs);
      AppendAssoc3(f.streams, NO_STREAMS, NO_STREAMS);
    } else {
      var h := ParseHeader(vs[..8]);
      var n := BodyLength(h.len);
      if 8 + n <= |vs| {
        var g := Framer(Header, [], h, 0, Route(f.streams, h.frameType, vs[8..8 + n]));
        FeedAllIsDemuxFrom(g, vs[8 + n..]);
        DemuxFrameStep(f, vs, n);
      } else {
        DemuxCutStep(f, vs);
      }
    }
  }

  /** The framer's three outputs are exactly the frame-by-frame reading of the
      value stream. */
  lemma FramerIsDemux(vs: seq<byte>)
    ensures FeedAll(INITIAL_FRAMER, vs).streams == Demux(vs)
  {
    FeedAllIsDemuxFrom(INITIAL_FRAMER, vs);
    assert Append(NO_STREAMS, Demux(vs)) == Demux(vs);
  }

  // ---------------------------------------------------------------------------
  // Properties shared by all decoders

  /** A decoder creates output only when the first line is readable and carries
      its signature. */
  lemma OutputNeedsHeader(src: Source)
    ensures (SpiRawOutput(src).Done? || SpiRawOutput(src).Aborted?) <==> AcceptsHeader(src, KINGST_SPI_FILE_FORMAT)
    ensures (SpiTxtOutput(src).Done? || SpiTxtOutput(src).Aborted?) <==> AcceptsHeader(src, KINGST_SPI_FILE_FORMAT)
    ensures (SpiBluetrumOutput(src).Done? || SpiBluetrumOutput(src).Aborted?) <==> AcceptsHeader(src, KINGST_SPI_FILE_FORMAT)
    ensures (IisOutput(src).Done? || IisOutput(src).Aborted?) <==> AcceptsHeader(src, KINGST_IIS_FILE_FORMAT)
  {
  }

  /** The header line is consumed by the gate and never decoded: any two accepted
      header lines give the same output for the same data lines. */
  lemma HeaderNotDecoded(h1: string, h2: string, rows: seq<Line>)
    ensures Contains(h1, KINGST_SPI_FILE_FORMAT) && Contains(h2, KINGST_SPI_FILE_FORMAT) ==>
      SpiRawOutput(Opened([Text(h1)] + rows)) == SpiRawOutput(Opened([Text(h2)] + rows)) &&
      SpiTxtOutput(Opened([Text(h1)] + rows)) == SpiTxtOutput(Opened([Text(h2)] + rows)) &&
      SpiBluetrumOutput(Opened([Text(h1)] + rows)) == SpiBluetrumOutput(Opened([Text(h2)] + rows))
    ensures Contains(h1, KINGST_IIS_FILE_FORMAT) && Contains(h2, KINGST_IIS_FILE_FORMAT) ==>
      IisOutput(Opened([Text(h1)] + rows)) == IisOutput(Opened([Text(h2)] + rows))
  {
    assert ([Text(h1)] + rows)[1..] == rows;
    assert ([Text(h2)] + rows)[1..] == rows;
  }

  /** The lines the gate hands on, with and without an inserted row. */
  lemma GateDrops(h: Line, before: seq<Line>, row: Line, after: seq<Line>)
    ensures ([h] + before + [row] + after)[1..] == before + [row] + after
    ensures ([h] + before + after)[1..] == before + after
  {
  }

  /** An error-marker row anywhere among the data lines changes no decoder's
      output, the framer's pending state included. */
  lemma ErrorRowNoEffect(h: Line, before: seq<Line>, t: string, after: seq<Line>)
    requires Contains(t, KINGST_ERROR_STR)
    ensures SpiRawOutput(Opened([h] + before + [Text(t)] + after)) == SpiRawOutput(Opened([h] + before + after))
    ensures SpiTxtOutput(Opened([h] + before + [Text(t)] + after)) == SpiTxtOutput(Opened([h] + before + after))
    ensures IisOutput(Opened([h] + before + [Text(t)] + after)) == IisOutput(Opened([h] + before + after))
    ensures SpiBluetrumOutput(Opened([h] + before + [Text(t)] + after)) == SpiBluetrumOutput(Opened([h] + before + after))
  {
    GateDrops(h, before, Text(t), after);
    SkippedRowIgnored(before, Text(t), after, U8_LIMIT);
    SkippedRowIgnored(before, Text(t), after, U16_LIMIT);
  }

  // ---------------------------------------------------------------------------
  // Dispatch

  /** `SpiConvType`: the SPI output format chosen by the user. */
  datatype SpiConvType = Raw | BluetrumVoiceDump | Txt

  datatype SpiResult = RawFile(raw: Run<seq<byte>>) | VoiceFiles(voice: Run<Streams>) | TextFile(text: Run<string>)

  method ProcSpi(conv: SpiConvType, src: Source) returns (r: SpiResult)
    ensures conv.Raw? ==> r == RawFile(SpiRawOutput(src))
    ensures conv.BluetrumVoiceDump? ==> r == VoiceFiles(SpiBluetrumOutput(src))
    ensures conv.Txt? ==> r == TextFile(SpiTxtOutput(src))
  {
    match conv {
      case Raw =>
        var out := ProcSpiRaw(src);
        r := RawFile(out);
      case BluetrumVoiceDump =>
        var out := ProcSpiBluetrum(src);
        r := VoiceFiles(out);
      case Txt =>
        var out := ProcSpiTxt(src);
        r := TextFile(out);
    }
  }
}
