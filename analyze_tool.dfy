/** The SPI log analyser. A logic-analyser CSV export holds one decoded MOSI token
    per record. The analyser rebuilds the text lines the target printed, stamps
    each line with the time of the first record since the previous emitted line,
    and keeps the lines whose type prefix (the text before the first ':') is one
    of the listed types. The timestamp is an opaque type `T`; its parser is a
    parameter. */
module AnalyzeTool {
  import opened Strings

  const TIME_COLUMN: string := "Time [s]"
  const MOSI_COLUMN: string := "MOSI"

  /** The tokens the analyser exports for a zero byte and for a line feed. */
  const NUL: string := "NUL"
  const LF: string := "LF "

  /** One emitted line: the time of its first record and its trimmed text. */
  datatype LogMessage<T> = LogMessage(timestamp: T, content: string)

  /** The errors `process_logic_data` returns. */
  datatype Failure =
    | MissingTimeColumn
    | MissingMosiColumn
    | MissingTimeField
    | BadTime
    | MissingMosiField

  datatype Result<R> = Ok(value: R) | Err(failure: Failure)

  /** The positions of the two columns used in every record. */
  datatype Columns = Columns(time: nat, mosi: nat)

  /** The first "Time [s]" and the first "MOSI" column of the header row. A missing
      time column is reported before a missing MOSI column. */
  function FindColumns(header: seq<string>): Result<Columns> {
    var t := FirstIndex(header, TIME_COLUMN);
    var m := FirstIndex(header, MOSI_COLUMN);
    if t == |header| then Err(MissingTimeColumn)
    else if m == |header| then Err(MissingMosiColumn)
    else Ok(Columns(t, m))
  }

  /** Both columns must be present; each chosen position is the first column
      with exactly that name. */
  lemma ColumnsFound(header: seq<string>)
    ensures FindColumns(header) == Err(MissingTimeColumn) <==> TIME_COLUMN !in header
    ensures FindColumns(header) == Err(MissingMosiColumn) <==> TIME_COLUMN in header && MOSI_COLUMN !in header
    ensures FindColumns(header).Ok? <==> TIME_COLUMN in header && MOSI_COLUMN in header
    ensures FindColumns(header).Ok? ==>
      var c := FindColumns(header).value;
      c.time < |header| && header[c.time] == TIME_COLUMN && TIME_COLUMN !in header[..c.time] &&
      c.mosi < |header| && header[c.mosi] == MOSI_COLUMN && MOSI_COLUMN !in header[..c.mosi]
  {
    assert header[..|header|] == header;
  }

  /** The two fields of a record that has them and whose time parses. */
  datatype Sample<T> = Sample(time: T, token: string)

  /** One record: the time field is fetched and parsed before the MOSI field is
      fetched, so a record failing both ways reports the time error. */
  function ReadRecord<T>(record: seq<string>, cols: Columns, parse: string -> Option<T>): Result<Sample<T>> {
    if cols.time >= |record| then Err(MissingTimeField)
    else match parse(record[cols.time])
      case None => Err(BadTime)
      case Some(t) => if cols.mosi >= |record| then Err(MissingMosiField) else Ok(Sample(t, record[cols.mosi]))
  }

  /** All records in order; the first record that fails decides the error. */
  function ReadAll<T>(records: seq<seq<string>>, cols: Columns, parse: string -> Option<T>): (r: Result<seq<Sample<T>>>)
    ensures r.Ok? ==> |r.value| == |records|
    decreases |records|
  {
    if records == [] then Ok([])
    else match ReadAll(records[..|records| - 1], cols, parse)
      case Err(f) => Err(f)
      case Ok(ss) =>
        match ReadRecord(records[|records| - 1], cols, parse)
        case Err(f) => Err(f)
        case Ok(s) => Ok(ss + [s])
  }

  /** When every record reads, the samples are the records' time and MOSI fields. */
  lemma {:induction false} ReadAllOk<T>(records: seq<seq<string>>, cols: Columns, parse: string -> Option<T>, k: nat)
    requires ReadAll(records, cols, parse).Ok? && k < |records|
    ensures cols.time < |records[k]| && cols.mosi < |records[k]| && parse(records[k][cols.time]).Some?
    ensures ReadAll(records, cols, parse).value[k] == Sample(parse(records[k][cols.time]).value, records[k][cols.mosi])
    decreases |records|
  {
    var n := |records| - 1;
    if k < n {
      ReadAllOk(records[..n], cols, parse, k);
      assert records[..n][k] == records[k];
    }
  }

  /** A failing read is the error of a record all of whose predecessors read. */
  lemma {:induction false} ReadAllErr<T>(records: seq<seq<string>>, cols: Columns, parse: string -> Option<T>)
    requires ReadAll(records, cols, parse).Err?
    ensures exists k :: 0 <= k < |records| && ReadAll(records[..k], cols, parse).Ok? &&
                        ReadRecord(records[k], cols, parse) == Err(ReadAll(records, cols, parse).failure)
    decreases |records|
  {
    var n := |records| - 1;
    if ReadAll(records[..n], cols, parse).Err? {
      ReadAllErr(records[..n], cols, parse);
      var k :| 0 <= k < n && ReadAll(records[..n][..k], cols, parse).Ok? &&
        ReadRecord(records[..n][k], cols, parse) == Err(ReadAll(records[..n], cols, parse).failure);
      assert records[..n][..k] == records[..k];
      assert records[..n][k] == records[k];
    } else {
      assert ReadRecord(records[n], cols, parse) == Err(ReadAll(records, cols, parse).failure);
    }
  }

  /** Once a prefix of the records fails, the whole read fails the same way. */
  lemma {:induction false} ReadAllStops<T>(records: seq<seq<string>>, cols: Columns, parse: string -> Option<T>, i: nat, f: Failure)
    requires i <= |records| && ReadAll(records[..i], cols, parse) == Err(f)
    ensures ReadAll(records, cols, parse) == Err(f)
    decreases |records| - i
  {
    if i < |records| {
      assert records[..i + 1][..i] == records[..i];
      ReadAllStops(records, cols, parse, i + 1, f);
    } else {
      assert records[..i] == records;
    }
  }

  /** What is kept between records: the text since the last line feed, the time
      of the first record since the last emitted message, and the messages
      emitted so far. */
  datatype Assembly<T> = Assembly(buffer: string, start: Option<T>, messages: seq<LogMessage<T>>)

  function Initial<T>(): Assembly<T> {
    Assembly("", None, [])
  }

  /** The body of the record loop. The start time is taken from the record when
      none is held. "NUL" appends a space and any other token other than "LF " is
      appended as it is. "LF " clears the text, after emitting its trimmed form
      when the text is non-empty and the trimmed form holds a ':'. */
  function Step<T>(a: Assembly<T>, s: Sample<T>): Assembly<T> {
    var start := if a.start.None? then Some(s.time) else a.start;
    if s.token == NUL then Assembly(a.buffer + " ", start, a.messages)
    else if s.token == LF then
      if a.buffer != "" && ':' in Trim(a.buffer) then
        Assembly("", None, a.messages + (if start.Some? then [LogMessage(start.value, Trim(a.buffer))] else []))
      else Assembly("", start, a.messages)
    else Assembly(a.buffer + s.token, start, a.messages)
  }

  /** The state after the loop has run over `ss`. */
  function Feed<T>(a: Assembly<T>, ss: seq<Sample<T>>): Assembly<T>
    decreases |ss|
  {
    if ss == [] then a else Step(Feed(a, ss[..|ss| - 1]), ss[|ss| - 1])
  }

  /** `process_logic_data` over a header row and the records after it. */
  function LogMessages<T>(header: seq<string>, records: seq<seq<string>>, parse: string -> Option<T>): Result<seq<LogMessage<T>>> {
    match FindColumns(header)
    case Err(f) => Err(f)
    case Ok(cols) =>
      match ReadAll(records, cols, parse)
      case Err(f) => Err(f)
      case Ok(ss) => Ok(Feed(Initial(), ss).messages)
  }

  method ProcessLogicData<T>(header: seq<string>, records: seq<seq<string>>, parse: string -> Option<T>)
    returns (r: Result<seq<LogMessage<T>>>)
    ensures r == LogMessages(header, records, parse)
  {
    var timeIdx := FirstIndex(header, TIME_COLUMN);
    if timeIdx == |header| {
      return Err(MissingTimeColumn);
    }
    var mosiIdx := FirstIndex(header, MOSI_COLUMN);
    if mosiIdx == |header| {
      return Err(MissingMosiColumn);
    }
    ghost var cols := Columns(timeIdx, mosiIdx);
    var messages: seq<LogMessage<T>> := [];
    var current: string := "";
    var start: Option<T> := None;
    ghost var done: seq<Sample<T>> := [];
    var i := 0;
    while i < |records|
      invariant i <= |records|
      invariant ReadAll(records[..i], cols, parse) == Ok(done)
      invariant Assembly(current, start, messages) == Feed(Initial(), done)
    {
      var record := records[i];
      assert records[..i + 1][..i] == records[..i];
      if timeIdx >= |record| {
        ReadAllStops(records, cols, parse, i + 1, MissingTimeField);
        return Err(MissingTimeField);
      }
      var time := parse(record[timeIdx]);
      if time.None? {
        ReadAllStops(records, cols, parse, i + 1, BadTime);
        return Err(BadTime);
      }
      if mosiIdx >= |record| {
        ReadAllStops(records, cols, parse, i + 1, MissingMosiField);
        return Err(MissingMosiField);
      }
      var token := record[mosiIdx];
      var s := Sample(time.value, token);
      current, start, messages := Consume(current, start, messages, s);
      assert (done + [s])[..|done|] == done;
      done := done + [s];
      i := i + 1;
    }
    assert records[..i] == records;
    return Ok(messages);
  }

  /** One pass of the record loop's body on the three loop variables. */
  method Consume<T>(current: string, start: Option<T>, messages: seq<LogMessage<T>>, s: Sample<T>)
    returns (current': string, start': Option<T>, messages': seq<LogMessage<T>>)
    ensures Assembly(current', start', messages') == Step(Assembly(current, start, messages), s)
  {
    current', start', messages' := current, start, messages;
    if start'.None? {
      start' := Some(s.time);
    }
    if s.token == NUL {
      current' := current' + " ";
    } else if s.token == LF {
      if current' != "" {
        var message := Trim(current');
        if ':' in message {
          if start'.Some? {
            messages' := messages' + [LogMessage(start'.value, message)];
          }
          start' := None;
        }
      }
      current' := "";
    } else {
      current' := current' + s.token;
    }
  }

  /** The text a run of tokens without line feeds leaves in the buffer. */
  function Typed<T>(ss: seq<Sample<T>>): string
    decreases |ss|
  {
    if ss == [] then "" else Typed(ss[..|ss| - 1]) + Glyph(ss[|ss| - 1].token)
  }

  /** "NUL" stands for a space; any other token is its own text. */
  function Glyph(token: string): string {
    if token == NUL then " " else token
  }

  /** The start time a run of records leaves when it emits nothing: the one held
      before, or else the time of the run's first record. */
  function StartAfter<T>(start: Option<T>, ss: seq<Sample<T>>): Option<T> {
    if start.Some? then start else if ss == [] then None else Some(ss[0].time)
  }

  /** A record other than a line feed appends its text and emits nothing. */
  lemma StepText<T>(a: Assembly<T>, s: Sample<T>)
    requires s.token != LF
    ensures Step(a, s) == Assembly(a.buffer + Glyph(s.token), StartAfter(a.start, [s]), a.messages)
  {
  }

  /** Records without a line feed append their text to the buffer, emit nothing,
      and take the start time from the first of them when none is held. */
  lemma {:induction false} FeedWithoutLineFeed<T>(a: Assembly<T>, ss: seq<Sample<T>>)
    requires forall k :: 0 <= k < |ss| ==> ss[k].token != LF
    ensures Feed(a, ss) == Assembly(a.buffer + Typed(ss), StartAfter(a.start, ss), a.messages)
    decreases |ss|
  {
    if ss != [] {
      var n := |ss| - 1;
      var prefix, last := ss[..n], ss[n];
      assert forall k :: 0 <= k < n ==> prefix[k] == ss[k];
      assert ss == prefix + [last];
      FeedWithoutLineFeed(a, prefix);
      FeedSnoc(a, prefix, last);
      StepText(Feed(a, prefix), last);
      StartAfterSnoc(a.start, prefix, last);
    }
  }

  /** Unfolding `Feed` and `Typed` at the last record. */
  lemma FeedSnoc<T>(a: Assembly<T>, ss: seq<Sample<T>>, s: Sample<T>)
    ensures Feed(a, ss + [s]) == Step(Feed(a, ss), s)
    ensures Typed(ss + [s]) == Typed(ss) + Glyph(s.token)
  {
    assert (ss + [s])[..|ss|] == ss;
  }

  lemma StartAfterSnoc<T>(start: Option<T>, ss: seq<Sample<T>>, s: Sample<T>)
    ensures StartAfter(StartAfter(start, ss), [s]) == StartAfter(start, ss + [s])
  {
    if ss != [] {
      assert (ss + [s])[0] == ss[0];
    }
  }

  /** A line feed clears the buffer. It emits one message exactly when the buffer
      holds a ':'; the message is the trimmed buffer, stamped with the start time
      held (or, when none is, with the line feed's own time), and the start time
      is then released. Otherwise the start time carries on. */
  lemma StepLineFeed<T>(a: Assembly<T>, s: Sample<T>)
    requires s.token == LF
    ensures Step(a, s).buffer == ""
    ensures ':' in a.buffer ==>
      Step(a, s) == Assembly("", None, a.messages + [LogMessage(StartAfter(a.start, [s]).value, Trim(a.buffer))])
    ensures ':' !in a.buffer ==> Step(a, s) == Assembly("", StartAfter(a.start, [s]), a.messages)
  {
    assert !IsWhitespace(':');
    TrimKeeps(a.buffer, ':');
  }

  /** One line: starting from an empty buffer, records without a line feed and
      then a line feed emit the trimmed text of those records when it holds a
      ':', stamped with the start time held or else the time of the line's
      first record; otherwise they emit nothing and the start time carries over
      to the next line. */
  lemma LineMessage<T>(a: Assembly<T>, body: seq<Sample<T>>, lf: Sample<T>)
    requires a.buffer == "" && lf.token == LF
    requires forall k :: 0 <= k < |body| ==> body[k].token != LF
    ensures ':' in Typed(body) ==>
      Feed(a, body + [lf]) == Assembly("", None, a.messages + [LogMessage(StartAfter(a.start, body + [lf]).value, Trim(Typed(body)))])
    ensures ':' !in Typed(body) ==>
      Feed(a, body + [lf]) == Assembly("", StartAfter(a.start, body + [lf]), a.messages)
  {
    assert (body + [lf])[..|body|] == body;
    FeedWithoutLineFeed(a, body);
    assert "" + Typed(body) == Typed(body);
    var b := Feed(a, body);
    StepLineFeed(b, lf);
    if body != [] {
      assert (body + [lf])[0] == body[0];
    }
  }

  /** Feeding two runs one after the other is feeding their concatenation. */
  lemma {:induction false} FeedAppend<T>(a: Assembly<T>, x: seq<Sample<T>>, y: seq<Sample<T>>)
    ensures Feed(a, x + y) == Feed(Feed(a, x), y)
    decreases |y|
  {
    if y == [] {
      assert x + y == x;
    } else {
      var n := |y| - 1;
      FeedAppend(a, x, y[..n]);
      assert (x + y)[..|x + y| - 1] == x + y[..n];
    }
  }

  /** A line without a ':' is dropped, and its start time stamps the next
      emitted line. */
  lemma DiscardedLineCarries<T>(a: Assembly<T>, body1: seq<Sample<T>>, lf1: Sample<T>, body2: seq<Sample<T>>, lf2: Sample<T>)
    requires a == Assembly("", None, a.messages)
    requires lf1.token == LF && lf2.token == LF
    requires forall k :: 0 <= k < |body1| ==> body1[k].token != LF
    requires forall k :: 0 <= k < |body2| ==> body2[k].token != LF
    requires ':' !in Typed(body1) && ':' in Typed(body2)
    ensures Feed(a, body1 + [lf1] + body2 + [lf2]).messages ==
      a.messages + [LogMessage((body1 + [lf1])[0].time, Trim(Typed(body2)))]
  {
    LineMessage(a, body1, lf1);
    var b := Feed(a, body1 + [lf1]);
    LineMessage(b, body2, lf2);
    FeedAppend(a, body1 + [lf1], body2 + [lf2]);
    assert body1 + [lf1] + body2 + [lf2] == (body1 + [lf1]) + (body2 + [lf2]);
  }

  /** Records after the last line feed emit nothing. */
  lemma TailDropped<T>(a: Assembly<T>, ss: seq<Sample<T>>, k: nat)
    requires k <= |ss|
    requires forall j :: k <= j < |ss| ==> ss[j].token != LF
    ensures Feed(a, ss).messages == Feed(a, ss[..k]).messages
  {
    var tail := ss[k..];
    assert ss == ss[..k] + tail;
    FeedAppend(a, ss[..k], tail);
    assert forall j :: 0 <= j < |tail| ==> tail[j] == ss[k + j];
    FeedWithoutLineFeed(Feed(a, ss[..k]), tail);
  }

  /** Emitted messages are never taken back or reordered: each record can only
      add to the end of the list. */
  lemma {:induction false} FeedGrows<T>(a: Assembly<T>, ss: seq<Sample<T>>)
    ensures a.messages <= Feed(a, ss).messages
    decreases |ss|
  {
    if ss != [] {
      FeedGrows(a, ss[..|ss| - 1]);
    }
  }

  /** What every emitted message satisfies: it holds a ':' and is trimmed. */
  predicate Emitted<T>(m: LogMessage<T>) {
    ':' in m.content && Trimmed(m.content)
  }

  lemma {:induction false} FeedEmitted<T>(a: Assembly<T>, ss: seq<Sample<T>>)
    requires forall k :: 0 <= k < |a.messages| ==> Emitted(a.messages[k])
    ensures forall k :: 0 <= k < |Feed(a, ss).messages| ==> Emitted(Feed(a, ss).messages[k])
    decreases |ss|
  {
    if ss != [] {
      var b := Feed(a, ss[..|ss| - 1]);
      FeedEmitted(a, ss[..|ss| - 1]);
      TrimEnds(b.buffer);
    }
  }

  /** Every message `process_logic_data` returns holds a ':' and is trimmed. */
  lemma LogMessagesEmitted<T>(header: seq<string>, records: seq<seq<string>>, parse: string -> Option<T>)
    requires LogMessages(header, records, parse).Ok?
    ensures forall k :: 0 <= k < |LogMessages(header, records, parse).value| ==>
      Emitted(LogMessages(header, records, parse).value[k])
  {
    var cols := FindColumns(header).value;
    FeedEmitted(Initial(), ReadAll(records, cols, parse).value);
  }

  /** `validate_message_type`: the first ':'-separated piece of the message names
      one of the types. */
  predicate ValidateMessageType(message: string, types: set<string>) {
    Split(message, {':'})[0] in types
  }

  /** The type is the text before the first ':', or the whole message when it
      has none. */
  lemma ValidateIffPrefix(message: string, types: set<string>)
    ensures ValidateMessageType(message, types) <==> message[..FirstIndex(message, ':')] in types
    ensures ':' !in message ==> (ValidateMessageType(message, types) <==> message in types)
  {
    SplitFirst(message, ':');
    assert message[..|message|] == message;
  }

  /** A message written as a type, a ':' and a rest validates exactly when that
      type is listed. */
  lemma ValidateTyped(ty: string, rest: string, types: set<string>)
    requires ':' !in ty
    ensures ValidateMessageType(ty + ":" + rest, types) <==> ty in types
  {
    SplitAtSep(ty, ':', rest, {':'});
  }

  /** The type set of `analyze_main`: the comma-separated pieces of the type list,
      each trimmed. */
  function TypeSet(types: string): set<string> {
    set p | p in Split(types, {','}) :: Trim(p)
  }

  /** A listed type holds no comma and is trimmed. */
  lemma TypeSetMembers(types: string, ty: string)
    requires ty in TypeSet(types)
    ensures ',' !in ty && Trimmed(ty)
  {
    var p :| p in Split(types, {','}) && Trim(p) == ty;
    SplitPiecesFree(types, {','});
    assert !IsWhitespace(',');
    TrimKeeps(p, ',');
    TrimEnds(p);
  }

  /** A type list written as comma-joined names gives the set of the trimmed
      names. */
  lemma TypeSetOfList(names: seq<string>)
    requires |names| >= 1
    requires forall k :: 0 <= k < |names| ==> ',' !in names[k]
    ensures TypeSet(Join(names, ',')) == set k | 0 <= k < |names| :: Trim(names[k])
  {
    JoinSplit(names, ',');
    var byIndex := set k | 0 <= k < |names| :: Trim(names[k]);
    forall ty | ty in TypeSet(Join(names, ','))
      ensures ty in byIndex
    {
      var p :| p in names && Trim(p) == ty;
      var k :| 0 <= k < |names| && names[k] == p;
      assert Trim(names[k]) in byIndex;
    }
    forall ty | ty in byIndex
      ensures ty in TypeSet(Join(names, ','))
    {
      var k :| 0 <= k < |names| && Trim(names[k]) == ty;
      assert names[k] in Split(Join(names, ','), {','});
    }
  }

  /** The filter of `analyze_main`: the messages that validate, in order. */
  function Validated<T>(messages: seq<LogMessage<T>>, types: set<string>): seq<LogMessage<T>>
    decreases |messages|
  {
    if messages == [] then []
    else
      var m := messages[|messages| - 1];
      Validated(messages[..|messages| - 1], types) + (if ValidateMessageType(m.content, types) then [m] else [])
  }

  /** Filtering distributes over concatenation: together with filtering one
      message, this fixes both which messages are kept and their order. */
  lemma {:induction false} ValidatedAppend<T>(xs: seq<LogMessage<T>>, ys: seq<LogMessage<T>>, types: set<string>)
    ensures Validated(xs + ys, types) == Validated(xs, types) + Validated(ys, types)
    decreases |ys|
  {
    if ys == [] {
      assert xs + ys == xs;
    } else {
      var n := |ys| - 1;
      var init, last := ys[..n], ys[n];
      assert ys == init + [last];
      assert xs + ys == (xs + init) + [last];
      ValidatedAppend(xs, init, types);
      ValidatedSnoc(xs + init, last, types);
      ValidatedSnoc(init, last, types);
    }
  }

  /** Unfolding `Validated` at the last message. */
  lemma ValidatedSnoc<T>(ms: seq<LogMessage<T>>, m: LogMessage<T>, types: set<string>)
    ensures Validated(ms + [m], types) == Validated(ms, types) + (if ValidateMessageType(m.content, types) then [m] else [])
  {
    assert (ms + [m])[..|ms|] == ms;
  }

  lemma ValidatedOne<T>(m: LogMessage<T>, types: set<string>)
    ensures Validated([m], types) == if ValidateMessageType(m.content, types) then [m] else []
  {
    assert [m][..0] == [];
  }

  /** The kept messages are exactly the messages that validate. */
  lemma {:induction false} ValidatedExactly<T>(messages: seq<LogMessage<T>>, types: set<string>, m: LogMessage<T>)
    ensures m in Validated(messages, types) <==> m in messages && ValidateMessageType(m.content, types)
    decreases |messages|
  {
    if messages != [] {
      var n := |messages| - 1;
      ValidatedExactly(messages[..n], types, m);
      assert messages == messages[..n] + [messages[n]];
    }
  }

  /** `analyze_main` up to writing the output: the messages of the export whose
      type is in the type list. An error stands for the panic of its `unwrap`. */
  function Analyze<T>(types: string, header: seq<string>, records: seq<seq<string>>, parse: string -> Option<T>): Result<seq<LogMessage<T>>> {
    match LogMessages(header, records, parse)
    case Err(f) => Err(f)
    case Ok(ms) => Ok(Validated(ms, TypeSet(types)))
  }

  /** Every message written out holds a ':', is trimmed, and has a listed type. */
  lemma AnalyzeOutput<T>(types: string, header: seq<string>, records: seq<seq<string>>, parse: string -> Option<T>, m: LogMessage<T>)
    requires Analyze(types, header, records, parse).Ok?
    requires m in Analyze(types, header, records, parse).value
    ensures Emitted(m) && ValidateMessageType(m.content, TypeSet(types))
  {
    var ms := LogMessages(header, records, parse).value;
    ValidatedExactly(ms, TypeSet(types), m);
    LogMessagesEmitted(header, records, parse);
    var k :| 0 <= k < |ms| && ms[k] == m;
  }
}
