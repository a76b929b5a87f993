/** The console log line of an action log and of a stat message: a date,
    then segments each introduced by " | ". Date and number formatting are
    locale-dependent and stay outside the model: the message carries them
    already formatted. Integer counts are written in decimal. */
module ConsoleAppender {
  import opened Common
  import Text

  const LOG_SPLITTER: string := " | "

  // ------------------------------------------------------- line separators

  predicate IsLineSeparator(ch: char) {
    ch == '\n' || ch == '\r'
  }

  predicate HasNoLineSeparator(s: string) {
    forall i :: 0 <= i < |s| ==> !IsLineSeparator(s[i])
  }

  /** `filterLineSeparator(value)`: null becomes the empty string; otherwise
      every CR and LF becomes a space and every other character stays. */
  function FilterLineSeparator(value: Option<string>): (r: string)
    ensures value.None? ==> r == ""
    ensures value.Some? ==> |r| == |value.value|
    ensures value.Some? ==> forall i :: 0 <= i < |r| ==>
      (IsLineSeparator(value.value[i]) ==> r[i] == ' ') && (!IsLineSeparator(value.value[i]) ==> r[i] == value.value[i])
    decreases if value.Some? then |value.value| else 0
  {
    match value
    case None => ""
    case Some(s) =>
      if s == [] then ""
      else [if IsLineSeparator(s[0]) then ' ' else s[0]] + FilterLineSeparator(Some(s[1..]))
  }

  /** The filtered text can no longer break the line. */
  lemma FilteredHasNoLineSeparator(value: Option<string>)
    ensures HasNoLineSeparator(FilterLineSeparator(value))
  {
  }

  /** Filtering twice is filtering once, and text without CR or LF passes
      unchanged. */
  lemma {:induction false} FilterIdempotent(value: Option<string>)
    ensures FilterLineSeparator(Some(FilterLineSeparator(value))) == FilterLineSeparator(value)
  {
    FilterKeepsCleanText(FilterLineSeparator(value));
  }

  lemma FilterKeepsCleanText(s: string)
    requires HasNoLineSeparator(s)
    ensures FilterLineSeparator(Some(s)) == s
  {
  }

  // ------------------------------------------------------------ appendList

  /** The items separated by single commas. */
  function Join(items: seq<string>): string {
    if items == [] then ""
    else if |items| == 1 then items[0]
    else items[0] + "," + Join(items[1..])
  }

  lemma {:induction false} JoinSnoc(items: seq<string>, item: string)
    ensures Join(items + [item]) == if items == [] then item else Join(items) + "," + item
    decreases |items|
  {
    if |items| > 1 {
      assert (items + [item])[1..] == items[1..] + [item];
      JoinSnoc(items[1..], item);
    } else if |items| == 1 {
      assert (items + [item])[1..] == [item];
    }
  }

  /** `appendList(builder, items)`: a comma before every item but the first. */
  method AppendList(builder: string, items: seq<string>) returns (r: string)
    ensures r == builder + Join(items)
  {
    r := builder;
    var index := 0;
    while index < |items|
      invariant 0 <= index <= |items|
      invariant r == builder + Join(items[..index])
    {
      if index > 0 {
        r := r + ",";
      }
      r := r + items[index];
      JoinSnoc(items[..index], items[index]);
      assert items[..index + 1] == items[..index] + [items[index]];
      index := index + 1;
    }
    assert items[..index] == items;
  }

  /** Splits text at every comma. */
  function Split(s: string): (parts: seq<string>)
    ensures |parts| >= 1
  {
    if s == [] then [""]
    else
      var rest := Split(s[1..]);
      if s[0] == ',' then [""] + rest else [[s[0]] + rest[0]] + rest[1..]
  }

  predicate HasNoComma(s: string) {
    forall i :: 0 <= i < |s| ==> s[i] != ','
  }

  lemma {:induction false} SplitAfterPlainText(x: string, y: string)
    requires HasNoComma(x)
    ensures Split(x + y) == [x + Split(y)[0]] + Split(y)[1..]
    decreases |x|
  {
    if x != [] {
      assert (x + y)[1..] == x[1..] + y;
      SplitAfterPlainText(x[1..], y);
      assert [x[0]] + (x[1..] + Split(y)[0]) == x + Split(y)[0];
    } else {
      assert x + y == y;
      assert x + Split(y)[0] == Split(y)[0];
      assert Split(y) == [Split(y)[0]] + Split(y)[1..];
    }
  }

  /** The joined list reads back item by item when no item holds a comma:
      commas appear only between items, never leading or trailing. */
  lemma {:induction false} SplitJoin(items: seq<string>)
    requires items != []
    requires forall i :: 0 <= i < |items| ==> HasNoComma(items[i])
    ensures Split(Join(items)) == items
    decreases |items|
  {
    if |items| == 1 {
      SplitAfterPlainText(items[0], "");
      assert items[0] + "" == items[0];
    } else {
      SplitJoin(items[1..]);
      var tail := "," + Join(items[1..]);
      assert items[0] + "," + Join(items[1..]) == items[0] + tail;
      SplitAfterPlainText(items[0], tail);
      assert Split(tail) == [""] + items[1..];
      assert items[0] + "" == items[0];
    }
  }

  /** The joined length: every item plus one comma between each pair. */
  lemma {:induction false} JoinLength(items: seq<string>)
    ensures |Join(items)| == TotalLength(items) + (if items == [] then 0 else |items| - 1)
    decreases |items|
  {
    if |items| > 1 {
      JoinLength(items[1..]);
    }
  }

  function TotalLength(items: seq<string>): nat {
    if items == [] then 0 else |items[0]| + TotalLength(items[1..])
  }

  // -------------------------------------------------------------- segments

  /** What follows one " | ": the result word alone, or `key=value`. */
  datatype Segment = Bare(text: string) | Field(key: string, value: string)

  function RenderSegment(s: Segment): string {
    match s
    case Bare(text) => LOG_SPLITTER + text
    case Field(key, value) => LOG_SPLITTER + key + "=" + value
  }

  function Render(segments: seq<Segment>): string {
    if segments == [] then "" else Render(segments[..|segments| - 1]) + RenderSegment(segments[|segments| - 1])
  }

  lemma RenderSnoc(segments: seq<Segment>, s: Segment)
    ensures Render(segments + [s]) == Render(segments) + RenderSegment(s)
  {
    assert (segments + [s])[..|segments|] == segments;
  }

  datatype PerformanceStat = PerformanceStat(count: int, totalElapsed: string,
                                             readEntries: Option<int>, writeEntries: Option<int>)

  /** An action log as the appender reads it; `elapsed`, `cpuTime`, the stat
      values and each `totalElapsed` come already formatted. */
  datatype ActionLogMessage = ActionLogMessage(
    date: string, result: string, elapsed: string, id: string, action: string,
    correlationIds: Option<seq<string>>, errorCode: Option<string>, errorMessage: Option<string>,
    cpuTime: string, context: seq<(string, seq<Option<string>>)>,
    clients: Option<seq<string>>, refIds: Option<seq<string>>,
    stats: Option<seq<(string, string)>>, performanceStats: seq<(string, PerformanceStat)>)

  /** A list segment present exactly when the list is not null. */
  function ListSegments(key: string, items: Option<seq<string>>): (r: seq<Segment>)
    ensures r == [] <==> items.None?
    ensures items.Some? ==> r == [Field(key, Join(items.value))]
  {
    if items.None? then [] else [Field(key, Join(items.value))]
  }

  /** `error_code` and the line-filtered `error_message`, present exactly
      when there is an error code. */
  function ErrorSegments(errorCode: Option<string>, errorMessage: Option<string>): (r: seq<Segment>)
    ensures r == [] <==> errorCode.None?
    ensures errorCode.Some? ==> |r| == 2 && r[0] == Field("error_code", errorCode.value)
    ensures errorCode.Some? ==> r[1] == Field("error_message", FilterLineSeparator(errorMessage))
    ensures errorCode.Some? ==> HasNoLineSeparator(r[1].value)
    ensures errorCode.Some? && errorMessage.None? ==> r[1].value == ""
  {
    FilteredHasNoLineSeparator(errorMessage);
    if errorCode.None? then []
    else [Field("error_code", errorCode.value), Field("error_message", FilterLineSeparator(errorMessage))]
  }

  /** One segment per value of a context key, in list order, filtered. */
  function ValueSegments(key: string, values: seq<Option<string>>): seq<Segment> {
    if values == [] then []
    else ValueSegments(key, values[..|values| - 1]) + [Field(key, FilterLineSeparator(values[|values| - 1]))]
  }

  function ContextSegments(context: seq<(string, seq<Option<string>>)>): seq<Segment> {
    if context == [] then []
    else
      var last := context[|context| - 1];
      ContextSegments(context[..|context| - 1]) + ValueSegments(last.0, last.1)
  }

  function StatSegments(stats: seq<(string, string)>): (r: seq<Segment>)
    ensures |r| == |stats|
    ensures forall j :: 0 <= j < |stats| ==> r[j] == Field(stats[j].0, stats[j].1)
  {
    if stats == [] then [] else StatSegments(stats[..|stats| - 1]) + [Field(stats[|stats| - 1].0, stats[|stats| - 1].1)]
  }

  lemma StatSegmentsSnoc(stats: seq<(string, string)>, i: nat)
    requires i < |stats|
    ensures StatSegments(stats[..i + 1]) == StatSegments(stats[..i]) + [Field(stats[i].0, stats[i].1)]
  {
    assert stats[..i + 1][..i] == stats[..i];
  }

  /** A context key contributes one segment per value, in list order, each
      value line-filtered. */
  lemma {:induction false} ValueSegmentsInOrder(key: string, values: seq<Option<string>>)
    ensures |ValueSegments(key, values)| == |values|
    ensures forall j :: 0 <= j < |values| ==> ValueSegments(key, values)[j] == Field(key, FilterLineSeparator(values[j]))
    decreases |values|
  {
    if values != [] {
      ValueSegmentsInOrder(key, values[..|values| - 1]);
    }
  }

  lemma ValueSegmentsSnoc(key: string, values: seq<Option<string>>, j: nat)
    requires j < |values|
    ensures ValueSegments(key, values[..j + 1])
      == ValueSegments(key, values[..j]) + [Field(key, FilterLineSeparator(values[j]))]
  {
    assert values[..j + 1][..j] == values[..j];
  }

  lemma ContextSegmentsSnoc(context: seq<(string, seq<Option<string>>)>, i: nat)
    requires i < |context|
    ensures ContextSegments(context[..i + 1]) == ContextSegments(context[..i]) + ValueSegments(context[i].0, context[i].1)
  {
    assert context[..i + 1][..i] == context[..i];
  }

  lemma PerformanceSegmentsSnoc(stats: seq<(string, PerformanceStat)>, k: nat)
    requires k < |stats|
    ensures PerformanceSegments(stats[..k + 1])
      == PerformanceSegments(stats[..k]) + PerformanceStatSegments(stats[k].0, stats[k].1)
  {
    assert stats[..k + 1][..k] == stats[..k];
  }

  /** A `key=<decimal>` segment when the number is known, nothing otherwise. */
  function OptionalCount(key: string, n: Option<int>): seq<Segment> {
    if n.Some? then [Field(key, Text.DecimalString(n.value))] else []
  }

  /** The segments of one performance stat, in the order they are written. */
  function PerformanceStatSegments(key: string, stat: PerformanceStat): seq<Segment> {
    [Field(key + "_count", Text.DecimalString(stat.count))]
      + OptionalCount(key + "_reads", stat.readEntries)
      + OptionalCount(key + "_writes", stat.writeEntries)
      + [Field(key + "_elapsed", stat.totalElapsed)]
  }

  /** `_count` first and `_elapsed` last, always; `_reads` right after
      `_count` exactly when the read count is known, and `_writes` right
      before `_elapsed` exactly when the write count is known. */
  lemma PerformanceStatSegmentsPresence(key: string, stat: PerformanceStat)
    ensures var r := PerformanceStatSegments(key, stat);
      && |r| == 2 + (if stat.readEntries.Some? then 1 else 0) + (if stat.writeEntries.Some? then 1 else 0)
      && r[0] == Field(key + "_count", Text.DecimalString(stat.count))
      && r[|r| - 1] == Field(key + "_elapsed", stat.totalElapsed)
      && (stat.readEntries.Some? <==> r[1].key == key + "_reads")
      && (stat.writeEntries.Some? <==> r[|r| - 2].key == key + "_writes")
      && (stat.readEntries.Some? ==> r[1].value == Text.DecimalString(stat.readEntries.value))
      && (stat.writeEntries.Some? ==> r[|r| - 2].value == Text.DecimalString(stat.writeEntries.value))
  {
    var r := PerformanceStatSegments(key, stat);
    assert |key + "_reads"| == |key| + 6;
    assert |key + "_writes"| == |key| + 7;
    assert |key + "_elapsed"| == |key| + 8;
    assert (key + "_count")[|key| + 1] == 'c' && (key + "_writes")[|key| + 1] == 'w';
  }

  function PerformanceSegments(stats: seq<(string, PerformanceStat)>): seq<Segment> {
    if stats == [] then []
    else
      var last := stats[|stats| - 1];
      PerformanceSegments(stats[..|stats| - 1]) + PerformanceStatSegments(last.0, last.1)
  }

  /** The segments every action log line starts with, up to `cpu_time`. */
  function HeadSegments(log: ActionLogMessage): seq<Segment> {
    [Bare(log.result), Field("elapsed", log.elapsed), Field("id", log.id), Field("action", log.action)]
      + ListSegments("correlation_id", log.correlationIds)
      + ErrorSegments(log.errorCode, log.errorMessage)
      + [Field("cpu_time", log.cpuTime)]
  }

  /** The segments of an action log line, in the order they are written. */
  function ActionLogSegments(log: ActionLogMessage): seq<Segment> {
    HeadSegments(log)
      + ContextSegments(log.context)
      + ListSegments("client", log.clients)
      + ListSegments("ref_id", log.refIds)
      + (if log.stats.Some? then StatSegments(log.stats.value) else [])
      + PerformanceSegments(log.performanceStats)
  }

  /** Appends one segment to the line being built. */
  method Append(line: string, ghost segments: seq<Segment>, ghost date: string, s: Segment)
    returns (line': string, ghost segments': seq<Segment>)
    requires line == date + Render(segments)
    ensures line' == date + Render(segments') && segments' == segments + [s]
  {
    if s.Bare? {
      line' := line + LOG_SPLITTER + s.text;
      Assoc(line, LOG_SPLITTER, s.text);
    } else {
      line' := line + LOG_SPLITTER + s.key + "=" + s.value;
      Regroup(line, LOG_SPLITTER, s.key, "=", s.value);
    }
    segments' := segments + [s];
    RenderSnoc(segments, s);
    Assoc(date, Render(segments), RenderSegment(s));
  }

  /** One `key=value` segment per stat, in map order. */
  method AppendStats(line: string, ghost segments: seq<Segment>, ghost date: string, stats: seq<(string, string)>)
    returns (line': string, ghost segments': seq<Segment>)
    requires line == date + Render(segments)
    ensures line' == date + Render(segments') && segments' == segments + StatSegments(stats)
  {
    line', segments' := line, segments;
    var i := 0;
    while i < |stats|
      invariant 0 <= i <= |stats|
      invariant line' == date + Render(segments')
      invariant segments' == segments + StatSegments(stats[..i])
    {
      line', segments' := Append(line', segments', date, Field(stats[i].0, stats[i].1));
      StatSegmentsSnoc(stats, i);
      Assoc(segments, StatSegments(stats[..i]), [Field(stats[i].0, stats[i].1)]);
      i := i + 1;
    }
    assert stats[..i] == stats;
  }

  /** `message(StatMessage)`: the date, then one segment per stat. */
  method StatMessage(date: string, stats: seq<(string, string)>) returns (line: string)
    ensures line == date + Render(StatSegments(stats))
  {
    line := date;
    assert line == date + Render([]);
    ghost var segments: seq<Segment>;
    line, segments := AppendStats(line, [], date, stats);
    assert [] + StatSegments(stats) == StatSegments(stats);
  }

  /** One segment per value of one context key. */
  method AppendValues(line: string, ghost segments: seq<Segment>, ghost date: string,
                      key: string, values: seq<Option<string>>)
    returns (line': string, ghost segments': seq<Segment>)
    requires line == date + Render(segments)
    ensures line' == date + Render(segments') && segments' == segments + ValueSegments(key, values)
  {
    line', segments' := line, segments;
    var j := 0;
    while j < |values|
      invariant 0 <= j <= |values|
      invariant line' == date + Render(segments')
      invariant segments' == segments + ValueSegments(key, values[..j])
    {
      line', segments' := Append(line', segments', date, Field(key, FilterLineSeparator(values[j])));
      ValueSegmentsSnoc(key, values, j);
      Assoc(segments, ValueSegments(key, values[..j]), [Field(key, FilterLineSeparator(values[j]))]);
      j := j + 1;
    }
    assert values[..j] == values;
  }

  /** For each context key, one segment per value, values filtered. */
  method AppendContext(line: string, ghost segments: seq<Segment>, ghost date: string,
                       context: seq<(string, seq<Option<string>>)>)
    returns (line': string, ghost segments': seq<Segment>)
    requires line == date + Render(segments)
    ensures line' == date + Render(segments') && segments' == segments + ContextSegments(context)
  {
    line', segments' := line, segments;
    var i := 0;
    while i < |context|
      invariant 0 <= i <= |context|
      invariant line' == date + Render(segments')
      invariant segments' == segments + ContextSegments(context[..i])
    {
      line', segments' := AppendValues(line', segments', date, context[i].0, context[i].1);
      ContextSegmentsSnoc(context, i);
      Assoc(segments, ContextSegments(context[..i]), ValueSegments(context[i].0, context[i].1));
      i := i + 1;
    }
    assert context[..i] == context;
  }

  lemma Regroup<T>(s: seq<T>, a: seq<T>, b: seq<T>, c: seq<T>, d: seq<T>)
    ensures s + a + b + c + d == s + (a + b + c + d)
  {
  }

  method AppendOptionalCount(line: string, ghost segments: seq<Segment>, ghost date: string,
                             key: string, n: Option<int>)
    returns (line': string, ghost segments': seq<Segment>)
    requires line == date + Render(segments)
    ensures line' == date + Render(segments') && segments' == segments + OptionalCount(key, n)
  {
    if n.Some? {
      line', segments' := Append(line, segments, date, Field(key, Text.DecimalString(n.value)));
    } else {
      line', segments' := line, segments;
    }
  }

  /** One performance stat: `_count`, `_reads` and `_writes` when known,
      `_elapsed`. */
  method AppendPerformanceStat(line: string, ghost segments: seq<Segment>, ghost date: string,
                               key: string, tracking: PerformanceStat)
    returns (line': string, ghost segments': seq<Segment>)
    requires line == date + Render(segments)
    ensures line' == date + Render(segments') && segments' == segments + PerformanceStatSegments(key, tracking)
  {
    line', segments' := Append(line, segments, date, Field(key + "_count", Text.DecimalString(tracking.count)));
    line', segments' := AppendOptionalCount(line', segments', date, key + "_reads", tracking.readEntries);
    line', segments' := AppendOptionalCount(line', segments', date, key + "_writes", tracking.writeEntries);
    line', segments' := Append(line', segments', date, Field(key + "_elapsed", tracking.totalElapsed));
    Regroup(segments, [Field(key + "_count", Text.DecimalString(tracking.count))],
      OptionalCount(key + "_reads", tracking.readEntries), OptionalCount(key + "_writes", tracking.writeEntries),
      [Field(key + "_elapsed", tracking.totalElapsed)]);
  }

  /** Every performance stat, in map order. */
  method AppendPerformanceStats(line: string, ghost segments: seq<Segment>, ghost date: string,
                                stats: seq<(string, PerformanceStat)>)
    returns (line': string, ghost segments': seq<Segment>)
    requires line == date + Render(segments)
    ensures line' == date + Render(segments') && segments' == segments + PerformanceSegments(stats)
  {
    line', segments' := line, segments;
    var k := 0;
    while k < |stats|
      invariant 0 <= k <= |stats|
      invariant line' == date + Render(segments')
      invariant segments' == segments + PerformanceSegments(stats[..k])
    {
      line', segments' := AppendPerformanceStat(line', segments', date, stats[k].0, stats[k].1);
      PerformanceSegmentsSnoc(stats, k);
      Assoc(segments, PerformanceSegments(stats[..k]), PerformanceStatSegments(stats[k].0, stats[k].1));
      k := k + 1;
    }
    assert stats[..k] == stats;
  }

  /** `" | key="` and then the list through `appendList`, when the list is
      not null. */
  method AppendListSegment(line: string, ghost segments: seq<Segment>, ghost date: string,
                           key: string, items: Option<seq<string>>)
    returns (line': string, ghost segments': seq<Segment>)
    requires line == date + Render(segments)
    ensures line' == date + Render(segments') && segments' == segments + ListSegments(key, items)
  {
    if items.Some? {
      line' := AppendList(line + LOG_SPLITTER + key + "=", items.value);
      RenderSnoc(segments, Field(key, Join(items.value)));
      Regroup(line, LOG_SPLITTER, key, "=", Join(items.value));
      Assoc(date, Render(segments), RenderSegment(Field(key, Join(items.value))));
      segments' := segments + [Field(key, Join(items.value))];
    } else {
      line', segments' := line, segments;
    }
  }

  /** `error_code` and the filtered `error_message`, when there is an error
      code. */
  method AppendErrorSegments(line: string, ghost segments: seq<Segment>, ghost date: string,
                             errorCode: Option<string>, errorMessage: Option<string>)
    returns (line': string, ghost segments': seq<Segment>)
    requires line == date + Render(segments)
    ensures line' == date + Render(segments') && segments' == segments + ErrorSegments(errorCode, errorMessage)
  {
    if errorCode.Some? {
      line', segments' := Append(line, segments, date, Field("error_code", errorCode.value));
      line', segments' := Append(line', segments', date, Field("error_message", FilterLineSeparator(errorMessage)));
    } else {
      line', segments' := line, segments;
    }
  }

  /** The date and the segments up to `cpu_time`. */
  method MessageHead(log: ActionLogMessage) returns (line: string)
    ensures line == log.date + Render(HeadSegments(log))
  {
    ghost var segments: seq<Segment> := [];
    line := log.date;
    line, segments := Append(line, segments, log.date, Bare(log.result));
    line, segments := Append(line, segments, log.date, Field("elapsed", log.elapsed));
    line, segments := Append(line, segments, log.date, Field("id", log.id));
    line, segments := Append(line, segments, log.date, Field("action", log.action));
    assert segments == [Bare(log.result), Field("elapsed", log.elapsed), Field("id", log.id), Field("action", log.action)];
    line, segments := AppendListSegment(line, segments, log.date, "correlation_id", log.correlationIds);
    line, segments := AppendErrorSegments(line, segments, log.date, log.errorCode, log.errorMessage);
    line, segments := Append(line, segments, log.date, Field("cpu_time", log.cpuTime));
  }

  /** `message(ActionLogMessage)`: the date, then every segment in order. */
  method Message(log: ActionLogMessage) returns (line: string)
    ensures line == log.date + Render(ActionLogSegments(log))
  {
    ghost var segments: seq<Segment>;
    line := MessageHead(log);
    segments := HeadSegments(log);
    line, segments := AppendContext(line, segments, log.date, log.context);
    line, segments := AppendListSegment(line, segments, log.date, "client", log.clients);
    line, segments := AppendListSegment(line, segments, log.date, "ref_id", log.refIds);
    if log.stats.Some? {
      line, segments := AppendStats(line, segments, log.date, log.stats.value);
    } else {
      assert segments + [] == segments;
    }
    line, segments := AppendPerformanceStats(line, segments, log.date, log.performanceStats);
  }
}
