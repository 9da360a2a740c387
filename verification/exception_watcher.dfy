/** `ExceptionWatcher`: reports each distinct throwable of a request once, as an `exception` record appended to
    the log file, with a preview of the source around the failing line and the first frames of its trace. */
module ExceptionWatcher {

  import opened Values
  import opened Text
  import opened Jsonl
  import TraceContext

  /** The default of `formatExceptionData`'s `$traceLimit`. */
  const TraceLimit: nat := 10

  /** Lines shown on each side of the failing line. */
  const PreviewRadius: int := 10

  /** Appended to the failing line in the preview. */
  const ErrorLineMarker: string := "    // <--- error line"

  /** What is read from a throwable: `get_class($e)`, `getFile()`, `getLine()`, `getMessage()` and
      `getTrace()`, whose frames are PHP arrays. */
  datatype Fault = Fault(className: string, file: string, line: int, message: string, trace: seq<Value>)

  /** The text `fingerprint` hashes: class, file, line and message joined by `|`. md5 is taken to be
      injective, so two throwables are the same report exactly when their texts are equal. */
  function Fingerprint(f: Fault): string {
    f.className + "|" + f.file + "|" + DecimalString(f.line) + "|" + f.message
  }

  /** Joining with a separator that may occur inside the fields is ambiguous: a file path containing `|`
      can make two different throwables share a fingerprint, and the second is then never reported. */
  lemma FingerprintAmbiguous()
    ensures var a := Fault("E", "a|1", 2, "m", []);
      var b := Fault("E", "a", 1, "2|m", []);
      a.file != b.file && Fingerprint(a) == Fingerprint(b)
  {
    assert DecimalString(2) == "2";
    assert DecimalString(1) == "1";
  }

  /** One field of the corrected fingerprint: its length, a colon, then the text, as PHP's `serialize` writes a
      string. */
  function Prefixed(s: string): string {
    DecimalString(|s|) + ":" + s
  }

  /** The fingerprint text with every field length-prefixed instead of joined by `|`. */
  function FixedFingerprint(f: Fault): string {
    Prefixed(f.className) + (Prefixed(f.file) + (Prefixed(DecimalString(f.line)) + Prefixed(f.message)))
  }

  /** A length-prefixed field is read back unambiguously from the front of any text. */
  lemma PrefixedSplit(a: string, x: string, b: string, y: string)
    requires Prefixed(a) + x == Prefixed(b) + y
    ensures a == b && x == y
  {
    var da, db := DecimalString(|a|), DecimalString(|b|);
    var t := Prefixed(a) + x;
    NaturalDigits(|a|);
    NaturalDigits(|b|);
    assert t == da + ([':'] + (a + x));
    assert t == db + ([':'] + (b + y));
    assert forall i :: 0 <= i < |da| ==> t[i] == da[i] && da[i] in da;
    assert forall i :: 0 <= i < |db| ==> t[i] == db[i] && db[i] in db;
    assert t[|da|] == ':' && t[|db|] == ':';
    assert |da| == |db|;
    assert da == t[..|da|] == db;
    DecimalStringInjective(|a|, |b|);
    assert a == t[|da| + 1..|da| + 1 + |a|] == b;
    assert x == t[|da| + 1 + |a|..] == y;
  }

  /** The corrected fingerprint tells throwables apart: two faults share it only when their class, file, line
      and message all agree. */
  lemma FixedFingerprintInjective(f: Fault, g: Fault)
    requires FixedFingerprint(f) == FixedFingerprint(g)
    ensures f.className == g.className && f.file == g.file && f.line == g.line && f.message == g.message
  {
    var fl, gl := DecimalString(f.line), DecimalString(g.line);
    PrefixedSplit(f.className, Prefixed(f.file) + (Prefixed(fl) + Prefixed(f.message)),
                  g.className, Prefixed(g.file) + (Prefixed(gl) + Prefixed(g.message)));
    PrefixedSplit(f.file, Prefixed(fl) + Prefixed(f.message), g.file, Prefixed(gl) + Prefixed(g.message));
    PrefixedSplit(fl, Prefixed(f.message), gl, Prefixed(g.message));
    DecimalStringInjective(f.line, g.line);
    assert Prefixed(f.message) + "" == Prefixed(g.message) + "";
    PrefixedSplit(f.message, "", g.message, "");
  }

  /** The two throwables that share the as-written fingerprint have different corrected ones. */
  lemma FixedFingerprintSeparates()
    ensures FixedFingerprint(Fault("E", "a|1", 2, "m", [])) != FixedFingerprint(Fault("E", "a", 1, "2|m", []))
  {
    var a := Fault("E", "a|1", 2, "m", []);
    var b := Fault("E", "a", 1, "2|m", []);
    if FixedFingerprint(a) == FixedFingerprint(b) {
      FixedFingerprintInjective(a, b);
    }
  }

  /** `file($path, FILE_IGNORE_NEW_LINES)`: the lines of a file, without their newlines, empty ones kept; a
      final newline does not start another line. */
  function SourceLines(text: string): seq<string> {
    if |text| == 0 then []
    else if text[|text| - 1] == '\n' then Split(text[..|text| - 1], '\n')
    else Split(text, '\n')
  }

  /** The preview entry for 0-based line index `i`. */
  function PreviewEntry(lines: seq<string>, line: int, i: nat): (string, Value)
    requires i < |lines|
  {
    (DecimalString(i + 1), Str(if i + 1 == line then lines[i] + ErrorLineMarker else lines[i]))
  }

  /** The source preview as the loop of `formatExceptionData` builds it: indices from `max(line - 10, 0)` up
      to, not including, `min(line + 10, count)`, each keyed by its 1-based line number. */
  function Preview(lines: seq<string>, line: int): (p: Entries)
    ensures |p| == Max(0, Min(line + PreviewRadius, |lines|) - Max(line - PreviewRadius, 0))
  {
    var start := Max(line - PreviewRadius, 0);
    var end := Min(line + PreviewRadius, |lines|);
    seq(Max(0, end - start), j requires 0 <= j < Max(0, end - start) => PreviewEntry(lines, line, start + j))
  }

  /** The preview loop of `formatExceptionData`, as the `for` statement runs it. */
  method BuildPreview(lines: seq<string>, line: int) returns (p: Entries)
    ensures p == Preview(lines, line)
  {
    var start := Max(line - PreviewRadius, 0);
    var end := Min(line + PreviewRadius, |lines|);
    p := [];
    var i := start;
    while i < end
      invariant start <= i <= Max(start, end) && end <= |lines|
      invariant |p| == i - start
      invariant forall j :: 0 <= j < |p| ==> start + j < |lines| && p[j] == PreviewEntry(lines, line, start + j)
    {
      var content := lines[i];
      if i + 1 == line {
        content := content + ErrorLineMarker;
      }
      assert (DecimalString(i + 1), Str(content)) == PreviewEntry(lines, line, i);
      p := p + [(DecimalString(i + 1), Str(content))];
      i := i + 1;
    }
    assert |p| == Max(0, end - start);
    assert forall j :: 0 <= j < |p| ==> p[j] == Preview(lines, line)[j];
  }

  /** The preview covers the contiguous lines `max(line - 9, 1)` to `min(line + 10, count)` (1-based), in
      order; only the failing line carries the marker, every other line is verbatim. */
  lemma PreviewWindow(lines: seq<string>, line: int)
    ensures var p := Preview(lines, line);
      var first := Max(line - (PreviewRadius - 1), 1);
      var last := Min(line + PreviewRadius, |lines|);
      && |p| == Max(0, last - first + 1)
      && forall j :: 0 <= j < |p| ==>
           && 1 <= first + j <= last
           && p[j].0 == DecimalString(first + j)
           && (first + j == line ==> p[j].1 == Str(lines[first + j - 1] + ErrorLineMarker))
           && (first + j != line ==> p[j].1 == Str(lines[first + j - 1]))
  {
    var p := Preview(lines, line);
    var start := Max(line - PreviewRadius, 0);
    forall j | 0 <= j < |p|
      ensures p[j] == PreviewEntry(lines, line, start + j)
    {
    }
  }

  /** One trace frame: exactly `file`, `line`, `function` and `class`, each null when the frame lacks it. */
  function Frame(t: Value): (r: Value)
    ensures r.Arr? && KeysOf(r.entries) == ["file", "line", "function", "class"]
    ensures forall k :: k in KeysOf(r.entries) ==> Lookup(r.entries, k) == Some(Field(t, k))
  {
    var r := Arr([("file", Field(t, "file")), ("line", Field(t, "line")), ("function", Field(t, "function")),
                  ("class", Field(t, "class"))]);
    LookupFirst(r.entries, "file", 0);
    LookupFirst(r.entries, "line", 1);
    LookupFirst(r.entries, "function", 2);
    LookupFirst(r.entries, "class", 3);
    r
  }

  /** `array_map(..., array_slice($e->getTrace(), 0, $traceLimit))`: the first `traceLimit` frames at most. */
  function Frames(trace: seq<Value>, traceLimit: nat): (fs: seq<Value>)
    ensures |fs| == Min(traceLimit, |trace|)
    ensures forall i :: 0 <= i < |fs| ==> fs[i] == Frame(trace[i])
  {
    seq(Min(traceLimit, |trace|), i requires 0 <= i < Min(traceLimit, |trace|) => Frame(trace[i]))
  }

  /** `formatExceptionData($e, $traceLimit)`; `source` is the text of the throwing file when it is a
      readable file, `None` otherwise (the preview is then empty). */
  function FormatExceptionData(f: Fault, source: Option<string>, traceLimit: nat): Value {
    var preview := if source.Some? then Preview(SourceLines(source.value), f.line) else [];
    Arr([
      ("message", Str(f.message)),
      ("class", Str(f.className)),
      ("file", Str(f.file)),
      ("line", Int(f.line)),
      ("line_preview", Arr(preview)),
      ("trace", ListOf(Frames(f.trace, traceLimit)))
    ])
  }

  /** The shape of the formatted data: an empty preview for an unreadable file, and at most `traceLimit`
      frames. */
  lemma FormatExceptionDataShape(f: Fault, source: Option<string>, traceLimit: nat)
    ensures var d := FormatExceptionData(f, source, traceLimit);
      && (source.None? ==> Field(d, "line_preview") == Arr([]))
      && Field(d, "trace").Arr?
      && |Field(d, "trace").entries| == Min(traceLimit, |f.trace|)
  {
    var es := FormatExceptionData(f, source, traceLimit).entries;
    LookupFirst(es, "line_preview", 4);
    LookupFirst(es, "trace", 5);
  }

  /** The watcher's state over a request: fingerprints already reported, the trace-id stores and the text of
      the log file. */
  datatype Watch = Watch(reported: set<string>, stores: TraceContext.Stores, file: string)

  /** The record written for a throwable. */
  function ExceptionRecord(time: string, traceId: Value, user: Value, context: Value): Value {
    Arr([
      ("time", Str(time)),
      ("trace_id", traceId),
      ("event", Str("exception")),
      ("level", Str("error")),
      ("user", user),
      ("context", context),
      ("from", Str("expWatcher"))
    ])
  }

  /** Every exception record has event `exception` and level `error`. */
  lemma ExceptionRecordFields(time: string, traceId: Value, user: Value, context: Value)
    ensures var r := ExceptionRecord(time, traceId, user, context);
      Field(r, "event") == Str("exception") && Field(r, "level") == Str("error")
  {
    var es := ExceptionRecord(time, traceId, user, context).entries;
    LookupFirst(es, "event", 2);
    LookupFirst(es, "level", 3);
  }

  /** The `reportable` callback for one throwable. `source` is the throwing file's text when readable,
      `newId` the id a trace-id generation would use, `locked` whether `flock(LOCK_EX)` is granted. A
      throwable already reported changes nothing; otherwise its fingerprint is recorded before the write, so
      it counts as reported even when the lock is refused and nothing is written. */
  function Report(w: Watch, f: Fault, source: Option<string>, time: string, user: Value, newId: string,
                  locked: bool, codec: Codec): (r: Watch)
    ensures w.reported <= r.reported
    ensures Fingerprint(f) in r.reported
    ensures Fingerprint(f) in w.reported ==> r == w
    ensures r.reported - w.reported <= {Fingerprint(f)}
    ensures !locked ==> r.file == w.file
    ensures |w.file| <= |r.file| && r.file[..|w.file|] == w.file
  {
    var fp := Fingerprint(f);
    if fp in w.reported then w
    else
      var context := FormatExceptionData(f, source, TraceLimit);
      var (stores, traceId) := TraceContext.GetTraceId(w.stores, newId);
      var record := ExceptionRecord(time, traceId, user, context);
      var file := if locked then AppendLine(w.file, EncodeText(codec, record)) else w.file;
      Watch(w.reported + {fp}, stores, file)
  }

  /** Reporting the same throwable again, in any circumstances, changes nothing. */
  lemma ReportOnce(w: Watch, f: Fault, source: Option<string>, time: string, user: Value, newId: string,
                   locked: bool, codec: Codec, source2: Option<string>, time2: string, user2: Value,
                   newId2: string, locked2: bool)
    ensures var w1 := Report(w, f, source, time, user, newId, locked, codec);
      Report(w1, f, source2, time2, user2, newId2, locked2, codec) == w1
  {
  }

  /** A first report under the lock adds one line to what the log file reads back as: the encoded record,
      which carries the trace id `getTraceId` resolves. */
  lemma ReportAppendsOneLine(w: Watch, f: Fault, source: Option<string>, time: string, user: Value, newId: string,
                             codec: Codec)
    requires Fingerprint(f) !in w.reported
    requires AtLineBoundary(w.file)
    requires OneLine(codec)
    ensures var r := Report(w, f, source, time, user, newId, true, codec);
      var traceId := TraceContext.GetTraceId(w.stores, newId).1;
      var record := ExceptionRecord(time, traceId, user, FormatExceptionData(f, source, TraceLimit));
      && Lines(r.file) == Lines(w.file) + NonEmpty([EncodeText(codec, record)])
      && Field(record, "trace_id") == traceId
      && AtLineBoundary(r.file)
  {
    var context := FormatExceptionData(f, source, TraceLimit);
    var traceId := TraceContext.GetTraceId(w.stores, newId).1;
    var record := ExceptionRecord(time, traceId, user, context);
    LinesAfterAppend(w.file, EncodeText(codec, record));
    LookupFirst(record.entries, "trace_id", 1);
  }
}
