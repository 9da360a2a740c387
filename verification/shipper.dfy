/** The jobs that ship the log file to the ingest endpoint in batches: `LogSenderJob` (the scheduled one)
    and the older `FlushLogJob`. The HTTP exchange is an input: the status that came back, or an error thrown
    on the way. */
module Shipper {

  import opened Values
  import opened Text
  import opened Jsonl

  /** Lines sent per run. */
  const BatchSize: nat := 100

  /** How the POST to `/api/ingest` ended. */
  datatype HttpOutcome = Status(code: int) | Threw

  /** What a run leaves behind: the log file (`None` when there is none), the decoded batch that was posted
      (`None` when nothing was posted) and the content of the payload file (`None` when it was not written). */
  datatype Run = Run(file: Option<string>, sent: Option<seq<Value>>, payload: Option<seq<Value>>)

  /** The guard both jobs share: a non-empty API key (`empty($token)` is false), an existing log file, and at
      least one non-empty line in it. */
  predicate ShouldShip(token: Value, file: Option<string>) {
    Truthy(token) && file.Some? && |Lines(file.value)| > 0
  }

  /** `array_map(fn ($line) => json_decode($line, true), array_slice($lines, 0, 100))`. */
  function Batch(lines: seq<string>, codec: Codec): (b: seq<Value>)
    ensures |b| == Min(BatchSize, |lines|)
    ensures forall i :: 0 <= i < |b| ==> b[i] == DecodeOrNull(codec, lines[i])
  {
    seq(Min(BatchSize, |lines|), i requires 0 <= i < Min(BatchSize, |lines|) => DecodeOrNull(codec, lines[i]))
  }

  /** `array_slice($lines, 100)` */
  function Remaining(lines: seq<string>): (rest: seq<string>)
    ensures |rest| == |lines| - Min(BatchSize, |lines|)
  {
    lines[Min(BatchSize, |lines|)..]
  }

  /** `LogSenderJob::handle()`: `token` is `config('serap.api_key')` and `file` the log file's text, if it
      exists. */
  function SendLogs(token: Value, file: Option<string>, outcome: HttpOutcome, codec: Codec): (r: Run)
    ensures !ShouldShip(token, file) ==> r == Run(file, None, None)
    ensures ShouldShip(token, file) ==> r.sent == Some(Batch(Lines(file.value), codec))
    ensures r.payload.Some? <==> ShouldShip(token, file) && outcome.Status?
    ensures r.payload.Some? ==> r.payload == r.sent
    ensures ShouldShip(token, file) && outcome.Status? && outcome.code in {200, 201} ==>
      r.file.Some? && Lines(r.file.value) == Remaining(Lines(file.value)) && AtLineBoundary(r.file.value)
    ensures !(outcome.Status? && outcome.code in {200, 201}) ==> r.file == file
  {
    if !ShouldShip(token, file) then Run(file, None, None)
    else
      var lines := Lines(file.value);
      var logs := Batch(lines, codec);
      match outcome
      case Threw => Run(file, Some(logs), None)
      case Status(code) =>
        if code == 200 || code == 201 then
          var rest := Remaining(lines);
          LinesOfJoin(rest, true);
          Run(Some(JoinLines(rest, true)), Some(logs), Some(logs))
        else Run(file, Some(logs), Some(logs))
  }

  /** A successful run removes exactly the batch: 150 lines become 50. */
  lemma SendLogsExample(token: Value, file: string, codec: Codec)
    requires Truthy(token)
    requires |Lines(file)| == 150
    ensures var r := SendLogs(token, Some(file), Status(200), codec);
      |r.sent.value| == 100 && |Lines(r.file.value)| == 50
  {
  }

  /** A successful run with at most one batch of lines leaves an empty log file. */
  lemma SendLogsEmptiesSmallFile(token: Value, file: string, code: int, codec: Codec)
    requires Truthy(token)
    requires 0 < |Lines(file)| <= BatchSize
    requires code == 200 || code == 201
    ensures SendLogs(token, Some(file), Status(code), codec).file == Some("")
  {
  }

  /** The outcome depends on the file only through its non-empty lines: blank lines are dropped by the
      rewrite, and nothing but the snapshot read at the start decides what remains. */
  lemma SendLogsUsesSnapshotOnly(token: Value, file1: string, file2: string, outcome: HttpOutcome, codec: Codec)
    requires ShouldShip(token, Some(file1))
    requires Lines(file1) == Lines(file2)
    ensures SendLogs(token, Some(file1), outcome, codec).sent == SendLogs(token, Some(file2), outcome, codec).sent
    ensures outcome.Status? && outcome.code in {200, 201} ==>
      SendLogs(token, Some(file1), outcome, codec) == SendLogs(token, Some(file2), outcome, codec)
  {
  }

  /** `$response->successful()`: a 2xx status. */
  predicate Successful(outcome: HttpOutcome) {
    outcome.Status? && 200 <= outcome.code < 300
  }

  /** `FlushLogJob::handle()` as written: the same guard and batch; any 2xx status rewrites the file with the
      remaining lines joined by newlines and no newline after the last one; anything else leaves it alone.
      It writes no payload file. */
  function FlushLogs(token: Value, file: Option<string>, outcome: HttpOutcome, codec: Codec): (r: Run)
    ensures !ShouldShip(token, file) ==> r == Run(file, None, None)
    ensures ShouldShip(token, file) ==> r.sent == Some(Batch(Lines(file.value), codec))
    ensures r.payload.None?
    ensures ShouldShip(token, file) && Successful(outcome) ==>
      r.file.Some? && Lines(r.file.value) == Remaining(Lines(file.value))
    ensures !Successful(outcome) ==> r.file == file
  {
    if !ShouldShip(token, file) then Run(file, None, None)
    else
      var lines := Lines(file.value);
      var logs := Batch(lines, codec);
      if Successful(outcome) then
        var rest := Remaining(lines);
        LinesOfJoin(rest, false);
        Run(Some(JoinLines(rest, false)), Some(logs), None)
      else Run(file, Some(logs), None)
  }

  /** A successful run with at most one batch of lines leaves an empty log file. */
  lemma FlushLogsEmptiesSmallFile(token: Value, file: string, outcome: HttpOutcome, codec: Codec)
    requires Truthy(token)
    requires 0 < |Lines(file)| <= BatchSize
    requires Successful(outcome)
    ensures FlushLogs(token, Some(file), outcome, codec).file == Some("")
  {
  }

  /** Appending to the last of the strings `Join` separates. */
  lemma {:induction false} JoinExtendLast(ps: seq<string>, c: char, x: string)
    requires |ps| > 0
    ensures Join(ps, c) + x == Join(ps[..|ps| - 1] + [ps[|ps| - 1] + x], c)
  {
    if |ps| > 1 {
      var qs := ps[..|ps| - 1] + [ps[|ps| - 1] + x];
      JoinExtendLast(ps[1..], c, x);
      assert ps[1..][..|ps[1..]| - 1] + [ps[1..][|ps[1..]| - 1] + x] == qs[1..];
    }
  }

  /** After a successful `FlushLogJob` that leaves lines behind, the next line appended to the log (by
      `LogBuffer::flush` or `writeJsonl`) is glued onto the last remaining line, so the two records read back
      as a single line. */
  lemma FlushLogsMergesNextLine(token: Value, file: string, outcome: HttpOutcome, codec: Codec, next: string)
    requires Truthy(token)
    requires |Lines(file)| > BatchSize
    requires Successful(outcome)
    requires '\n' !in next
    ensures var rest := Remaining(Lines(file));
      var after := Lines(AppendLine(FlushLogs(token, Some(file), outcome, codec).file.value, next));
      after == rest[..|rest| - 1] + [rest[|rest| - 1] + next]
  {
    var rest := Remaining(Lines(file));
    var merged := rest[..|rest| - 1] + [rest[|rest| - 1] + next];
    assert FlushLogs(token, Some(file), outcome, codec).file.value == JoinLines(rest, false);
    assert JoinLines(rest, false) == Join(rest, '\n');
    JoinExtendLast(rest, '\n', next);
    assert AppendLine(Join(rest, '\n'), next) == JoinLines(merged, true);
    assert forall i :: 0 <= i < |merged| ==> merged[i] != "" && '\n' !in merged[i] by {
      forall i | 0 <= i < |merged|
        ensures merged[i] != "" && '\n' !in merged[i]
      {
        if i < |rest| - 1 {
          assert merged[i] == rest[i];
        } else {
          assert merged[i] == rest[|rest| - 1] + next;
          assert forall c :: c in merged[i] ==> c in rest[|rest| - 1] || c in next;
        }
      }
    }
    LinesOfJoin(merged, true);
  }

  /** `FlushLogJob::handle()` with the rewrite ending in a newline, as `LogSenderJob` does it. */
  function FixedFlushLogs(token: Value, file: Option<string>, outcome: HttpOutcome, codec: Codec): (r: Run)
    ensures !ShouldShip(token, file) ==> r == Run(file, None, None)
    ensures ShouldShip(token, file) ==> r.sent == Some(Batch(Lines(file.value), codec))
    ensures r.payload.None?
    ensures ShouldShip(token, file) && Successful(outcome) ==>
      r.file.Some? && Lines(r.file.value) == Remaining(Lines(file.value)) && AtLineBoundary(r.file.value)
    ensures !Successful(outcome) ==> r.file == file
  {
    if !ShouldShip(token, file) then Run(file, None, None)
    else
      var lines := Lines(file.value);
      var logs := Batch(lines, codec);
      if Successful(outcome) then
        var rest := Remaining(lines);
        LinesOfJoin(rest, true);
        Run(Some(JoinLines(rest, true)), Some(logs), None)
      else Run(file, Some(logs), None)
  }

  /** With the corrected rewrite, a line appended afterwards reads back as a line of its own. */
  lemma FixedFlushLogsKeepsNextLine(token: Value, file: string, outcome: HttpOutcome, codec: Codec, next: string)
    requires Truthy(token)
    requires |Lines(file)| > 0
    requires Successful(outcome)
    requires '\n' !in next && next != ""
    ensures Lines(AppendLine(FixedFlushLogs(token, Some(file), outcome, codec).file.value, next))
      == Remaining(Lines(file)) + [next]
  {
    var text := FixedFlushLogs(token, Some(file), outcome, codec).file.value;
    LinesAfterAppend(text, next);
    assert NonEmpty([next]) == [next];
  }
}
