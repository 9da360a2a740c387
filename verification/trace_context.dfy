/** The per-request trace id (`SerapUtils::getTraceId`, `generateTraceId`) and the single-record log writer
    (`SerapUtils::writeJsonl`). */
module TraceContext {

  import opened Values
  import opened Text
  import opened Jsonl

  /** The key the trace id is stored under, in both stores. */
  const TraceKey: string := "serap_trace_id"

  /** The two places a trace id is kept during a request: Laravel's `Context` store and the attributes of the
      current request; `attributes` is `None` when there is no current request (`request()` is null). */
  datatype Stores = Stores(context: map<string, Value>, attributes: Option<map<string, Value>>)

  /** `$store->get($k)` as seen by `??`: the stored value, unless it is missing or null. */
  function Get(m: map<string, Value>, k: string): (r: Option<Value>)
    ensures r.Some? ==> r.value != Null
  {
    if k in m && m[k] != Null then Some(m[k]) else None
  }

  /** `request()?->attributes->get($k)` as seen by `??`. */
  function Attribute(st: Stores, k: string): Option<Value> {
    if st.attributes.None? then None else Get(st.attributes.value, k)
  }

  /** `generateTraceId`: `newId` is the new ULID, which comes from the clock and randomness. It is stored in
      the context and, when there is a current request, in its attributes; nothing else changes. */
  function GenerateTraceId(st: Stores, newId: string): (r: (Stores, string))
    ensures r.1 == newId
    ensures Get(r.0.context, TraceKey) == Some(Str(newId))
    ensures r.0.attributes.Some? <==> st.attributes.Some?
    ensures Attribute(r.0, TraceKey) == Attribute(st, TraceKey) || Attribute(r.0, TraceKey) == Some(Str(newId))
    ensures st.attributes.Some? ==> Attribute(r.0, TraceKey) == Some(Str(newId))
    ensures forall k :: k != TraceKey ==> Get(r.0.context, k) == Get(st.context, k) && Attribute(r.0, k) == Attribute(st, k)
  {
    var context := st.context[TraceKey := Str(newId)];
    var attributes := if st.attributes.None? then None else Some(st.attributes.value[TraceKey := Str(newId)]);
    (Stores(context, attributes), newId)
  }

  /** `getTraceId`: the context first, then the request attribute, and a new id only when both are absent. */
  function GetTraceId(st: Stores, newId: string): (r: (Stores, Value))
    ensures r.1 != Null
    ensures Get(st.context, TraceKey).Some? ==> r == (st, Get(st.context, TraceKey).value)
    ensures Get(st.context, TraceKey).None? && Attribute(st, TraceKey).Some? ==>
      r == (st, Attribute(st, TraceKey).value)
    ensures Get(st.context, TraceKey).None? && Attribute(st, TraceKey).None? ==>
      r.1 == Str(newId) && Get(r.0.context, TraceKey) == Some(r.1)
      && (st.attributes.Some? ==> Attribute(r.0, TraceKey) == Some(r.1))
  {
    match Get(st.context, TraceKey)
    case Some(id) => (st, id)
    case None =>
      match Attribute(st, TraceKey)
      case Some(id) => (st, id)
      case None =>
        var (st', id) := GenerateTraceId(st, newId);
        (st', Str(id))
  }

  /** Once a trace id has been obtained, asking again returns the same id and changes nothing, whatever id
      the generator would have produced. */
  lemma GetTraceIdStable(st: Stores, newId1: string, newId2: string)
    ensures var (st1, id) := GetTraceId(st, newId1);
      GetTraceId(st1, newId2) == (st1, id)
  {
  }

  /** `writeJsonl`'s level rule: an `exception` event is always logged at level `error`. */
  function EventLevel(event: string, level: string): (r: string)
    ensures event == "exception" ==> r == "error"
    ensures event != "exception" ==> r == level
  {
    if event == "exception" then "error" else level
  }

  /** `$auth ?? $context['auth'] ?? $context['user'] ?? self::getAuthUser() ?? null`; the authenticated user
      comes from the framework and is a parameter. */
  function ResolveAuth(auth: Value, context: Entries, authUser: Value): (r: Value)
    ensures r == Null <==>
      auth == Null && Lookup(context, "auth").GetOr(Null) == Null
      && Lookup(context, "user").GetOr(Null) == Null && authUser == Null
    ensures auth != Null ==> r == auth
  {
    if auth != Null then auth
    else if Lookup(context, "auth").GetOr(Null) != Null then Lookup(context, "auth").value
    else if Lookup(context, "user").GetOr(Null) != Null then Lookup(context, "user").value
    else authUser
  }

  /** The record `writeJsonl` writes; `time` is the ISO-8601 clock reading. */
  function LogRecord(time: string, traceId: Value, event: string, level: string, auth: Value, context: Entries): Value {
    Arr([
      ("time", Str(time)),
      ("trace_id", traceId),
      ("event", Str(event)),
      ("level", Str(EventLevel(event, level))),
      ("auth", auth),
      ("context", Arr(context))
    ])
  }

  /** `writeJsonl($event, $context, $auth, $level)`: obtains the trace id and, when the exclusive lock is
      granted (`locked`), appends the encoded record as one line to the log file. */
  function WriteJsonl(st: Stores, file: string, event: string, context: Entries, auth: Value, level: string,
                      authUser: Value, time: string, newId: string, locked: bool, codec: Codec): (r: (Stores, string))
    ensures r.0 == GetTraceId(st, newId).0
    ensures !locked ==> r.1 == file
    ensures locked ==> |r.1| > |file| && r.1[..|file|] == file
  {
    var (st', traceId) := GetTraceId(st, newId);
    var record := LogRecord(time, traceId, event, level, ResolveAuth(auth, context, authUser), context);
    if locked then (st', AppendLine(file, EncodeText(codec, record))) else (st', file)
  }

  /** A written record reads back, as the log file's last line, with the trace id of the request and level
      `error` for an exception. */
  lemma WriteJsonlReadsBack(st: Stores, file: string, event: string, context: Entries, auth: Value, level: string,
                            authUser: Value, time: string, newId: string, codec: Codec)
    requires AtLineBoundary(file)
    requires OneLine(codec) && RoundTrips(codec)
    requires codec.encode(LogRecord(time, GetTraceId(st, newId).1, event, level,
                                    ResolveAuth(auth, context, authUser), context)) != Some("")
    requires codec.encode(LogRecord(time, GetTraceId(st, newId).1, event, level,
                                    ResolveAuth(auth, context, authUser), context)).Some?
    ensures var (st', file') := WriteJsonl(st, file, event, context, auth, level, authUser, time, newId, true, codec);
      var lines := Lines(file');
      && |lines| == |Lines(file)| + 1
      && lines[..|Lines(file)|] == Lines(file)
      && codec.decode(lines[|lines| - 1]).Some?
      && var rec := codec.decode(lines[|lines| - 1]).value;
      && rec.Arr?
      && Lookup(rec.entries, "trace_id") == Some(GetTraceId(st, newId).1)
      && (event == "exception" ==> Lookup(rec.entries, "level") == Some(Str("error")))
  {
    var traceId := GetTraceId(st, newId).1;
    var record := LogRecord(time, traceId, event, level, ResolveAuth(auth, context, authUser), context);
    var line := EncodeText(codec, record);
    LinesAfterAppend(file, line);
    assert NonEmpty([line]) == [line];
    assert codec.decode(line) == Some(record);
    assert Lookup(record.entries, "trace_id") == Some(traceId);
    assert Lookup(record.entries, "level") == Some(Str(EventLevel(event, level))) by {
      var es := record.entries;
      assert es[0].0 == "time" && es[1].0 == "trace_id" && es[2].0 == "event" && es[3].0 == "level";
      assert Lookup(es, "level") == Lookup(es[1..], "level");
      assert Lookup(es[1..], "level") == Lookup(es[2..], "level") by { assert es[1..][1..] == es[2..]; }
      assert Lookup(es[2..], "level") == Lookup(es[3..], "level") by { assert es[2..][1..] == es[3..]; }
    }
  }
}
