/** `ResponseWatcher::handle()`: at the end of a request it stamps the trace id on the response and assembles
    the request, response and query entries for `LogRequestLifecycleJob`. Clock readings, memory usage, the
    authenticated user and the rounded duration are parameters. */
module ResponseWatcher {

  import opened Values
  import opened Text
  import opened Jsonl
  import Masking
  import Summarizer

  /** The level of every entry of a response: `error` for a 5xx status, `info` otherwise. */
  function LevelFor(status: int): (r: string)
    ensures r == "error" <==> status >= 500
    ensures r == "info" <==> status < 500
  {
    if status >= 500 then "error" else "info"
  }

  /** `(string) $v` for the values a trace id can be; an array casts to `"Array"`. */
  function CastToString(v: Value): string {
    match v
    case Null => ""
    case Bool(b) => if b then "1" else ""
    case Int(i) => DecimalString(i)
    case Str(s) => s
    case Arr(_) => "Array"
  }

  /** What the watcher reads from the finished request and response. `traceId` and `startTime` are the
      request attributes `serap_trace_id` and `serap_start_time` (`Null` when absent); `elapsedMs` is the
      rounded time since the start; `requestContext` and `queries` are the `Context` values
      `serap_request_context` and `serap_queries` (`Null` when absent); `headers` are the headers the response's
      `ResponseHeaderBag` stores, as the application left them, and `cookies` the rendered strings of the
      cookies it keeps apart from them (the bag never stores a `set-cookie` header of its own). */
  datatype Exchange = Exchange(
    traceId: Value,
    startTime: Value,
    elapsedMs: Value,
    status: int,
    contentType: Option<string>,
    isRedirect: bool,
    content: string,
    headers: Entries,
    cookies: seq<string>,
    requestContext: Value,
    queries: Value)

  /** The readings taken while assembling: the clock, the authenticated user and the peak memory. */
  datatype Readings = Readings(time: string, user: Value, memory: Value)

  /** The response's `Serap-Trace-Id` header after the watcher (`None`: not set), and the entries handed to
      the job, or `Thrown` when masking the headers raised. */
  datatype Handled = Handled(traceHeader: Option<string>, logs: Outcome<seq<Value>>)

  /** The response header the watcher sets, under the lower-cased name `HeaderBag` stores it by. */
  const TraceHeaderKey: string := "serap-trace-id"

  /** The name `ResponseHeaderBag::all()` lists the cookies under. */
  const CookieHeaderKey: string := "set-cookie"

  /** The bag's stored headers once the watcher has run: for a truthy trace id, `HeaderBag::set` stores the
      lower-cased name with a one-element list, replacing an existing entry in place or adding it last. */
  function StoredHeaders(x: Exchange): (hs: Entries)
    ensures !Truthy(x.traceId) ==> hs == x.headers
    ensures Truthy(x.traceId) ==> Lookup(hs, TraceHeaderKey) == Some(ListOf([Str(CastToString(x.traceId))]))
    ensures Truthy(x.traceId) && TraceHeaderKey !in KeysOf(x.headers) ==>
      hs == x.headers + [(TraceHeaderKey, ListOf([Str(CastToString(x.traceId))]))]
    ensures forall j :: 0 <= j < |x.headers| && x.headers[j].0 != TraceHeaderKey ==> j < |hs| && hs[j] == x.headers[j]
  {
    if Truthy(x.traceId) then
      var v := ListOf([Str(CastToString(x.traceId))]);
      PutFacts(x.headers, TraceHeaderKey, v);
      Put(x.headers, TraceHeaderKey, v)
    else x.headers
  }

  /** The cookies as `all()` lists them: one string per cookie, in order. */
  function CookieList(cookies: seq<string>): Value {
    ListOf(seq(|cookies|, i requires 0 <= i < |cookies| => Str(cookies[i])))
  }

  /** `$response->headers->all()` once the watcher has run: the stored headers, then `set-cookie` with every
      cookie when there is one. The trace header therefore comes before the cookies. */
  function ResponseHeaders(x: Exchange): (hs: Entries)
    ensures !Truthy(x.traceId) && |x.cookies| == 0 ==> hs == x.headers
    ensures Truthy(x.traceId) ==> Lookup(hs, TraceHeaderKey) == Some(ListOf([Str(CastToString(x.traceId))]))
    ensures forall j :: 0 <= j < |x.headers| && x.headers[j].0 != TraceHeaderKey ==> j < |hs| && hs[j] == x.headers[j]
    ensures Truthy(x.traceId) && TraceHeaderKey !in KeysOf(x.headers) ==>
      |x.headers| < |hs| && hs[|x.headers|] == (TraceHeaderKey, ListOf([Str(CastToString(x.traceId))]))
    ensures |x.cookies| > 0 <==> |hs| > |StoredHeaders(x)|
    ensures |x.cookies| > 0 ==> hs[|hs| - 1] == (CookieHeaderKey, CookieList(x.cookies))
  {
    var stored := StoredHeaders(x);
    var cookies := [(CookieHeaderKey, CookieList(x.cookies))];
    if |x.cookies| == 0 then stored
    else if Truthy(x.traceId) then
      LookupKeptByAppend(stored, cookies, TraceHeaderKey);
      stored + cookies
    else stored + cookies
  }

  /** A response carrying a session cookie: the trace header is listed after the stored headers and before
      `set-cookie`. */
  lemma ResponseHeadersCookieOrder(x: Exchange)
    requires x.headers == [("cache-control", ListOf([Str("no-cache")])), ("date", ListOf([Str("today")]))]
    requires x.cookies == ["laravel_session=abc"] && x.traceId == Str("t1")
    ensures ResponseHeaders(x) == [
      ("cache-control", ListOf([Str("no-cache")])), ("date", ListOf([Str("today")])),
      ("serap-trace-id", ListOf([Str("t1")])), ("set-cookie", ListOf([Str("laravel_session=abc")]))]
  {
    assert TraceHeaderKey !in KeysOf(x.headers);
    assert CookieList(x.cookies) == ListOf([Str("laravel_session=abc")]);
  }

  /** `$start ? round((microtime(true) - $start) * 1000, 2) : null` */
  function Duration(x: Exchange): Value {
    if Truthy(x.startTime) then x.elapsedMs else Null
  }

  /** The array `SerapUtils::safeContent` returns. */
  function SummaryValue(s: Summarizer.Summary): Value {
    Arr([("is_truncated", Bool(s.isTruncated)), ("data", s.data)])
  }

  function RequestEntry(x: Exchange, rd: Readings): Value {
    Arr([
      ("trace_id", x.traceId),
      ("event", Str("request")),
      ("level", Str(LevelFor(x.status))),
      ("time", Str(rd.time)),
      ("user", rd.user),
      ("context", x.requestContext)
    ])
  }

  function ResponseContext(x: Exchange, rd: Readings, maskedHeaders: Entries, codec: Codec): Value {
    var kind := Summarizer.DetectResponseType(x.contentType, x.isRedirect);
    Arr([
      ("level", Str(LevelFor(x.status))),
      ("duration_ms", Duration(x)),
      ("type", Str(kind)),
      ("memory", rd.memory),
      ("headers", Arr(maskedHeaders)),
      ("response", SummaryValue(Summarizer.SafeContent(x.content, kind, codec)))
    ])
  }

  function ResponseEntry(x: Exchange, rd: Readings, maskedHeaders: Entries, codec: Codec): Value {
    Arr([
      ("time", Str(rd.time)),
      ("trace_id", x.traceId),
      ("event", Str("response")),
      ("level", Str(LevelFor(x.status))),
      ("user", rd.user),
      ("context", ResponseContext(x, rd, maskedHeaders, codec))
    ])
  }

  function QueryEntry(x: Exchange, rd: Readings): Value {
    Arr([
      ("time", Str(rd.time)),
      ("trace_id", x.traceId),
      ("event", Str("query")),
      ("level", Str(LevelFor(x.status))),
      ("user", rd.user),
      ("context", x.queries)
    ])
  }

  /** The entries' `event` fields, in order. */
  function Events(logs: seq<Value>): (es: seq<Value>)
    ensures |es| == |logs|
    ensures forall i :: 0 <= i < |logs| ==> es[i] == Field(logs[i], "event")
  {
    seq(|logs|, i requires 0 <= i < |logs| => Field(logs[i], "event"))
  }

  /** `ResponseWatcher::handle()` with the configured sensitive keys. The header is set exactly when the
      trace id is truthy, and the headers masked for the log include it; the entries are there unless masking
      the headers raised. */
  function HandleResponse(x: Exchange, rd: Readings, configured: seq<string>, codec: Codec): (r: Handled)
    ensures r.traceHeader.Some? <==> Truthy(x.traceId)
    ensures r.traceHeader.Some? ==> r.traceHeader.value == CastToString(x.traceId)
    ensures r.logs.Thrown? <==> !Masking.ArraySafe(Arr(ResponseHeaders(x)), Masking.SensitiveKeys([], configured))
    ensures r.logs.Done? ==> 1 <= |r.logs.value| <= 3
  {
    var header := if Truthy(x.traceId) then Some(CastToString(x.traceId)) else None;
    match Masking.Mask(ResponseHeaders(x), [], configured, Masking.DefaultToken)
    case Thrown => Handled(header, Thrown)
    case Done(masked) =>
      Handled(header, Done(Assemble(x, rd, masked, codec)))
  }

  /** The entries handed to the job once the headers are masked. */
  function Assemble(x: Exchange, rd: Readings, masked: Entries, codec: Codec): seq<Value> {
    (if Truthy(x.requestContext) then [RequestEntry(x, rd)] else [])
    + [ResponseEntry(x, rd, masked, codec)]
    + (if Truthy(x.queries) then [QueryEntry(x, rd)] else [])
  }

  lemma RequestFields(x: Exchange, rd: Readings)
    ensures var e := RequestEntry(x, rd);
      Field(e, "event") == Str("request") && Field(e, "trace_id") == x.traceId
      && Field(e, "level") == Str(LevelFor(x.status))
  {
    var es := RequestEntry(x, rd).entries;
    LookupFirst(es, "trace_id", 0);
    LookupFirst(es, "event", 1);
    LookupFirst(es, "level", 2);
  }

  lemma ResponseFields(x: Exchange, rd: Readings, masked: Entries, codec: Codec)
    ensures var e := ResponseEntry(x, rd, masked, codec);
      Field(e, "event") == Str("response") && Field(e, "trace_id") == x.traceId
      && Field(e, "level") == Str(LevelFor(x.status))
      && Field(Field(e, "context"), "level") == Str(LevelFor(x.status))
      && Field(Field(e, "context"), "duration_ms") == Duration(x)
      && Field(Field(e, "context"), "headers") == Arr(masked)
  {
    var es := ResponseEntry(x, rd, masked, codec).entries;
    LookupFirst(es, "trace_id", 1);
    LookupFirst(es, "event", 2);
    LookupFirst(es, "level", 3);
    LookupFirst(es, "context", 5);
    ResponseContextFields(x, rd, masked, codec);
  }

  lemma ResponseContextFields(x: Exchange, rd: Readings, masked: Entries, codec: Codec)
    ensures var c := ResponseContext(x, rd, masked, codec);
      && Field(c, "level") == Str(LevelFor(x.status))
      && Field(c, "duration_ms") == Duration(x)
      && Field(c, "headers") == Arr(masked)
  {
    var cs := ResponseContext(x, rd, masked, codec).entries;
    LookupFirst(cs, "level", 0);
    LookupFirst(cs, "duration_ms", 1);
    LookupFirst(cs, "headers", 4);
  }

  lemma QueryFields(x: Exchange, rd: Readings)
    ensures var e := QueryEntry(x, rd);
      Field(e, "event") == Str("query") && Field(e, "trace_id") == x.traceId
      && Field(e, "level") == Str(LevelFor(x.status))
  {
    var es := QueryEntry(x, rd).entries;
    LookupFirst(es, "trace_id", 1);
    LookupFirst(es, "event", 2);
    LookupFirst(es, "level", 3);
  }

  /** The assembled entries: `request` when there is a request context, then `response`, then `query` when
      queries were recorded; every one carries the request's trace id and the status's level. */
  lemma HandleResponseEntries(x: Exchange, rd: Readings, configured: seq<string>, codec: Codec)
    requires HandleResponse(x, rd, configured, codec).logs.Done?
    ensures var logs := HandleResponse(x, rd, configured, codec).logs.value;
      && Events(logs) ==
           (if Truthy(x.requestContext) then [Str("request")] else [])
           + [Str("response")]
           + (if Truthy(x.queries) then [Str("query")] else [])
      && (forall i :: 0 <= i < |logs| ==> Field(logs[i], "trace_id") == x.traceId)
      && (forall i :: 0 <= i < |logs| ==> Field(logs[i], "level") == Str(LevelFor(x.status)))
  {
    var masked := Masking.Mask(ResponseHeaders(x), [], configured, Masking.DefaultToken).value;
    assert HandleResponse(x, rd, configured, codec).logs.value == Assemble(x, rd, masked, codec);
    AssembleFields(x, rd, masked, codec);
  }

  lemma AssembleFields(x: Exchange, rd: Readings, masked: Entries, codec: Codec)
    ensures var logs := Assemble(x, rd, masked, codec);
      && Events(logs) ==
           (if Truthy(x.requestContext) then [Str("request")] else [])
           + [Str("response")]
           + (if Truthy(x.queries) then [Str("query")] else [])
      && (forall i :: 0 <= i < |logs| ==> Field(logs[i], "trace_id") == x.traceId)
      && (forall i :: 0 <= i < |logs| ==> Field(logs[i], "level") == Str(LevelFor(x.status)))
  {
    var pre := if Truthy(x.requestContext) then [RequestEntry(x, rd)] else [];
    var post := if Truthy(x.queries) then [QueryEntry(x, rd)] else [];
    var logs := Assemble(x, rd, masked, codec);
    assert logs == pre + [ResponseEntry(x, rd, masked, codec)] + post;
    RequestFields(x, rd);
    ResponseFields(x, rd, masked, codec);
    QueryFields(x, rd);
    var events := (if Truthy(x.requestContext) then [Str("request")] else []) + [Str("response")]
                   + (if Truthy(x.queries) then [Str("query")] else []);
    forall i | 0 <= i < |logs|
      ensures Field(logs[i], "event") == events[i]
      ensures Field(logs[i], "trace_id") == x.traceId
      ensures Field(logs[i], "level") == Str(LevelFor(x.status))
    {
      if i < |pre| {
        assert logs[i] == RequestEntry(x, rd);
      } else if i == |pre| {
        assert logs[i] == ResponseEntry(x, rd, masked, codec);
      } else {
        assert logs[i] == QueryEntry(x, rd);
      }
    }
  }

  /** The response entry's context records the level and the masked headers, and `duration_ms` is null
      exactly when no start time was recorded. */
  lemma HandleResponseContext(x: Exchange, rd: Readings, configured: seq<string>, codec: Codec)
    requires HandleResponse(x, rd, configured, codec).logs.Done?
    requires x.elapsedMs != Null
    ensures var logs := HandleResponse(x, rd, configured, codec).logs.value;
      var i := if Truthy(x.requestContext) then 1 else 0;
      && i < |logs|
      && Field(logs[i], "event") == Str("response")
      && var ctx := Field(logs[i], "context");
      && Field(ctx, "level") == Str(LevelFor(x.status))
      && (Field(ctx, "duration_ms") == Null <==> !Truthy(x.startTime))
      && Field(ctx, "headers") == Arr(Masking.Mask(ResponseHeaders(x), [], configured, Masking.DefaultToken).value)
  {
    var masked := Masking.Mask(ResponseHeaders(x), [], configured, Masking.DefaultToken).value;
    ResponseFields(x, rd, masked, codec);
  }

  /** No sensitive header reaches the log: in the response entry's context, every sensitive header holds the
      token and every sensitive cookie part carries it, at any depth. */
  lemma HandleResponseHidesHeaders(x: Exchange, rd: Readings, configured: seq<string>, codec: Codec)
    requires HandleResponse(x, rd, configured, codec).logs.Done?
    ensures var logs := HandleResponse(x, rd, configured, codec).logs.value;
      var i := if Truthy(x.requestContext) then 1 else 0;
      && i < |logs|
      && var masked := Masking.Mask(ResponseHeaders(x), [], configured, Masking.DefaultToken).value;
      && Field(Field(logs[i], "context"), "headers") == Arr(masked)
      && Masking.Hidden(Field(Field(logs[i], "context"), "headers"), Masking.SensitiveKeys([], configured),
                        Masking.DefaultToken)
  {
    LoggedHeaders(x, rd, configured, codec);
    Masking.MaskHidesSensitive(ResponseHeaders(x), [], configured, Masking.DefaultToken);
  }

  /** The headers in the response entry's context are the masked response headers. */
  lemma LoggedHeaders(x: Exchange, rd: Readings, configured: seq<string>, codec: Codec)
    requires HandleResponse(x, rd, configured, codec).logs.Done?
    ensures var logs := HandleResponse(x, rd, configured, codec).logs.value;
      var i := if Truthy(x.requestContext) then 1 else 0;
      && i < |logs|
      && Field(Field(logs[i], "context"), "headers")
         == Arr(Masking.Mask(ResponseHeaders(x), [], configured, Masking.DefaultToken).value)
  {
    var masked := Masking.Mask(ResponseHeaders(x), [], configured, Masking.DefaultToken).value;
    ResponseFields(x, rd, masked, codec);
  }

  /** `normalizeKey` turns the trace header's name into `serap_trace_id`. */
  lemma TraceHeaderKeyNormal()
    ensures Masking.NormalizeKey(TraceHeaderKey) == "serap_trace_id"
  {
    Masking.NormalKeyHyphens(TraceHeaderKey);
    assert ReplaceChar(TraceHeaderKey, '-', '_') == "serap_trace_id";
  }

  /** A one-entry list under a key that normalises to `serap_trace_id`, once masked: the token when that key is
      sensitive, and otherwise the list itself unless its one-character list key is sensitive. */
  lemma TraceHeaderMasked(k: string, z: string, id: string, ns: seq<string>, token: string)
    requires Masking.NormalizeKey(k) == "serap_trace_id"
    requires |z| == 1 && Masking.NormalizeKey(z) == z
    ensures "serap_trace_id" in ns ==> Masking.MaskEntryValue(k, Arr([(z, Str(id))]), ns, token) == Str(token)
    ensures "serap_trace_id" !in ns && z !in ns ==>
      Masking.MaskEntryValue(k, Arr([(z, Str(id))]), ns, token) == Arr([(z, Str(id))])
  {
    if "serap_trace_id" !in ns && z !in ns {
      Masking.MaskArrayKeepsPlain(z, Str(id), ns, token);
    }
  }

  /** Masking headers that hold a one-entry list under a key normalising to `serap_trace_id`: looking that key up
      afterwards finds the token when `serap_trace_id` is sensitive, and otherwise the list unchanged. */
  lemma MaskedTraceEntry(hs: Entries, k: string, z: string, id: string, configured: seq<string>)
    requires Masking.NormalizeKey(k) == "serap_trace_id"
    requires |z| == 1 && Masking.NormalizeKey(z) == z
    requires Lookup(hs, k) == Some(Arr([(z, Str(id))]))
    requires Masking.Mask(hs, [], configured, Masking.DefaultToken).Done?
    ensures "serap_trace_id" in Masking.SensitiveKeys([], configured) ==>
      Lookup(Masking.Mask(hs, [], configured, Masking.DefaultToken).value, k) == Some(Str(Masking.DefaultToken))
    ensures "serap_trace_id" !in Masking.SensitiveKeys([], configured) && z !in Masking.SensitiveKeys([], configured) ==>
      Lookup(Masking.Mask(hs, [], configured, Masking.DefaultToken).value, k) == Some(Arr([(z, Str(id))]))
  {
    Masking.MaskLookup(hs, [], configured, Masking.DefaultToken, k);
    TraceHeaderMasked(k, z, id, Masking.SensitiveKeys([], configured), Masking.DefaultToken);
  }

  /** `MaskedTraceEntry` for the header the watcher sets, holding the id as a one-element list. */
  lemma MaskedTraceHeader(hs: Entries, id: string, configured: seq<string>)
    requires Lookup(hs, TraceHeaderKey) == Some(ListOf([Str(id)]))
    requires Masking.Mask(hs, [], configured, Masking.DefaultToken).Done?
    ensures "serap_trace_id" in Masking.SensitiveKeys([], configured) ==>
      Lookup(Masking.Mask(hs, [], configured, Masking.DefaultToken).value, TraceHeaderKey) == Some(Str(Masking.DefaultToken))
    ensures "serap_trace_id" !in Masking.SensitiveKeys([], configured) && "0" !in Masking.SensitiveKeys([], configured) ==>
      Lookup(Masking.Mask(hs, [], configured, Masking.DefaultToken).value, TraceHeaderKey) == Some(ListOf([Str(id)]))
  {
    TraceHeaderKeyNormal();
    ListOfOne(Str(id));
    Masking.ZeroIsNormal();
    MaskedTraceEntry(hs, TraceHeaderKey, "0", id, configured);
  }

  /** With a truthy trace id the logged response headers carry the `serap-trace-id` entry the watcher set: the
      token when `serap_trace_id` is a sensitive key, and otherwise the id as a one-element list. */
  lemma HandleResponseTraceHeader(x: Exchange, rd: Readings, configured: seq<string>, codec: Codec)
    requires HandleResponse(x, rd, configured, codec).logs.Done?
    requires Truthy(x.traceId)
    ensures var logs := HandleResponse(x, rd, configured, codec).logs.value;
      var i := if Truthy(x.requestContext) then 1 else 0;
      var ns := Masking.SensitiveKeys([], configured);
      && i < |logs|
      && var hs := Field(Field(logs[i], "context"), "headers");
      && hs.Arr?
      && ("serap_trace_id" in ns ==> Lookup(hs.entries, TraceHeaderKey) == Some(Str(Masking.DefaultToken)))
      && ("serap_trace_id" !in ns && "0" !in ns ==>
            Lookup(hs.entries, TraceHeaderKey) == Some(ListOf([Str(CastToString(x.traceId))])))
  {
    LoggedHeaders(x, rd, configured, codec);
    MaskedTraceHeader(ResponseHeaders(x), CastToString(x.traceId), configured);
  }
}
