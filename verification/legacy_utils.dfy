/** The older utility class `Utils` (namespace `Zzzil\Gol`): masking, the string-returning `safeContent` and
    the context-only `getTraceId`. Its `detectResponseType` is the same chain of tests as the current one and
    is modelled by `Summarizer.DetectResponseType`. */
module LegacyUtils {

  import opened Values
  import opened Text
  import opened Jsonl
  import Masking
  import Summarizer
  import TraceContext

  /** `array_map('strtolower', $keys)` */
  function LowerAll(ks: seq<string>): (ls: seq<string>)
    ensures |ls| == |ks|
    ensures forall i :: 0 <= i < |ks| ==> ls[i] == Lower(ks[i])
  {
    seq(|ks|, i requires 0 <= i < |ks| => Lower(ks[i]))
  }

  /** The keys `Utils::mask` compares against: the caller's, or the configured ones when the caller gives none. */
  function LegacyKeys(keys: seq<string>, configured: seq<string>): seq<string> {
    LowerAll(if |keys| == 0 then configured else keys)
  }

  /** One entry of `Utils::mask` as written: a key whose lower-cased form is listed gets the token; a nested
      array goes through `self::mask($value)`, which drops the caller's keys and token. */
  function LegacyMaskEntry(k: string, v: Value, ls: seq<string>, configured: seq<string>, token: string): Value
    decreases v, 1
  {
    if Lower(k) in ls then Str(token)
    else if v.Arr? then LegacyMaskArray(v, LegacyKeys([], configured), configured, Masking.DefaultToken)
    else v
  }

  function LegacyMaskArray(v: Value, ls: seq<string>, configured: seq<string>, token: string): (r: Value)
    requires v.Arr?
    ensures r.Arr? && KeysOf(r.entries) == KeysOf(v.entries)
    decreases v, 0
  {
    Arr(seq(|v.entries|, i requires 0 <= i < |v.entries| =>
      (v.entries[i].0, LegacyMaskEntry(v.entries[i].0, v.entries[i].1, ls, configured, token))))
  }

  /** `Utils::mask($data, $keys, $mask)`: keys and their order are kept. */
  function LegacyMask(data: Entries, keys: seq<string>, configured: seq<string>, token: string): (r: Entries)
    ensures KeysOf(r) == KeysOf(data)
  {
    LegacyMaskArray(Arr(data), LegacyKeys(keys, configured), configured, token).entries
  }

  /** Entry `i` of `Utils::mask`: a listed key gets `token`, a scalar under another key is kept, and a
      nested array is masked with the configured keys and the default token, whatever the caller passed. */
  lemma LegacyMaskRules(data: Entries, keys: seq<string>, configured: seq<string>, token: string, i: nat)
    requires i < |data|
    ensures var r := LegacyMask(data, keys, configured, token);
      var (k, v) := data[i];
      && r[i].0 == k
      && (Lower(k) in LegacyKeys(keys, configured) ==> r[i].1 == Str(token))
      && (Lower(k) !in LegacyKeys(keys, configured) && !v.Arr? ==> r[i].1 == v)
      && (Lower(k) !in LegacyKeys(keys, configured) && v.Arr? ==>
            r[i].1 == LegacyMaskArray(v, LegacyKeys([], configured), configured, Masking.DefaultToken))
  {
    var r := LegacyMask(data, keys, configured, token);
    assert r[i] == (data[i].0, LegacyMaskEntry(data[i].0, data[i].1, LegacyKeys(keys, configured), configured, token));
  }

  /** Below the top level the caller's keys and token make no difference: two calls that leave an entry's
      key unmasked produce the same nested result. */
  lemma LegacyNestedIgnoresCaller(data: Entries, keys1: seq<string>, token1: string, keys2: seq<string>, token2: string,
                                  configured: seq<string>, i: nat)
    requires i < |data| && data[i].1.Arr?
    requires Lower(data[i].0) !in LegacyKeys(keys1, configured)
    requires Lower(data[i].0) !in LegacyKeys(keys2, configured)
    ensures LegacyMask(data, keys1, configured, token1)[i] == LegacyMask(data, keys2, configured, token2)[i]
  {
    LegacyMaskRules(data, keys1, configured, token1, i);
    LegacyMaskRules(data, keys2, configured, token2, i);
  }

  /** Every entry, at any depth, whose lower-cased key is listed holds the token. */
  predicate LegacyHidden(v: Value, ls: seq<string>, token: string) {
    v.Arr? ==> forall i :: 0 <= i < |v.entries| ==>
      (Lower(v.entries[i].0) in ls ==> v.entries[i].1 == Str(token))
      && LegacyHidden(v.entries[i].1, ls, token)
  }

  /** The counterexample: with nothing configured, a caller asking to mask `password` gets the nested
      password back in clear, because the recursion forgets the caller's keys. */
  lemma LegacyMaskLeaksNested()
    ensures var data := [("user", Arr([("password", Str("abc"))]))];
      var r := LegacyMask(data, ["password"], [], Masking.DefaultToken);
      && r == data
      && !LegacyHidden(Arr(r), LegacyKeys(["password"], []), Masking.DefaultToken)
  {
    var inner := Arr([("password", Str("abc"))]);
    var data := [("user", inner)];
    assert Lower("user") == "user";
    assert Lower("password") == "password";
    assert LegacyKeys([], []) == [];
    assert LegacyKeys(["password"], []) == ["password"];
    assert "user" !in ["password"];
    var nested := LegacyMaskArray(inner, [], [], Masking.DefaultToken);
    assert nested.entries[0] == ("password", Str("abc"));
    assert nested == inner;
    var r := LegacyMask(data, ["password"], [], Masking.DefaultToken);
    LegacyMaskRules(data, ["password"], [], Masking.DefaultToken, 0);
    assert r[0] == ("user", inner);
    assert r == data;
    assert !LegacyHidden(inner, ["password"], Masking.DefaultToken) by {
      assert inner.entries[0].1 != Str(Masking.DefaultToken);
    }
  }

  /** The evidently intended recursion, the one `SerapUtils::mask` adopted: nested arrays are masked with
      the same keys and token. */
  function FixedMaskEntry(k: string, v: Value, ls: seq<string>, token: string): Value
    decreases v, 1
  {
    if Lower(k) in ls then Str(token)
    else if v.Arr? then FixedMaskArray(v, ls, token)
    else v
  }

  function FixedMaskArray(v: Value, ls: seq<string>, token: string): (r: Value)
    requires v.Arr?
    ensures r.Arr? && KeysOf(r.entries) == KeysOf(v.entries)
    decreases v, 0
  {
    Arr(seq(|v.entries|, i requires 0 <= i < |v.entries| =>
      (v.entries[i].0, FixedMaskEntry(v.entries[i].0, v.entries[i].1, ls, token))))
  }

  /** `Utils::mask` with the recursion corrected. */
  function FixedLegacyMask(data: Entries, keys: seq<string>, configured: seq<string>, token: string): (r: Entries)
    ensures KeysOf(r) == KeysOf(data)
  {
    FixedMaskArray(Arr(data), LegacyKeys(keys, configured), token).entries
  }

  lemma {:induction false} FixedMaskEntryHides(k: string, v: Value, ls: seq<string>, token: string)
    ensures LegacyHidden(FixedMaskEntry(k, v, ls, token), ls, token)
    decreases v, 1
  {
    if Lower(k) !in ls && v.Arr? {
      FixedMaskArrayHides(v, ls, token);
    }
  }

  lemma {:induction false} FixedMaskArrayHides(v: Value, ls: seq<string>, token: string)
    requires v.Arr?
    ensures LegacyHidden(FixedMaskArray(v, ls, token), ls, token)
    decreases v, 0
  {
    var r := FixedMaskArray(v, ls, token);
    forall i | 0 <= i < |r.entries|
      ensures (Lower(r.entries[i].0) in ls ==> r.entries[i].1 == Str(token)) && LegacyHidden(r.entries[i].1, ls, token)
    {
      FixedMaskEntryHides(v.entries[i].0, v.entries[i].1, ls, token);
    }
  }

  /** With the corrected recursion no listed key keeps its value at any depth. */
  lemma FixedLegacyMaskHides(data: Entries, keys: seq<string>, configured: seq<string>, token: string)
    ensures LegacyHidden(Arr(FixedLegacyMask(data, keys, configured, token)), LegacyKeys(keys, configured), token)
  {
    FixedMaskArrayHides(Arr(data), LegacyKeys(keys, configured), token);
  }

  /** `'notice' => $isTruncated ? 'TRUNCATED' : 'NOT TRUNCATED'` */
  function Notice(isTruncated: bool): (r: string)
    ensures r == "TRUNCATED" <==> isTruncated
  {
    if isTruncated then "TRUNCATED" else "NOT TRUNCATED"
  }

  /** The array `Utils::safeContent` encodes. */
  function Envelope(s: Summarizer.Summary): Value {
    Arr([("is_truncated", Bool(s.isTruncated)), ("notice", Str(Notice(s.isTruncated))), ("data", s.data)])
  }

  /** `Utils::safeContent($content, $type)`: the same truncation as `SerapUtils::safeContent`, returned as a
      JSON string with an extra `notice` field (`json_encode` failing gives the empty string). */
  function LegacySafeContent(content: string, contentKind: string, codec: Codec): (r: string)
    ensures codec.encode(Envelope(Summarizer.SafeContent(content, contentKind, codec))).None? ==> r == ""
  {
    EncodeText(codec, Envelope(Summarizer.SafeContent(content, contentKind, codec)))
  }

  /** Decoding the legacy string gives the current summary's flag and data, with `notice` saying
      `TRUNCATED` exactly when the flag is set. */
  lemma LegacySafeContentReadsBack(content: string, contentKind: string, codec: Codec)
    requires RoundTrips(codec)
    requires codec.encode(Envelope(Summarizer.SafeContent(content, contentKind, codec))).Some?
    ensures var s := Summarizer.SafeContent(content, contentKind, codec);
      var d := codec.decode(LegacySafeContent(content, contentKind, codec));
      && d.Some? && d.value.Arr?
      && KeysOf(d.value.entries) == ["is_truncated", "notice", "data"]
      && Lookup(d.value.entries, "is_truncated") == Some(Bool(s.isTruncated))
      && (Lookup(d.value.entries, "notice") == Some(Str("TRUNCATED")) <==> s.isTruncated)
      && Lookup(d.value.entries, "data") == Some(s.data)
  {
    var s := Summarizer.SafeContent(content, contentKind, codec);
    var es := Envelope(s).entries;
    assert codec.decode(LegacySafeContent(content, contentKind, codec)) == Some(Envelope(s));
    assert KeysOf(es) == ["is_truncated", "notice", "data"];
    assert Lookup(es, "notice") == Lookup(es[1..], "notice");
    assert Lookup(es, "data") == Lookup(es[1..], "data");
    assert Lookup(es[1..], "data") == Lookup(es[2..], "data") by { assert es[1..][1..] == es[2..]; }
  }

  /** The context key the older package used. */
  const LegacyTraceKey: string := "gol_trace_id"

  /** `Utils::getTraceId()`: the context value, `None` standing for PHP's `null`; nothing is generated. */
  function LegacyGetTraceId(st: TraceContext.Stores): (r: Option<Value>)
    ensures r.Some? <==> LegacyTraceKey in st.context && st.context[LegacyTraceKey] != Null
    ensures r.Some? ==> r.value == st.context[LegacyTraceKey]
  {
    TraceContext.Get(st.context, LegacyTraceKey)
  }
}
