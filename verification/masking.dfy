/** The masking engine of `SerapUtils`: recursive redaction of sensitive keys in a PHP array,
    with the special treatment of `Cookie` / `Set-Cookie` values. */
module Masking {

  import opened Values
  import opened Text

  /** The default replacement text. */
  const DefaultToken: string := "******"

  /** `SerapUtils::normalizeKey`: trim PHP whitespace, lower-case, hyphens to underscores. */
  function NormalizeKey(k: string): string {
    Normalize(k, IsPhpWhitespace)
  }

  /** A normalised key is a fixed point of normalisation and has no surrounding whitespace,
      no ASCII upper-case letter and no hyphen. */
  lemma NormalizeKeyIsNormal(k: string)
    ensures NormalizeKey(NormalizeKey(k)) == NormalizeKey(k)
    ensures forall c :: c in NormalizeKey(k) ==> !IsUpper(c) && c != '-'
    ensures var r := NormalizeKey(k); |r| > 0 ==> !IsPhpWhitespace(r[0]) && !IsPhpWhitespace(r[|r| - 1])
  {
    NormalizeShape(k, IsPhpWhitespace);
    NormalizeIdempotent(k, IsPhpWhitespace);
  }

  /** `array_map(fn ($k) => self::normalizeKey($k), $keys)` */
  function NormalizeAll(ks: seq<string>): (ns: seq<string>)
    ensures |ns| == |ks|
  {
    seq(|ks|, i requires 0 <= i < |ks| => NormalizeKey(ks[i]))
  }

  /** The normalised keys whose values are cookie strings. */
  predicate IsCookieKey(nk: string) {
    nk == "cookie" || nk == "set_cookie"
  }

  /** One `;`-separated part of a cookie string: a `k=v` part whose normalised key is sensitive
      becomes `trim(k)=token`; every other part is kept as it is. */
  function MaskCookiePart(part: string, ns: seq<string>, token: string): string {
    if '=' in part then
      var kv := SplitFirst(part, '=');
      if NormalizeKey(kv.0) in ns then Trim(kv.0, IsPhpWhitespace) + "=" + token else part
    else part
  }

  function MaskCookieParts(ps: seq<string>, ns: seq<string>, token: string): (qs: seq<string>)
    ensures |qs| == |ps|
  {
    seq(|ps|, i requires 0 <= i < |ps| => MaskCookiePart(ps[i], ns, token))
  }

  /** `SerapUtils::maskCookieString`: split on `;`, mask each part, join on `;`. */
  function MaskCookieString(s: string, ns: seq<string>, token: string): string {
    Join(MaskCookieParts(Split(s, ';'), ns, token), ';')
  }

  /** A part is sensitive when it has an `=` and the text before the first `=` normalises to a sensitive key. */
  predicate SensitivePart(part: string, ns: seq<string>) {
    '=' in part && NormalizeKey(SplitFirst(part, '=').0) in ns
  }

  /** Masking a cookie string keeps the number and order of its `;`-parts; a part without `=` or with a
      non-sensitive key is kept verbatim, and a sensitive part becomes its trimmed key, `=`, and the token. */
  lemma {:induction false} MaskCookieStringParts(s: string, ns: seq<string>, token: string)
    requires ';' !in token
    ensures Split(MaskCookieString(s, ns, token), ';') == MaskCookieParts(Split(s, ';'), ns, token)
    ensures var ps := Split(s, ';'); var qs := Split(MaskCookieString(s, ns, token), ';');
      && |qs| == |ps|
      && (forall i :: 0 <= i < |ps| && !SensitivePart(ps[i], ns) ==> qs[i] == ps[i])
      && (forall i :: 0 <= i < |ps| && SensitivePart(ps[i], ns) ==>
            qs[i] == Trim(SplitFirst(ps[i], '=').0, IsPhpWhitespace) + "=" + token)
  {
    var ps := Split(s, ';');
    var ms := MaskCookieParts(ps, ns, token);
    forall i | 0 <= i < |ms|
      ensures ';' !in ms[i]
    {
      if SensitivePart(ps[i], ns) {
        var k := SplitFirst(ps[i], '=').0;
        TrimInfix(k);
        assert ';' !in k by {
          assert ps[i] == k + "=" + SplitFirst(ps[i], '=').1;
        }
      }
    }
    SplitJoin(ms, ';');
  }

  /** The trimmed text holds no character the original lacks. */
  lemma TrimInfix(k: string)
    ensures forall c :: c in Trim(k, IsPhpWhitespace) ==> c in k
  {
    var l := TrimLeft(k, IsPhpWhitespace);
    var r := TrimRight(l, IsPhpWhitespace);
    assert forall i :: 0 <= i < |r| ==> r[i] == l[i];
    assert forall i :: 0 <= i < |l| ==> l[i] == k[|k| - |l| + i];
  }

  /** A masked sensitive part is still sensitive, has the same key, and carries the token after its first `=`. */
  lemma MaskedPartShape(part: string, ns: seq<string>, token: string)
    requires SensitivePart(part, ns)
    ensures var q := MaskCookiePart(part, ns, token);
      && SensitivePart(q, ns)
      && SplitFirst(q, '=').0 == Trim(SplitFirst(part, '=').0, IsPhpWhitespace)
      && SplitFirst(q, '=').1 == token
  {
    var k := SplitFirst(part, '=').0;
    var t := Trim(k, IsPhpWhitespace);
    var q := t + "=" + token;
    TrimInfix(k);
    assert q == t + ['='] + token;
    IndexOfCharAt(q, '=', |t|);
    assert q[..|t|] == t && q[|t| + 1..] == token;
    assert SplitFirst(q, '=') == (t, token);
    TrimKeeps(t, IsPhpWhitespace);
    assert NormalizeKey(t) == NormalizeKey(k);
  }

  /** Masking an already masked part changes nothing. */
  lemma MaskCookiePartTwice(part: string, ns: seq<string>, token: string)
    ensures MaskCookiePart(MaskCookiePart(part, ns, token), ns, token) == MaskCookiePart(part, ns, token)
  {
    if SensitivePart(part, ns) {
      MaskedPartShape(part, ns, token);
      TrimKeeps(Trim(SplitFirst(part, '=').0, IsPhpWhitespace), IsPhpWhitespace);
    }
  }

  lemma IndexOfCharAt(s: string, c: char, i: nat)
    requires i < |s| && s[i] == c && c !in s[..i]
    ensures IndexOfChar(s, c) == Some(i)
  {
    if i > 0 {
      assert s[1..][..i - 1] == s[1..i];
      IndexOfCharAt(s[1..], c, i - 1);
    }
  }

  /** Masking a cookie string twice is masking it once. */
  lemma MaskCookieStringTwice(s: string, ns: seq<string>, token: string)
    requires ';' !in token
    ensures MaskCookieString(MaskCookieString(s, ns, token), ns, token) == MaskCookieString(s, ns, token)
  {
    var ps := Split(s, ';');
    var ms := MaskCookieParts(ps, ns, token);
    MaskCookieStringParts(s, ns, token);
    assert Split(MaskCookieString(s, ns, token), ';') == ms;
    forall i | 0 <= i < |ms|
      ensures MaskCookiePart(ms[i], ns, token) == ms[i]
    {
      MaskCookiePartTwice(ps[i], ns, token);
    }
    assert MaskCookieParts(ms, ns, token) == ms;
  }

  /** The text PHP passes for a value given to a `string` parameter outside strict mode;
      `null` and arrays raise a `TypeError` instead. */
  predicate Coercible(v: Value) {
    v.Str? || v.Int? || v.Bool?
  }

  function CoerceToString(v: Value): string
    requires Coercible(v)
  {
    match v
    case Str(s) => s
    case Int(i) => DecimalString(i)
    case Bool(b) => if b then "1" else ""
  }

  /** The value stored under a cookie key: a string is masked as a cookie string, an array has every
      element masked as a cookie string (keeping its keys), anything else is left alone. */
  function MaskCookieValue(v: Value, ns: seq<string>, token: string): Value {
    match v
    case Str(s) => Str(MaskCookieString(s, ns, token))
    case Arr(es) =>
      Arr(seq(|es|, i requires 0 <= i < |es| =>
        (es[i].0, if Coercible(es[i].1) then Str(MaskCookieString(CoerceToString(es[i].1), ns, token)) else es[i].1)))
    case _ => v
  }

  /** The value stored under key `k` after masking, with normalised sensitive keys `ns`. */
  function MaskEntryValue(k: string, v: Value, ns: seq<string>, token: string): Value
    decreases v, 1
  {
    var nk := NormalizeKey(k);
    if IsCookieKey(nk) then MaskCookieValue(v, ns, token)
    else if nk in ns then Str(token)
    else if v.Arr? then MaskArray(v, ns, token)
    else v
  }

  /** The `foreach` of `SerapUtils::mask` over one array: every entry keeps its key and position. */
  function MaskArray(v: Value, ns: seq<string>, token: string): (r: Value)
    requires v.Arr?
    decreases v, 0
  {
    Arr(seq(|v.entries|, i requires 0 <= i < |v.entries| =>
      (v.entries[i].0, MaskEntryValue(v.entries[i].0, v.entries[i].1, ns, token))))
  }

  /** A one-entry array under a one-character normalised key that is not sensitive, holding a value that is not
      an array, comes through masking unchanged. */
  lemma MaskArrayKeepsPlain(k: string, v: Value, ns: seq<string>, token: string)
    requires |k| == 1 && NormalizeKey(k) == k && k !in ns && !v.Arr?
    ensures MaskArray(Arr([(k, v)]), ns, token) == Arr([(k, v)])
  {
    assert !IsCookieKey(k);
    assert MaskEntryValue(k, v, ns, token) == v;
  }

  /** Masking raises no `TypeError`: every cookie array it visits holds only coercible elements. */
  predicate EntrySafe(k: string, v: Value, ns: seq<string>)
    decreases v, 1
  {
    var nk := NormalizeKey(k);
    if IsCookieKey(nk) then (v.Arr? ==> forall i :: 0 <= i < |v.entries| ==> Coercible(v.entries[i].1))
    else if nk in ns then true
    else if v.Arr? then ArraySafe(v, ns)
    else true
  }

  predicate ArraySafe(v: Value, ns: seq<string>)
    requires v.Arr?
    decreases v, 0
  {
    forall i :: 0 <= i < |v.entries| ==> EntrySafe(v.entries[i].0, v.entries[i].1, ns)
  }

  /** The sensitive-key list in effect: the caller's list, or the configured one when the caller's is empty. */
  function SensitiveKeys(keys: seq<string>, configured: seq<string>): seq<string> {
    NormalizeAll(if |keys| == 0 then configured else keys)
  }

  /** `SerapUtils::mask($data, $keys, $token)`, with `config('serap.sensitive_keys')` passed as `configured`.
      It raises exactly when a cookie array it visits holds `null` or an array; otherwise every key keeps
      its position. */
  function Mask(data: Entries, keys: seq<string>, configured: seq<string>, token: string): (r: Outcome<Entries>)
    ensures r.Thrown? <==> !ArraySafe(Arr(data), SensitiveKeys(keys, configured))
    ensures r.Done? ==> KeysOf(r.value) == KeysOf(data)
  {
    var ns := SensitiveKeys(keys, configured);
    if ArraySafe(Arr(data), ns) then Done(MaskArray(Arr(data), ns, token).entries) else Thrown
  }

  /** Looking a key up in the masked array finds the masked form of the value it held. */
  lemma MaskLookup(data: Entries, keys: seq<string>, configured: seq<string>, token: string, k: string)
    requires Mask(data, keys, configured, token).Done?
    requires Lookup(data, k).Some?
    ensures Lookup(Mask(data, keys, configured, token).value, k)
      == Some(MaskEntryValue(k, Lookup(data, k).value, SensitiveKeys(keys, configured), token))
  {
    var ns := SensitiveKeys(keys, configured);
    var r := Mask(data, keys, configured, token).value;
    LookupAtIndex(data, k);
    var i := IndexOfKey(data, k).value;
    assert r[i] == (data[i].0, MaskEntryValue(data[i].0, data[i].1, ns, token));
    assert forall j :: 0 <= j < i ==> r[j].0 == data[j].0;
    LookupFirst(r, k, i);
  }

  /** The per-key rule of `SerapUtils::mask`: a sensitive key (other than a cookie key) has its whole value
      replaced by the token, whatever that value is; a cookie key's string is masked as a cookie string and
      its array element by element, keeping the element keys, and any other value under it is kept; a value
      that is neither under a sensitive key nor an array is kept; an array under a non-sensitive key is masked
      by the recursive call, with the same sensitive keys and token. */
  lemma MaskEntryRules(data: Entries, keys: seq<string>, configured: seq<string>, token: string, i: nat)
    requires Mask(data, keys, configured, token).Done?
    requires i < |data|
    ensures var r := Mask(data, keys, configured, token).value;
      var nk := NormalizeKey(data[i].0);
      var ns := SensitiveKeys(keys, configured);
      var v := data[i].1;
      && (IsCookieKey(nk) && v.Str? ==> r[i].1 == Str(MaskCookieString(v.s, ns, token)))
      && (IsCookieKey(nk) && v.Arr? ==>
            r[i].1.Arr? && KeysOf(r[i].1.entries) == KeysOf(v.entries)
            && forall j :: 0 <= j < |v.entries| ==>
                 Coercible(v.entries[j].1)
                 && r[i].1.entries[j].1 == Str(MaskCookieString(CoerceToString(v.entries[j].1), ns, token)))
      && (IsCookieKey(nk) && !v.Str? && !v.Arr? ==> r[i].1 == v)
      && (!IsCookieKey(nk) && nk in ns ==> r[i].1 == Str(token))
      && (!IsCookieKey(nk) && nk !in ns && !v.Arr? ==> r[i].1 == v)
      && (!IsCookieKey(nk) && nk !in ns && v.Arr? ==>
            var ks := if |keys| == 0 then configured else keys;
            Mask(v.entries, ks, configured, token).Done?
            && r[i].1 == Arr(Mask(v.entries, ks, configured, token).value))
  {
    var ns := SensitiveKeys(keys, configured);
    var r := MaskArray(Arr(data), ns, token).entries;
    assert r[i] == (data[i].0, MaskEntryValue(data[i].0, data[i].1, ns, token));
    assert EntrySafe(data[i].0, data[i].1, ns);
    var v := data[i].1;
    if !IsCookieKey(NormalizeKey(data[i].0)) && NormalizeKey(data[i].0) !in ns && v.Arr? {
      var ks := if |keys| == 0 then configured else keys;
      assert SensitiveKeys(ks, configured) == ns;
      assert Arr(v.entries) == v;
    }
  }

  /** No sensitive value survives: under every sensitive non-cookie key, at any depth below non-sensitive
      arrays, the value is the token, and every sensitive part of a cookie string carries the token. */
  predicate Hidden(v: Value, ns: seq<string>, token: string)
    decreases v
  {
    match v
    case Arr(es) =>
      forall i :: 0 <= i < |es| ==>
        var nk := NormalizeKey(es[i].0);
        && (IsCookieKey(nk) ==> CookieHidden(es[i].1, ns, token))
        && (!IsCookieKey(nk) && nk in ns ==> es[i].1 == Str(token))
        && (!IsCookieKey(nk) && nk !in ns ==> Hidden(es[i].1, ns, token))
    case _ => true
  }

  /** Every sensitive `k=v` part of the cookie strings in `v` has the token after its first `=`. */
  predicate CookieHidden(v: Value, ns: seq<string>, token: string) {
    match v
    case Str(s) => CookieStringHidden(s, ns, token)
    case Arr(es) => forall i :: 0 <= i < |es| ==> (es[i].1.Str? ==> CookieStringHidden(es[i].1.s, ns, token))
    case _ => true
  }

  predicate CookieStringHidden(s: string, ns: seq<string>, token: string) {
    var ps := Split(s, ';');
    forall i :: 0 <= i < |ps| && SensitivePart(ps[i], ns) ==> SplitFirst(ps[i], '=').1 == token
  }

  lemma MaskedCookieStringHidden(s: string, ns: seq<string>, token: string)
    requires ';' !in token
    ensures CookieStringHidden(MaskCookieString(s, ns, token), ns, token)
  {
    var ps := Split(s, ';');
    var qs := Split(MaskCookieString(s, ns, token), ';');
    MaskCookieStringParts(s, ns, token);
    forall i | 0 <= i < |ps| && SensitivePart(ps[i], ns)
      ensures SplitFirst(qs[i], '=').1 == token
    {
      MaskedPartShape(ps[i], ns, token);
    }
  }

  /** The masked value under one key satisfies the hiding condition for that key. */
  lemma {:induction false} MaskEntryHides(k: string, w: Value, ns: seq<string>, token: string)
    requires ';' !in token
    ensures var nk := NormalizeKey(k); var m := MaskEntryValue(k, w, ns, token);
      && (IsCookieKey(nk) ==> CookieHidden(m, ns, token))
      && (!IsCookieKey(nk) && nk in ns ==> m == Str(token))
      && (!IsCookieKey(nk) && nk !in ns ==> Hidden(m, ns, token))
    decreases w, 1
  {
    var nk := NormalizeKey(k);
    if IsCookieKey(nk) {
      MaskedCookieValueHidden(w, ns, token);
    } else if nk !in ns && w.Arr? {
      MaskArrayHides(w, ns, token);
    }
  }

  /** Every sensitive part of the cookie strings under a cookie key carries the token after masking. */
  lemma MaskedCookieValueHidden(w: Value, ns: seq<string>, token: string)
    requires ';' !in token
    ensures CookieHidden(MaskCookieValue(w, ns, token), ns, token)
  {
    match w
    case Str(s) => MaskedCookieStringHidden(s, ns, token);
    case Arr(ws) =>
      var ms := MaskCookieValue(w, ns, token).entries;
      forall j | 0 <= j < |ms|
        ensures ms[j].1.Str? ==> CookieStringHidden(ms[j].1.s, ns, token)
      {
        if Coercible(ws[j].1) {
          assert ms[j].1 == Str(MaskCookieString(CoerceToString(ws[j].1), ns, token));
          MaskedCookieStringHidden(CoerceToString(ws[j].1), ns, token);
        }
      }
    case _ =>
  }

  /** Masking an array hides every sensitive value at every depth. */
  lemma {:induction false} MaskArrayHides(v: Value, ns: seq<string>, token: string)
    requires v.Arr?
    requires ';' !in token
    ensures Hidden(MaskArray(v, ns, token), ns, token)
    decreases v, 0
  {
    forall i | 0 <= i < |v.entries| {
      MaskEntryHides(v.entries[i].0, v.entries[i].1, ns, token);
    }
  }

  /** Whatever `SerapUtils::mask` returns hides every sensitive value at every depth. */
  lemma MaskHidesSensitive(data: Entries, keys: seq<string>, configured: seq<string>, token: string)
    requires ';' !in token
    requires Mask(data, keys, configured, token).Done?
    ensures Hidden(Arr(Mask(data, keys, configured, token).value), SensitiveKeys(keys, configured), token)
  {
    MaskArrayHides(Arr(data), SensitiveKeys(keys, configured), token);
  }

  /** Masking the masked value under one key again changes nothing and raises nothing. */
  lemma {:induction false} MaskEntryTwice(k: string, w: Value, ns: seq<string>, token: string)
    requires ';' !in token
    requires EntrySafe(k, w, ns)
    ensures var m := MaskEntryValue(k, w, ns, token);
      MaskEntryValue(k, m, ns, token) == m && EntrySafe(k, m, ns)
    decreases w, 1
  {
    var nk := NormalizeKey(k);
    if IsCookieKey(nk) {
      match w
      case Str(s) => MaskCookieStringTwice(s, ns, token);
      case Arr(ws) =>
        var m := MaskCookieValue(w, ns, token);
        forall j | 0 <= j < |ws| && Coercible(ws[j].1) {
          MaskCookieStringTwice(CoerceToString(ws[j].1), ns, token);
        }
        assert MaskCookieValue(m, ns, token) == m;
      case _ =>
    } else if nk !in ns && w.Arr? {
      MaskArrayTwice(w, ns, token);
    }
  }

  /** Masking a masked array again changes nothing, and never raises. */
  lemma {:induction false} MaskArrayTwice(v: Value, ns: seq<string>, token: string)
    requires v.Arr?
    requires ';' !in token
    requires ArraySafe(v, ns)
    ensures MaskArray(MaskArray(v, ns, token), ns, token) == MaskArray(v, ns, token)
    ensures ArraySafe(MaskArray(v, ns, token), ns)
    decreases v, 0
  {
    var r := MaskArray(v, ns, token);
    forall i | 0 <= i < |v.entries| {
      MaskEntryTwice(v.entries[i].0, v.entries[i].1, ns, token);
    }
    assert MaskArray(r, ns, token) == r;
  }

  /** `SerapUtils::mask` is idempotent. */
  lemma MaskIdempotent(data: Entries, keys: seq<string>, configured: seq<string>, token: string)
    requires ';' !in token
    requires Mask(data, keys, configured, token).Done?
    ensures Mask(Mask(data, keys, configured, token).value, keys, configured, token)
         == Mask(data, keys, configured, token)
  {
    MaskArrayTwice(Arr(data), SensitiveKeys(keys, configured), token);
  }

  /** A key with no upper-case letter, no hyphen and no surrounding whitespace is already normal. */
  lemma NormalKeyFixed(k: string)
    requires forall i :: 0 <= i < |k| ==> !IsUpper(k[i]) && k[i] != '-'
    requires |k| > 0 ==> !IsPhpWhitespace(k[0]) && !IsPhpWhitespace(k[|k| - 1])
    ensures NormalizeKey(k) == k
  {
    TrimKeeps(k, IsPhpWhitespace);
    FoldKeepsNormal(k);
  }

  /** A key with no upper-case letter and no surrounding whitespace normalises by turning hyphens into underscores. */
  lemma NormalKeyHyphens(k: string)
    requires forall i :: 0 <= i < |k| ==> !IsUpper(k[i])
    requires |k| > 0 ==> !IsPhpWhitespace(k[0]) && !IsPhpWhitespace(k[|k| - 1])
    ensures NormalizeKey(k) == ReplaceChar(k, '-', '_')
  {
    TrimKeeps(k, IsPhpWhitespace);
    LowerKeeps(k);
  }

  /** The key `0` of a one-element list is already normal. */
  lemma ZeroIsNormal()
    ensures NormalizeKey("0") == "0"
  {
    NormalKeyFixed("0");
  }

  lemma PasswordIsNormal()
    ensures NormalizeKey("password") == "password"
  {
    NormalKeyFixed("password");
  }

  lemma NoteIsNormal()
    ensures NormalizeKey("note") == "note"
  {
    NormalKeyFixed("note");
  }

  lemma ExampleSafe()
    ensures ArraySafe(Arr([("password", Str("abc")), ("note", Str("ok"))]), ["password"])
  {
    PasswordIsNormal();
    NoteIsNormal();
    assert EntrySafe("password", Str("abc"), ["password"]);
    assert EntrySafe("note", Str("ok"), ["password"]);
  }

  lemma ExampleMasked()
    ensures MaskArray(Arr([("password", Str("abc")), ("note", Str("ok"))]), ["password"], DefaultToken).entries
         == [("password", Str(DefaultToken)), ("note", Str("ok"))]
  {
    PasswordIsNormal();
    NoteIsNormal();
  }

  /** The documented example: `password` is masked and `note` is kept. */
  lemma MaskPasswordExample()
    ensures Mask([("password", Str("abc")), ("note", Str("ok"))], ["password"], [], DefaultToken)
         == Done([("password", Str(DefaultToken)), ("note", Str("ok"))])
  {
    PasswordIsNormal();
    NoteIsNormal();
    assert SensitiveKeys(["password"], []) == ["password"];
    ExampleSafe();
    ExampleMasked();
  }
}
