/** PHP values as the observability package handles them: scalars and ordered associative arrays. */
module Values {

  /** The conventional Some/None datatype; `None` also stands for PHP's `null` where a value is optional. */
  datatype Option<+T> = None | Some(value: T) {
    function GetOr(default: T): T {
      match this
      case Some(v) => v
      case None => default
    }
  }

  /** The result of a PHP call that may raise: a value, or an error thrown out of the call. */
  datatype Outcome<+T> = Done(value: T) | Thrown

  /** A PHP value. An array is an ordered association list; an integer key is written as its canonical
      decimal string, which is how PHP identifies the keys `5` and `"5"`. Floats and objects are not modelled. */
  datatype Value = Null | Bool(b: bool) | Int(i: int) | Str(s: string) | Arr(entries: seq<(string, Value)>)

  type Entries = seq<(string, Value)>

  /** The keys of an association list, in order. */
  function KeysOf(es: Entries): (ks: seq<string>)
    ensures |ks| == |es|
    ensures forall i :: 0 <= i < |es| ==> ks[i] == es[i].0
  {
    if |es| == 0 then [] else [es[0].0] + KeysOf(es[1..])
  }

  /** A PHP array never holds the same key twice. */
  predicate DistinctKeys(es: Entries) {
    forall i, j :: 0 <= i < j < |es| ==> es[i].0 != es[j].0
  }

  /** `$a[$k] ?? null` for a key that PHP stores at most once. */
  function Lookup(es: Entries, k: string): Option<Value> {
    if |es| == 0 then None
    else if es[0].0 == k then Some(es[0].1)
    else Lookup(es[1..], k)
  }

  function Min(a: int, b: int): int {
    if a <= b then a else b
  }

  function Max(a: int, b: int): int {
    if a >= b then a else b
  }

  /** `$v[$k] ?? null` */
  function Field(v: Value, k: string): Value {
    if v.Arr? then Lookup(v.entries, k).GetOr(Null) else Null
  }

  /** Position of key `k` in `es`, if present. */
  function IndexOfKey(es: Entries, k: string): (r: Option<nat>)
    ensures r.Some? ==> r.value < |es| && es[r.value].0 == k
    ensures r.Some? ==> forall j :: 0 <= j < r.value ==> es[j].0 != k
    ensures r.None? ==> forall j :: 0 <= j < |es| ==> es[j].0 != k
  {
    if |es| == 0 then None
    else if es[0].0 == k then Some(0)
    else match IndexOfKey(es[1..], k)
      case None => None
      case Some(j) => Some(j + 1)
  }

  /** `$a[$k] = $v`: an existing key keeps its position and gets the new value; a new key goes last. */
  function Put(es: Entries, k: string, v: Value): Entries {
    match IndexOfKey(es, k)
    case None => es + [(k, v)]
    case Some(i) => es[i := (k, v)]
  }

  /** After `$a[$k] = $v` the key holds the value, an existing key keeps its place and a new one goes last,
      every other entry is untouched, and distinct keys stay distinct. */
  lemma PutFacts(es: Entries, k: string, v: Value)
    ensures Lookup(Put(es, k, v), k) == Some(v)
    ensures k in KeysOf(es) ==> KeysOf(Put(es, k, v)) == KeysOf(es)
    ensures k !in KeysOf(es) ==> Put(es, k, v) == es + [(k, v)]
    ensures forall j :: 0 <= j < |es| && es[j].0 != k ==> Put(es, k, v)[j] == es[j]
    ensures DistinctKeys(es) ==> DistinctKeys(Put(es, k, v))
  {
    match IndexOfKey(es, k)
    case None =>
      PutNew(es, k, v);
    case Some(i) =>
      PutExisting(es, k, v, i);
  }

  lemma PutNew(es: Entries, k: string, v: Value)
    requires forall j :: 0 <= j < |es| ==> es[j].0 != k
    ensures Put(es, k, v) == es + [(k, v)]
    ensures Lookup(es + [(k, v)], k) == Some(v)
    ensures k !in KeysOf(es)
    ensures DistinctKeys(es) ==> DistinctKeys(es + [(k, v)])
  {
    LookupAppend(es, k, v);
    var ks := KeysOf(es);
    assert forall j :: 0 <= j < |ks| ==> ks[j] != k;
  }

  lemma PutExisting(es: Entries, k: string, v: Value, i: nat)
    requires IndexOfKey(es, k) == Some(i)
    ensures Put(es, k, v) == es[i := (k, v)]
    ensures Lookup(es[i := (k, v)], k) == Some(v)
    ensures k in KeysOf(es) && KeysOf(es[i := (k, v)]) == KeysOf(es)
    ensures DistinctKeys(es) ==> DistinctKeys(es[i := (k, v)])
  {
    LookupFirst(es[i := (k, v)], k, i);
    var ks := KeysOf(es);
    assert ks[i] == k;
    var ks' := KeysOf(es[i := (k, v)]);
    assert forall j :: 0 <= j < |ks| ==> ks'[j] == ks[j];
  }

  lemma LookupAppend(es: Entries, k: string, v: Value)
    requires forall j :: 0 <= j < |es| ==> es[j].0 != k
    ensures Lookup(es + [(k, v)], k) == Some(v)
  {
    if |es| > 0 {
      assert (es + [(k, v)])[1..] == es[1..] + [(k, v)];
      LookupAppend(es[1..], k, v);
    }
  }

  /** Entries appended after a key has been found do not change what `Lookup` finds. */
  lemma {:induction false} LookupKeptByAppend(a: Entries, b: Entries, k: string)
    requires Lookup(a, k).Some?
    ensures Lookup(a + b, k) == Lookup(a, k)
  {
    if a[0].0 != k {
      assert (a + b)[1..] == a[1..] + b;
      LookupKeptByAppend(a[1..], b, k);
    }
  }

  /** `Lookup` finds a key exactly when `IndexOfKey` does, and then finds the value at that position. */
  lemma {:induction false} LookupAtIndex(es: Entries, k: string)
    ensures Lookup(es, k).Some? <==> IndexOfKey(es, k).Some?
    ensures IndexOfKey(es, k).Some? ==> Lookup(es, k) == Some(es[IndexOfKey(es, k).value].1)
  {
    if |es| > 0 && es[0].0 != k {
      LookupAtIndex(es[1..], k);
    }
  }

  lemma LookupFirst(es: Entries, k: string, i: nat)
    requires i < |es| && es[i].0 == k
    requires forall j :: 0 <= j < i ==> es[j].0 != k
    ensures Lookup(es, k) == Some(es[i].1)
  {
    if i > 0 {
      LookupFirst(es[1..], k, i - 1);
    }
  }

  /** The PHP list `[v0, v1, ...]`: keys 0, 1, ... in order. */
  function ListOf(vs: seq<Value>): Value {
    Arr(seq(|vs|, i requires 0 <= i < |vs| => (DecimalString(i), vs[i])))
  }

  /** A one-element list holds its value under the key `0`. */
  lemma ListOfOne(v: Value)
    ensures ListOf([v]) == Arr([("0", v)])
  {
    assert DecimalString(0) == "0";
  }

  /** PHP truthiness, as tested by `if ($x)` and negated by `empty($x)`. */
  predicate Truthy(v: Value) {
    match v
    case Null => false
    case Bool(b) => b
    case Int(i) => i != 0
    case Str(s) => s != "" && s != "0"
    case Arr(es) => |es| > 0
  }

  predicate IsDigit(c: char) {
    '0' <= c <= '9'
  }

  function Digit(d: int): (c: char)
    requires 0 <= d < 10
    ensures IsDigit(c)
  {
    ('0' as int + d) as char
  }

  /** The decimal text PHP produces for an integer, as in `(string) $n`. */
  function DecimalString(n: int): (r: string)
    ensures |r| > 0
    ensures forall c :: c in r ==> c == '-' || IsDigit(c)
    decreases if n < 0 then 1 - n else n
  {
    if n < 0 then "-" + DecimalString(-n)
    else if n < 10 then [Digit(n)]
    else DecimalString(n / 10) + [Digit(n % 10)]
  }

  /** The decimal text of a natural number is all digits: only a negative number starts with `-`. */
  lemma {:induction false} NaturalDigits(n: int)
    requires n >= 0
    ensures forall c :: c in DecimalString(n) ==> IsDigit(c)
    decreases n
  {
    if n >= 10 {
      NaturalDigits(n / 10);
    }
  }

  /** Different integers have different decimal texts. */
  lemma {:induction false} DecimalStringInjective(m: int, n: int)
    requires DecimalString(m) == DecimalString(n)
    ensures m == n
    decreases if m < 0 then 1 - m else m
  {
    if m < 0 && n < 0 {
      assert DecimalString(m)[1..] == DecimalString(-m);
      assert DecimalString(n)[1..] == DecimalString(-n);
      DecimalStringInjective(-m, -n);
    } else if m < 0 || n < 0 {
      SignDiffers(if m < 0 then m else n, if m < 0 then n else m);
    } else if m < 10 && n < 10 {
      DigitInjective(m, n);
    } else if m < 10 || n < 10 {
      LengthDiffers(if m < 10 then m else n, if m < 10 then n else m);
    } else {
      SnocInjective(DecimalString(m / 10), Digit(m % 10), DecimalString(n / 10), Digit(n % 10));
      DecimalStringInjective(m / 10, n / 10);
      DigitInjective(m % 10, n % 10);
    }
  }

  lemma DigitInjective(a: int, b: int)
    requires 0 <= a < 10 && 0 <= b < 10
    requires Digit(a) == Digit(b)
    ensures a == b
  {
  }

  /** A negative number's text starts with `-`, a natural number's does not. */
  lemma SignDiffers(m: int, n: int)
    requires m < 0 <= n
    ensures DecimalString(m) != DecimalString(n)
  {
    NaturalDigits(n);
    assert DecimalString(m)[0] == '-';
    assert DecimalString(n)[0] in DecimalString(n);
  }

  /** One digit is shorter than the text of a number from 10 up. */
  lemma LengthDiffers(m: int, n: int)
    requires 0 <= m < 10 <= n
    ensures DecimalString(m) != DecimalString(n)
  {
    assert |DecimalString(m)| == 1;
    assert |DecimalString(n)| == |DecimalString(n / 10)| + 1;
  }

  lemma SnocInjective<T>(a: seq<T>, x: T, b: seq<T>, y: T)
    requires a + [x] == b + [y]
    ensures a == b && x == y
  {
    assert a == (a + [x])[..|a|];
    assert b == (b + [y])[..|b|];
  }
}
