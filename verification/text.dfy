/** The PHP string functions the package relies on, on strings as sequences of characters.
    Case folding is ASCII only, as in PHP 8's `strtolower`, `strtoupper` and `stripos`. */
module Text {

  import opened Values

  predicate IsUpper(c: char) {
    'A' <= c <= 'Z'
  }

  predicate IsLower(c: char) {
    'a' <= c <= 'z'
  }

  function LowerChar(c: char): (d: char)
    ensures !IsUpper(d)
  {
    if IsUpper(c) then (c as int + 32) as char else c
  }

  function UpperChar(c: char): (d: char)
    ensures !IsLower(d)
  {
    if IsLower(c) then (c as int - 32) as char else c
  }

  /** `strtolower` */
  function Lower(s: string): string {
    seq(|s|, i requires 0 <= i < |s| => LowerChar(s[i]))
  }

  /** Lower-casing a string with no upper-case letter changes nothing. */
  lemma LowerKeeps(s: string)
    requires forall i :: 0 <= i < |s| ==> !IsUpper(s[i])
    ensures Lower(s) == s
  {
  }

  /** `strtoupper` */
  function Upper(s: string): string {
    seq(|s|, i requires 0 <= i < |s| => UpperChar(s[i]))
  }

  /** `str_replace($a, $b, $s)` for single characters. */
  function ReplaceChar(s: string, a: char, b: char): string {
    seq(|s|, i requires 0 <= i < |s| => if s[i] == a then b else s[i])
  }

  /** `str_replace([$a, $b], '', $s)` for single characters. */
  function RemoveChars(s: string, a: char, b: char): (r: string)
    ensures a !in r && b !in r
    ensures |r| <= |s|
  {
    if |s| == 0 then ""
    else (if s[0] == a || s[0] == b then "" else [s[0]]) + RemoveChars(s[1..], a, b)
  }

  /** The characters PHP's `trim` removes by default: space, tab, newline, carriage return, NUL, vertical tab. */
  predicate IsPhpWhitespace(c: char) {
    c == ' ' || c == '\t' || c == '\n' || c == '\r' || c == '\0' || c as int == 0x0B
  }

  function TrimLeft(s: string, drop: char -> bool): (r: string)
    ensures |r| <= |s| && r == s[|s| - |r|..]
    ensures |r| > 0 ==> !drop(r[0])
    ensures forall i :: 0 <= i < |s| - |r| ==> drop(s[i])
  {
    if |s| > 0 && drop(s[0]) then
      var r := TrimLeft(s[1..], drop);
      assert s[1..][|s| - 1 - |r|..] == s[|s| - |r|..];
      assert forall i :: 1 <= i < |s| - |r| ==> s[i] == s[1..][i - 1];
      r
    else s
  }

  function TrimRight(s: string, drop: char -> bool): (r: string)
    ensures |r| <= |s| && r == s[..|r|]
    ensures |r| > 0 ==> !drop(r[|r| - 1])
    ensures forall i :: |r| <= i < |s| ==> drop(s[i])
  {
    if |s| > 0 && drop(s[|s| - 1]) then
      var r := TrimRight(s[..|s| - 1], drop);
      assert s[..|s| - 1][..|r|] == s[..|r|];
      r
    else s
  }

  /** `trim($s, $chars)`: drops droppable characters from both ends. */
  function Trim(s: string, drop: char -> bool): (r: string)
    ensures |r| > 0 ==> !drop(r[0]) && !drop(r[|r| - 1])
  {
    TrimRight(TrimLeft(s, drop), drop)
  }

  /** Trimming a string whose ends are kept characters changes nothing. */
  lemma TrimKeeps(s: string, drop: char -> bool)
    requires |s| > 0 ==> !drop(s[0]) && !drop(s[|s| - 1])
    ensures Trim(s, drop) == s
  {
  }

  /** The character map applied by `str_replace('-', '_', strtolower($k))`. */
  function FoldChar(c: char): char {
    if LowerChar(c) == '-' then '_' else LowerChar(c)
  }

  /** Trim, lower-case, then turn hyphens into underscores: the key normalisation used throughout the package. */
  function Normalize(s: string, drop: char -> bool): string {
    ReplaceChar(Lower(Trim(s, drop)), '-', '_')
  }

  /** Folding never turns a kept character into a dropped one. */
  ghost predicate FoldKeeps(drop: char -> bool) {
    forall c :: drop(FoldChar(c)) ==> drop(c)
  }

  /** A normalised key has no ASCII upper-case letter, no hyphen and no droppable character at either end. */
  lemma {:induction false} NormalizeShape(s: string, drop: char -> bool)
    requires FoldKeeps(drop)
    ensures forall c :: c in Normalize(s, drop) ==> !IsUpper(c) && c != '-'
    ensures var r := Normalize(s, drop); |r| > 0 ==> !drop(r[0]) && !drop(r[|r| - 1])
  {
    var t := Trim(s, drop);
    var r := Normalize(s, drop);
    assert forall i :: 0 <= i < |r| ==> r[i] == FoldChar(t[i]);
    if |r| > 0 {
      assert r[0] == FoldChar(t[0]);
      assert r[|r| - 1] == FoldChar(t[|t| - 1]);
    }
  }

  /** Normalising never brings in a character other than a lower-case letter or `_`. */
  lemma NormalizeAvoids(s: string, drop: char -> bool, c: char)
    requires c !in s && !IsLower(c) && c != '_'
    ensures c !in Normalize(s, drop)
  {
    var l := TrimLeft(s, drop);
    var t := Trim(s, drop);
    var r := Normalize(s, drop);
    forall i | 0 <= i < |r|
      ensures r[i] != c
    {
      assert t[i] == l[i] == s[|s| - |l| + i];
      assert t[i] in s;
      assert r[i] == FoldChar(t[i]);
    }
  }

  /** Folding a string with no upper-case letter and no hyphen changes nothing. */
  lemma FoldKeepsNormal(k: string)
    requires forall i :: 0 <= i < |k| ==> !IsUpper(k[i]) && k[i] != '-'
    ensures ReplaceChar(Lower(k), '-', '_') == k
  {
    var l := Lower(k);
    assert forall i :: 0 <= i < |k| ==> l[i] == k[i];
    assert l == k;
    var r := ReplaceChar(l, '-', '_');
    assert forall i :: 0 <= i < |k| ==> r[i] == k[i];
  }

  /** Normalising twice is normalising once. */
  lemma {:induction false} NormalizeIdempotent(s: string, drop: char -> bool)
    requires FoldKeeps(drop)
    ensures Normalize(Normalize(s, drop), drop) == Normalize(s, drop)
  {
    var r := Normalize(s, drop);
    NormalizeShape(s, drop);
    TrimKeeps(r, drop);
    assert Lower(r) == r;
    assert ReplaceChar(r, '-', '_') == r;
  }

  /** `explode($c, $s)`: always at least one part, and no part holds the separator. */
  function Split(s: string, c: char): (r: seq<string>)
    ensures |r| >= 1
    ensures forall i :: 0 <= i < |r| ==> c !in r[i]
  {
    if |s| == 0 then [""]
    else
      var rest := Split(s[1..], c);
      if s[0] == c then [""] + rest
      else [[s[0]] + rest[0]] + rest[1..]
  }

  /** `implode($c, $ps)` */
  function Join(ps: seq<string>, c: char): string {
    if |ps| == 0 then ""
    else if |ps| == 1 then ps[0]
    else ps[0] + [c] + Join(ps[1..], c)
  }

  lemma {:induction false} JoinSplit(s: string, c: char)
    ensures Join(Split(s, c), c) == s
  {
    if |s| > 0 {
      var rest := Split(s[1..], c);
      JoinSplit(s[1..], c);
      if s[0] == c {
        assert Split(s, c) == [""] + rest;
        assert s == "" + [c] + s[1..];
      } else {
        var ps := Split(s, c);
        assert ps == [[s[0]] + rest[0]] + rest[1..];
        if |rest| == 1 {
          assert s == [s[0]] + rest[0];
        } else {
          assert ps[1..] == rest[1..];
          assert Join(rest, c) == rest[0] + [c] + Join(rest[1..], c);
          assert s == [s[0]] + s[1..];
        }
      }
    }
  }

  /** Splitting around one separator splits each side independently. */
  lemma {:induction false} SplitAround(x: string, y: string, c: char)
    ensures Split(x + [c] + y, c) == Split(x, c) + Split(y, c)
  {
    if |x| == 0 {
      assert x + [c] + y == [c] + y;
      assert ([c] + y)[1..] == y;
    } else {
      assert (x + [c] + y)[1..] == x[1..] + [c] + y;
      SplitAround(x[1..], y, c);
    }
  }

  lemma {:induction false} SplitWithoutSeparator(s: string, c: char)
    requires c !in s
    ensures Split(s, c) == [s]
  {
    if |s| > 0 {
      SplitWithoutSeparator(s[1..], c);
      assert s == [s[0]] + s[1..];
    }
  }

  /** Joining parts that hold no separator and splitting again gives the parts back. */
  lemma {:induction false} SplitJoin(ps: seq<string>, c: char)
    requires |ps| >= 1
    requires forall i :: 0 <= i < |ps| ==> c !in ps[i]
    ensures Split(Join(ps, c), c) == ps
  {
    if |ps| == 1 {
      SplitWithoutSeparator(ps[0], c);
    } else {
      SplitJoin(ps[1..], c);
      SplitAround(ps[0], Join(ps[1..], c), c);
      SplitWithoutSeparator(ps[0], c);
      assert ps == [ps[0]] + ps[1..];
    }
  }

  /** Position of the first `c` in `s`. */
  function IndexOfChar(s: string, c: char): (r: Option<nat>)
    ensures r.Some? ==> r.value < |s| && s[r.value] == c && c !in s[..r.value]
    ensures r.None? ==> c !in s
  {
    if |s| == 0 then None
    else if s[0] == c then Some(0)
    else match IndexOfChar(s[1..], c)
      case None => None
      case Some(j) => Some(j + 1)
  }

  /** `explode($c, $s, 2)` when it yields two parts: the text before and after the first `c`. */
  function SplitFirst(s: string, c: char): (r: (string, string))
    requires c in s
    ensures s == r.0 + [c] + r.1
    ensures c !in r.0
  {
    var i := IndexOfChar(s, c).value;
    assert s == s[..i] + [c] + s[i + 1..];
    (s[..i], s[i + 1..])
  }

  /** `$n` occurs in `$h` at index `i`. */
  predicate OccursAt(h: string, n: string, i: int) {
    0 <= i && i + |n| <= |h| && h[i..i + |n|] == n
  }

  /** `str_contains($h, $n)` */
  function Contains(h: string, n: string): (r: bool)
    ensures r <==> exists i :: OccursAt(h, n, i)
    decreases |h|
  {
    if |h| < |n| then false
    else if h[..|n|] == n then
      assert OccursAt(h, n, 0);
      true
    else
      var r := Contains(h[1..], n);
      assert r ==> exists i :: OccursAt(h, n, i) by {
        if r {
          var i :| OccursAt(h[1..], n, i);
          assert h[i + 1..i + 1 + |n|] == h[1..][i..i + |n|];
          assert OccursAt(h, n, i + 1);
        }
      }
      assert (exists i :: OccursAt(h, n, i)) ==> r by {
        if exists i :: OccursAt(h, n, i) {
          var i :| OccursAt(h, n, i);
          assert i != 0;
          assert h[1..][i - 1..i - 1 + |n|] == h[i..i + |n|];
          assert OccursAt(h[1..], n, i - 1);
        }
      }
      r
  }

  /** `stripos($h, $n) !== false`, with ASCII case folding. */
  predicate ContainsIgnoringCase(h: string, n: string) {
    Contains(Lower(h), Lower(n))
  }

  /** Keeps the non-empty strings, in order. */
  function NonEmpty(ps: seq<string>): (r: seq<string>)
    ensures |r| <= |ps|
    ensures forall i :: 0 <= i < |r| ==> r[i] != "" && r[i] in ps
  {
    if |ps| == 0 then []
    else (if ps[0] == "" then [] else [ps[0]]) + NonEmpty(ps[1..])
  }

  lemma {:induction false} NonEmptyAppend(a: seq<string>, b: seq<string>)
    ensures NonEmpty(a + b) == NonEmpty(a) + NonEmpty(b)
  {
    if |a| > 0 {
      assert (a + b)[1..] == a[1..] + b;
      NonEmptyAppend(a[1..], b);
    } else {
      assert a + b == b;
    }
  }

  lemma {:induction false} NonEmptyKeeps(ps: seq<string>)
    requires forall i :: 0 <= i < |ps| ==> ps[i] != ""
    ensures NonEmpty(ps) == ps
  {
    if |ps| > 0 {
      NonEmptyKeeps(ps[1..]);
      assert ps == [ps[0]] + ps[1..];
    }
  }
}
