/** `QueryWatcher`: records each executed query in the `serap_queries` context list, with its bindings mapped to
    column names and sensitive columns masked. The regular expressions the mapper runs over the SQL are not
    interpreted: their matches are inputs (the predicate matches with their parts, the `SET` columns, the
    `INSERT` column list), constrained by the shapes the patterns can produce. */
module QueryWatcher {

  import opened Values
  import opened Text

  // ---------------------------------------------------------------------------------------------------------
  // shouldSkipQuery

  /** The framework's own tables, whose queries are not recorded. */
  const SkipTables: seq<string> := ["jobs", "failed_jobs", "cache", "sessions"]

  /** The characters a table name must be wrapped in to be recognised. */
  const Quotes: seq<char> := ['"', '`', ' ']

  function Wrap(t: string, q: char): string {
    [q] + t + [q]
  }

  /** The three `stripos` tests for one table. */
  predicate NamesTable(sql: string, t: string) {
    || ContainsIgnoringCase(sql, Wrap(t, '"'))
    || ContainsIgnoringCase(sql, Wrap(t, '`'))
    || ContainsIgnoringCase(sql, Wrap(t, ' '))
  }

  /** The `foreach` over the tables, returning at the first one named. */
  function SkipAny(sql: string, tables: seq<string>): (r: bool)
    ensures r <==> exists j :: 0 <= j < |tables| && NamesTable(sql, tables[j])
  {
    if |tables| == 0 then false
    else if NamesTable(sql, tables[0]) then true
    else
      var r := SkipAny(sql, tables[1..]);
      assert forall j :: 1 <= j < |tables| ==> tables[j] == tables[1..][j - 1];
      r
  }

  /** `QueryWatcher::shouldSkipQuery($sql)` */
  function ShouldSkipQuery(sql: string): bool {
    SkipAny(sql, SkipTables)
  }

  /** Table `t`, in any letter case, sits at index `i` of `sql` between two copies of `q`. */
  predicate WrappedAt(sql: string, t: string, q: char, i: int) {
    && 0 <= i && i + |t| + 2 <= |sql|
    && sql[i] == q && sql[i + |t| + 1] == q
    && Lower(sql[i + 1..i + |t| + 1]) == t
  }

  lemma LowerSlice(s: string, a: int, b: int)
    requires 0 <= a <= b <= |s|
    ensures Lower(s)[a..b] == Lower(s[a..b])
  {
  }

  /** Lower-casing leaves the wrapping characters alone, and produces one only from itself. */
  lemma LowerQuote(c: char, q: char)
    requires q in Quotes
    ensures LowerChar(q) == q
    ensures LowerChar(c) == q <==> c == q
  {
  }

  lemma LowerWrap(t: string, q: char)
    requires Lower(t) == t
    requires q in Quotes
    ensures Lower(Wrap(t, q)) == Wrap(t, q)
  {
    var w := Wrap(t, q);
    LowerQuote(q, q);
    forall k | 0 <= k < |w|
      ensures Lower(w)[k] == w[k]
    {
      if 0 < k < |w| - 1 {
        assert w[k] == t[k - 1] && Lower(t)[k - 1] == LowerChar(t[k - 1]);
      }
    }
  }

  /** The wrapped name occurs in the lower-cased query at `i` exactly when it is wrapped there in the query. */
  lemma OccursWrapped(sql: string, t: string, q: char, i: int)
    requires Lower(t) == t
    requires q in Quotes
    ensures OccursAt(Lower(sql), Wrap(t, q), i) <==> WrappedAt(sql, t, q, i)
  {
    var n := |t|;
    if 0 <= i && i + n + 2 <= |sql| {
      var l := Lower(sql);
      var x := l[i + 1..i + n + 1];
      assert l[i..i + n + 2] == [l[i]] + x + [l[i + n + 1]];
      LowerSlice(sql, i + 1, i + n + 1);
      LowerQuote(sql[i], q);
      LowerQuote(sql[i + n + 1], q);
      if l[i..i + n + 2] == Wrap(t, q) {
        assert l[i] == q && l[i + n + 1] == q;
        assert x == l[i..i + n + 2][1..n + 1] == t;
      }
    }
  }

  /** For a lower-case name, the case-insensitive search for the wrapped name finds exactly the places where
      the name, in any case, stands between two wrapping characters. */
  lemma WrappedIff(sql: string, t: string, q: char)
    requires Lower(t) == t
    requires q in Quotes
    ensures ContainsIgnoringCase(sql, Wrap(t, q)) <==> exists i :: WrappedAt(sql, t, q, i)
  {
    LowerWrap(t, q);
    forall i
      ensures OccursAt(Lower(sql), Wrap(t, q), i) <==> WrappedAt(sql, t, q, i)
    {
      OccursWrapped(sql, t, q, i);
    }
  }

  /** The table names are already lower-case. */
  lemma SkipTablesLower(j: nat)
    requires j < |SkipTables|
    ensures Lower(SkipTables[j]) == SkipTables[j]
  {
    var t := SkipTables[j];
    assert forall k :: 0 <= k < |t| ==> !IsUpper(t[k]);
    assert forall k :: 0 <= k < |t| ==> Lower(t)[k] == t[k];
  }

  /** A query is skipped exactly when it names one of the framework's tables, in any letter case, between
      double quotes, between backticks, or between single spaces. */
  lemma ShouldSkipQueryIff(sql: string)
    ensures ShouldSkipQuery(sql) <==>
      exists t, q, i :: t in SkipTables && q in Quotes && WrappedAt(sql, t, q, i)
  {
    forall j | 0 <= j < |SkipTables|
      ensures NamesTable(sql, SkipTables[j]) <==> exists q, i :: q in Quotes && WrappedAt(sql, SkipTables[j], q, i)
    {
      SkipTablesLower(j);
      WrappedIff(sql, SkipTables[j], '"');
      WrappedIff(sql, SkipTables[j], '`');
      WrappedIff(sql, SkipTables[j], ' ');
    }
  }

  // ---------------------------------------------------------------------------------------------------------
  // normalizeKey and maskIfSensitive

  /** The characters `QueryWatcher::normalizeKey` trims. */
  predicate IsQuoteOrSpace(c: char) {
    c == '`' || c == '"' || c == ' '
  }

  /** `QueryWatcher::normalizeKey`: trim backticks, double quotes and spaces, lower-case, hyphens to underscores. */
  function ColumnKey(k: string): string {
    Normalize(k, IsQuoteOrSpace)
  }

  /** A normalised column is a fixed point of normalisation, with no backtick, double quote or space at either
      end, no ASCII upper-case letter and no hyphen. */
  lemma ColumnKeyIsNormal(k: string)
    ensures ColumnKey(ColumnKey(k)) == ColumnKey(k)
    ensures forall c :: c in ColumnKey(k) ==> !IsUpper(c) && c != '-'
    ensures var r := ColumnKey(k); |r| > 0 ==> !IsQuoteOrSpace(r[0]) && !IsQuoteOrSpace(r[|r| - 1])
  {
    NormalizeShape(k, IsQuoteOrSpace);
    NormalizeIdempotent(k, IsQuoteOrSpace);
  }

  /** A name with no upper-case letter, no hyphen and nothing to trim is already normal. */
  lemma ColumnKeyFixed(k: string)
    requires forall i :: 0 <= i < |k| ==> !IsUpper(k[i]) && k[i] != '-'
    requires |k| > 0 ==> !IsQuoteOrSpace(k[0]) && !IsQuoteOrSpace(k[|k| - 1])
    ensures ColumnKey(k) == k
  {
    TrimKeeps(k, IsQuoteOrSpace);
    FoldKeepsNormal(k);
  }

  /** The default `$mask` of `maskIfSensitive`. */
  const QueryToken: string := "******"

  /** `config('gol.sensitive_keys', ['password'])`, normalised; `None` when nothing is configured. */
  function SensitiveColumns(configured: Option<seq<string>>): (ns: seq<string>)
    ensures configured.None? ==> ns == [ColumnKey("password")]
  {
    var ks := configured.GetOr(["password"]);
    seq(|ks|, i requires 0 <= i < |ks| => ColumnKey(ks[i]))
  }

  /** `maskIfSensitive($col, $value, $sensitive)`: strict `in_array` on the normalised column. */
  function MaskIfSensitive(col: string, v: Value, sensitive: seq<string>): Value {
    if col in sensitive then Str(QueryToken) else v
  }

  // ---------------------------------------------------------------------------------------------------------
  // The binding cursor

  /** `isset($bindings[$i])`: present and not null. Bindings are a list. */
  predicate IsSet(bindings: seq<Value>, i: nat) {
    i < |bindings| && bindings[i] != Null
  }

  /** The mapped array so far and `$bindingIndex`. */
  datatype Mapping = Mapping(mapped: Entries, cursor: nat)

  /** Where one binding goes: the array key, and the column whose sensitivity decides the masking. */
  datatype Slot = Slot(key: string, column: string)

  /** `if (isset($bindings[$bindingIndex])) $mapped[$key] = maskIfSensitive($col, $bindings[$bindingIndex++], ...)` */
  function Consume(st: Mapping, slot: Slot, bindings: seq<Value>, sensitive: seq<string>): (r: Mapping)
    ensures IsSet(bindings, st.cursor) ==> r.cursor == st.cursor + 1
    ensures IsSet(bindings, st.cursor) ==>
      Lookup(r.mapped, slot.key) == Some(MaskIfSensitive(slot.column, bindings[st.cursor], sensitive))
    ensures !IsSet(bindings, st.cursor) ==> r == st
  {
    if IsSet(bindings, st.cursor) then
      PutFacts(st.mapped, slot.key, MaskIfSensitive(slot.column, bindings[st.cursor], sensitive));
      Mapping(Put(st.mapped, slot.key, MaskIfSensitive(slot.column, bindings[st.cursor], sensitive)),
              st.cursor + 1)
    else st
  }

  /** Consuming for each slot in turn. */
  function ConsumeAll(st: Mapping, slots: seq<Slot>, bindings: seq<Value>, sensitive: seq<string>): Mapping
    decreases |slots|
  {
    if |slots| == 0 then st
    else ConsumeAll(Consume(st, slots[0], bindings, sensitive), slots[1..], bindings, sensitive)
  }

  /** The bindings an IN list takes: for each of `n` placeholders, the binding under the cursor if it is set. */
  function TakeValues(bindings: seq<Value>, cursor: nat, n: nat, col: string, sensitive: seq<string>)
    : (r: (seq<Value>, nat))
    ensures cursor <= r.1 && |r.0| == r.1 - cursor
    ensures forall j :: cursor <= j < r.1 ==> IsSet(bindings, j)
    ensures forall j :: 0 <= j < |r.0| ==>
      IsSet(bindings, cursor + j) && r.0[j] == MaskIfSensitive(col, bindings[cursor + j], sensitive)
    decreases n
  {
    if n == 0 then ([], cursor)
    else if IsSet(bindings, cursor) then
      var (vs, c) := TakeValues(bindings, cursor + 1, n - 1, col, sensitive);
      ([MaskIfSensitive(col, bindings[cursor], sensitive)] + vs, c)
    else TakeValues(bindings, cursor, n - 1, col, sensitive)
  }

  /** `$mapped[$col] = $values` after the IN loop. */
  function TakeList(st: Mapping, col: string, n: nat, bindings: seq<Value>, sensitive: seq<string>)
    : (r: Mapping)
    ensures st.cursor <= r.cursor
    ensures forall j :: st.cursor <= j < r.cursor ==> IsSet(bindings, j)
  {
    var (vs, c) := TakeValues(bindings, st.cursor, n, col, sensitive);
    Mapping(Put(st.mapped, col, ListOf(vs)), c)
  }

  /** `substr_count($s, $c)` for one character. */
  function CountChar(s: string, c: char): nat {
    if |s| == 0 then 0 else (if s[0] == c then 1 else 0) + CountChar(s[1..], c)
  }

  // ---------------------------------------------------------------------------------------------------------
  // The predicate pass

  /** `\w` */
  predicate IsWordChar(c: char) {
    IsUpper(c) || IsLower(c) || IsDigit(c) || c == '_'
  }

  /** `\s` */
  predicate IsRegexSpace(c: char) {
    c == ' ' || c == '\t' || c == '\n' || c == '\r' || c as int == 0x0B || c as int == 0x0C
  }

  /** The operators of the predicate pattern, upper-cased. */
  const Operators: seq<string> := ["=", "<", ">", "<=", ">=", "LIKE", "BETWEEN", "IN"]

  /** One match of `/([`\w\.\"]+)\s*(=|<|>|<=|>=|LIKE|BETWEEN|IN)\s*(\?|[\(])/i`: the column, the spacing, the
      operator as written and the closing `?` or `(`. `list` is what the package needs for an IN match but
      does not have: the text inside the parenthesised list that follows in the SQL, if any. */
  datatype PredMatch = PredMatch(column: string, gap1: string, op: string, gap2: string, opener: char,
                                 list: Option<string>)

  /** `$match[0]`, the matched text. */
  function MatchText(m: PredMatch): string {
    m.column + m.gap1 + m.op + m.gap2 + [m.opener]
  }

  /** What the predicate pattern can match; for an IN list, a non-empty text without `)`. */
  predicate MatchShape(m: PredMatch) {
    && |m.column| > 0
    && (forall c :: c in m.column ==> IsWordChar(c) || c == '`' || c == '.' || c == '"')
    && (forall c :: c in m.gap1 ==> IsRegexSpace(c))
    && (forall c :: c in m.gap2 ==> IsRegexSpace(c))
    && Upper(m.op) in Operators
    && (m.opener == '?' || m.opener == '(')
    && (m.list.Some? ==> |m.list.value| > 0 && ')' !in m.list.value)
  }

  /** The IN-list pattern `/\bIN\s*\(([^)]+)\)/i` tried at index `i`: the list's text if it matches there. */
  function InnerInAt(t: string, i: nat): (r: Option<string>)
    requires i + 2 <= |t|
    ensures r.Some? ==> ')' in t
  {
    if (i == 0 || !IsWordChar(t[i - 1])) && Upper(t[i..i + 2]) == "IN" then
      var u := TrimLeft(t[i + 2..], IsRegexSpace);
      if |u| > 0 && u[0] == '(' then
        match IndexOfChar(u[1..], ')')
        case Some(j) =>
          if j > 0 then
            assert u[1..][j] == t[|t| - |u| + 1 + j];
            Some(u[1..][..j])
          else None
        case None => None
      else None
    else None
  }

  /** `preg_match('/\bIN\s*\(([^)]+)\)/i', $t, $inMatch)`: the leftmost match's list text. */
  function InnerIn(t: string, from: nat): (r: Option<string>)
    ensures r.Some? ==> ')' in t
    decreases |t| - from
  {
    if from + 2 > |t| then None
    else match InnerInAt(t, from)
      case Some(x) => Some(x)
      case None => InnerIn(t, from + 1)
  }

  /** The predicate pattern's match never holds a `)`, so the IN-list pattern run on it never matches. */
  lemma InnerInNeverMatches(m: PredMatch)
    requires MatchShape(m)
    ensures InnerIn(MatchText(m), 0).None?
  {
    var u := Upper(m.op);
    assert forall o :: o in Operators ==> ')' !in o;
    assert ')' !in u;
    assert forall k :: 0 <= k < |m.op| ==> u[k] == UpperChar(m.op[k]) && u[k] in u;
    assert ')' !in m.op;
    assert ')' !in MatchText(m);
  }

  /** One predicate match, given its upper-cased operator, its normalised column and the text of its IN list
      as found (`None`: not found): BETWEEN fills `<col>_from` and `<col>_to`, IN fills a list of one binding
      per `?` in the list, any other operator fills `<col>`. */
  function OperatorStep(st: Mapping, op: string, col: string, list: Option<string>, bindings: seq<Value>,
                        sensitive: seq<string>): (r: Mapping)
    ensures st.cursor <= r.cursor
    ensures forall j :: st.cursor <= j < r.cursor ==> IsSet(bindings, j)
  {
    if op == "BETWEEN" then
      var from := Consume(st, Slot(col + "_from", col), bindings, sensitive);
      Consume(from, Slot(col + "_to", col), bindings, sensitive)
    else if op == "IN" then
      match list
      case None => st
      case Some(inner) => TakeList(st, col, CountChar(inner, '?'), bindings, sensitive)
    else Consume(st, Slot(col, col), bindings, sensitive)
  }

  /** One predicate match as written: the IN list is looked for in the matched text only. */
  function PredicateStep(st: Mapping, m: PredMatch, bindings: seq<Value>, sensitive: seq<string>): (r: Mapping)
    ensures st.cursor <= r.cursor
    ensures forall j :: st.cursor <= j < r.cursor ==> IsSet(bindings, j)
  {
    OperatorStep(st, Upper(m.op), ColumnKey(m.column), InnerIn(MatchText(m), 0), bindings, sensitive)
  }

  function PredicatePass(st: Mapping, ms: seq<PredMatch>, bindings: seq<Value>, sensitive: seq<string>)
    : (r: Mapping)
    ensures st.cursor <= r.cursor
    ensures forall j :: st.cursor <= j < r.cursor ==> IsSet(bindings, j)
    decreases |ms|
  {
    if |ms| == 0 then st
    else PredicatePass(PredicateStep(st, ms[0], bindings, sensitive), ms[1..], bindings, sensitive)
  }

  // ---------------------------------------------------------------------------------------------------------
  // The SET and INSERT passes and the whole mapper

  /** A binding for each column, keyed by the column itself. */
  function ColumnSlots(cols: seq<string>): (slots: seq<Slot>)
    ensures |slots| == |cols|
    ensures forall i :: 0 <= i < |cols| ==> slots[i] == Slot(cols[i], cols[i])
  {
    seq(|cols|, i requires 0 <= i < |cols| => Slot(cols[i], cols[i]))
  }

  /** The `SET` pass's columns, normalised. */
  function SetColumns(captured: seq<string>): (cols: seq<string>)
    ensures |cols| == |captured|
  {
    seq(|captured|, i requires 0 <= i < |captured| => ColumnKey(captured[i]))
  }

  /** The `INSERT` pass's columns: the captured list exploded on `,`, quotes removed, normalised. */
  function InsertColumns(list: string): (cols: seq<string>)
    ensures |cols| == |Split(list, ',')|
    ensures forall i :: 0 <= i < |cols| ==> ColumnKey(cols[i]) == cols[i] && '`' !in cols[i] && '"' !in cols[i]
  {
    var parts := Split(list, ',');
    var cols := seq(|parts|, i requires 0 <= i < |parts| => ColumnKey(RemoveChars(parts[i], '`', '"')));
    assert forall i :: 0 <= i < |cols| ==> ColumnKey(cols[i]) == cols[i] && '`' !in cols[i] && '"' !in cols[i] by {
      forall i | 0 <= i < |cols|
        ensures ColumnKey(cols[i]) == cols[i] && '`' !in cols[i] && '"' !in cols[i]
      {
        var raw := RemoveChars(parts[i], '`', '"');
        ColumnKeyIsNormal(raw);
        NormalizeAvoids(raw, IsQuoteOrSpace, '`');
        NormalizeAvoids(raw, IsQuoteOrSpace, '"');
      }
    }
    cols
  }

  function InsertSlots(insert: Option<string>): seq<Slot> {
    if insert.Some? then ColumnSlots(InsertColumns(insert.value)) else []
  }

  /** What the three patterns found in a query: the predicate matches in order, the `SET` captures, and the
      `INSERT` column list if the `VALUES` pattern matched. */
  datatype Matches = Matches(predicates: seq<PredMatch>, setColumns: seq<string>, insert: Option<string>)

  predicate Shaped(ms: Matches) {
    forall i :: 0 <= i < |ms.predicates| ==> MatchShape(ms.predicates[i])
  }

  /** The three passes, sharing one cursor; the final state. */
  function MapBindingsState(ms: Matches, bindings: seq<Value>, sensitive: seq<string>): Mapping {
    var st := PredicatePass(Mapping([], 0), ms.predicates, bindings, sensitive);
    var st := ConsumeAll(st, ColumnSlots(SetColumns(ms.setColumns)), bindings, sensitive);
    ConsumeAll(st, InsertSlots(ms.insert), bindings, sensitive)
  }

  /** `QueryWatcher::mapBindingsWithColumns($sql, $bindings)`. */
  function MapBindingsWithColumns(ms: Matches, bindings: seq<Value>, configured: Option<seq<string>>): Entries {
    MapBindingsState(ms, bindings, SensitiveColumns(configured)).mapped
  }

  // ---------------------------------------------------------------------------------------------------------
  // The reference: the i-th leading binding fills the i-th slot

  /** The number of set bindings from `c` on, up to the first null or the end. */
  function Run(bindings: seq<Value>, c: nat): (r: nat)
    ensures forall j :: c <= j < c + r ==> IsSet(bindings, j)
    ensures !IsSet(bindings, c + r)
    decreases |bindings| - c
  {
    if IsSet(bindings, c) then 1 + Run(bindings, c + 1) else 0
  }

  /** The binding at `i`, `null` when it is missing. */
  function BindingAt(bindings: seq<Value>, i: nat): Value {
    if IsSet(bindings, i) then bindings[i] else Null
  }

  /** The bindings `c .. c + n - 1`. */
  function Taken(bindings: seq<Value>, c: nat, n: nat): (vs: seq<Value>)
    ensures |vs| == n
    decreases n
  {
    if n == 0 then [] else [BindingAt(bindings, c)] + Taken(bindings, c + 1, n - 1)
  }

  /** `$mapped[$key_i] = maskIfSensitive($col_i, $v_i)` for each slot and value in turn. */
  function Assign(es: Entries, slots: seq<Slot>, vals: seq<Value>, sensitive: seq<string>): Entries
    requires |vals| == |slots|
    decreases |slots|
  {
    if |slots| == 0 then es
    else Assign(Put(es, slots[0].key, MaskIfSensitive(slots[0].column, vals[0], sensitive)), slots[1..], vals[1..],
                sensitive)
  }

  /** Consuming for a list of slots fills the first `n` of them with the next `n` bindings, where `n` stops at
      the first null binding: a null stalls the cursor for every later slot. */
  lemma ConsumeAllFills(st: Mapping, slots: seq<Slot>, bindings: seq<Value>, sensitive: seq<string>)
    ensures var n := Min(|slots|, Run(bindings, st.cursor));
      ConsumeAll(st, slots, bindings, sensitive)
        == Mapping(Assign(st.mapped, slots[..n], Taken(bindings, st.cursor, n), sensitive), st.cursor + n)
  {
    FillsCount(st, slots, bindings, sensitive, Min(|slots|, Run(bindings, st.cursor)));
  }

  /** `ConsumeAllFills` with the number of filled slots named `n`. */
  lemma {:induction false} FillsCount(st: Mapping, slots: seq<Slot>, bindings: seq<Value>,
                                      sensitive: seq<string>, n: nat)
    requires n == Min(|slots|, Run(bindings, st.cursor))
    ensures ConsumeAll(st, slots, bindings, sensitive)
      == Mapping(Assign(st.mapped, slots[..n], Taken(bindings, st.cursor, n), sensitive), st.cursor + n)
    decreases |slots|
  {
    if |slots| > 0 {
      CountStep(st, slots, bindings, sensitive, n);
      if IsSet(bindings, st.cursor) {
        FillsCount(Consume(st, slots[0], bindings, sensitive), slots[1..], bindings, sensitive, n - 1);
        ConsumeAllFillsStep(st, slots, bindings, sensitive, n - 1);
      } else {
        FillsCount(st, slots[1..], bindings, sensitive, 0);
        FillsNull(st, slots, bindings, sensitive);
      }
    } else {
      AssignNone(st.mapped, slots[..n], Taken(bindings, st.cursor, n), sensitive);
    }
  }

  /** How the count of filled slots moves past the first slot: down by one over a set binding, staying zero
      over a null. */
  lemma CountStep(st: Mapping, slots: seq<Slot>, bindings: seq<Value>, sensitive: seq<string>, n: nat)
    requires |slots| > 0 && n == Min(|slots|, Run(bindings, st.cursor))
    ensures var st1 := Consume(st, slots[0], bindings, sensitive);
      && (IsSet(bindings, st.cursor) ==> n > 0 && n - 1 == Min(|slots[1..]|, Run(bindings, st1.cursor)))
      && (!IsSet(bindings, st.cursor) ==> n == 0 && st1 == st && 0 == Min(|slots[1..]|, Run(bindings, st.cursor)))
  {
    var c := st.cursor;
    if IsSet(bindings, c) {
      assert Consume(st, slots[0], bindings, sensitive).cursor == c + 1;
      assert Run(bindings, c) == 1 + Run(bindings, c + 1);
    } else {
      assert Run(bindings, c) == 0;
    }
  }

  /** The null step of `FillsCount`: a null under the cursor leaves everything as it is. */
  lemma FillsNull(st: Mapping, slots: seq<Slot>, bindings: seq<Value>, sensitive: seq<string>)
    requires |slots| > 0 && !IsSet(bindings, st.cursor)
    requires ConsumeAll(st, slots[1..], bindings, sensitive)
      == Mapping(Assign(st.mapped, slots[1..][..0], Taken(bindings, st.cursor, 0), sensitive), st.cursor + 0)
    ensures ConsumeAll(st, slots, bindings, sensitive)
      == Mapping(Assign(st.mapped, slots[..0], Taken(bindings, st.cursor, 0), sensitive), st.cursor + 0)
  {
    var c := st.cursor;
    assert Consume(st, slots[0], bindings, sensitive) == st;
    AssignNone(st.mapped, slots[..0], Taken(bindings, c, 0), sensitive);
    AssignNone(st.mapped, slots[1..][..0], Taken(bindings, c, 0), sensitive);
    ConsumeAllCons(st, slots, bindings, sensitive);
  }

  lemma AssignNone(es: Entries, slots: seq<Slot>, vals: seq<Value>, sensitive: seq<string>)
    requires |slots| == |vals| == 0
    ensures Assign(es, slots, vals, sensitive) == es
  {
  }

  lemma SliceTail<T>(s: seq<T>, n: nat)
    requires 0 < n <= |s|
    ensures s[..n][0] == s[0] && s[..n][1..] == s[1..][..n - 1]
  {
  }

  /** The inductive step of `ConsumeAllFills` when the binding under the cursor is set: `n1` slots filled after
      the first means `n1 + 1` filled from the first. */
  lemma ConsumeAllFillsStep(st: Mapping, slots: seq<Slot>, bindings: seq<Value>, sensitive: seq<string>,
                            n1: nat)
    requires n1 < |slots| && IsSet(bindings, st.cursor)
    requires var st1 := Consume(st, slots[0], bindings, sensitive);
      ConsumeAll(st1, slots[1..], bindings, sensitive)
        == Mapping(Assign(st1.mapped, slots[1..][..n1], Taken(bindings, st1.cursor, n1), sensitive), st1.cursor + n1)
    ensures ConsumeAll(st, slots, bindings, sensitive)
      == Mapping(Assign(st.mapped, slots[..n1 + 1], Taken(bindings, st.cursor, n1 + 1), sensitive), st.cursor + n1 + 1)
  {
    var c := st.cursor;
    var n := n1 + 1;
    var st1 := Consume(st, slots[0], bindings, sensitive);
    assert st1.mapped == Put(st.mapped, slots[0].key, MaskIfSensitive(slots[0].column, bindings[c], sensitive));
    ConsumeAllCons(st, slots, bindings, sensitive);
    TakenCons(bindings, c, n);
    SliceTail(slots, n);
    AssignCons(st.mapped, slots[..n], Taken(bindings, c, n), sensitive);
  }

  lemma ConsumeAllCons(st: Mapping, slots: seq<Slot>, bindings: seq<Value>, sensitive: seq<string>)
    requires |slots| > 0
    ensures ConsumeAll(st, slots, bindings, sensitive)
      == ConsumeAll(Consume(st, slots[0], bindings, sensitive), slots[1..], bindings, sensitive)
  {
  }

  lemma TakenCons(bindings: seq<Value>, c: nat, n: nat)
    requires n > 0 && IsSet(bindings, c)
    ensures var vs := Taken(bindings, c, n);
      vs[0] == bindings[c] && vs[1..] == Taken(bindings, c + 1, n - 1)
  {
  }

  lemma AssignCons(es: Entries, slots: seq<Slot>, vals: seq<Value>, sensitive: seq<string>)
    requires 0 < |slots| == |vals|
    ensures Assign(es, slots, vals, sensitive)
      == Assign(Put(es, slots[0].key, MaskIfSensitive(slots[0].column, vals[0], sensitive)), slots[1..], vals[1..],
                sensitive)
  {
  }

  lemma {:induction false} ConsumeAllAppend(st: Mapping, a: seq<Slot>, b: seq<Slot>, bindings: seq<Value>,
                                            sensitive: seq<string>)
    ensures ConsumeAll(st, a + b, bindings, sensitive)
      == ConsumeAll(ConsumeAll(st, a, bindings, sensitive), b, bindings, sensitive)
    decreases |a|
  {
    if |a| == 0 {
      assert a + b == b;
    } else {
      assert (a + b)[1..] == a[1..] + b;
      ConsumeAllAppend(Consume(st, a[0], bindings, sensitive), a[1..], b, bindings, sensitive);
    }
  }

  /** The slots one predicate match stands for, as written: two for BETWEEN, none for IN, one otherwise. */
  function StepSlots(m: PredMatch): seq<Slot> {
    var col := ColumnKey(m.column);
    var op := Upper(m.op);
    if op == "BETWEEN" then [Slot(col + "_from", col), Slot(col + "_to", col)]
    else if op == "IN" then []
    else [Slot(col, col)]
  }

  function PredicateSlots(ps: seq<PredMatch>): seq<Slot>
    decreases |ps|
  {
    if |ps| == 0 then [] else StepSlots(ps[0]) + PredicateSlots(ps[1..])
  }

  /** Every slot of a query, in the order the passes visit them. */
  function Slots(ms: Matches): seq<Slot> {
    PredicateSlots(ms.predicates) + ColumnSlots(SetColumns(ms.setColumns)) + InsertSlots(ms.insert)
  }

  /** Under the pattern's shape, one predicate match consumes for exactly its slots. */
  lemma StepSlotsAgree(st: Mapping, m: PredMatch, bindings: seq<Value>, sensitive: seq<string>)
    requires MatchShape(m)
    ensures PredicateStep(st, m, bindings, sensitive) == ConsumeAll(st, StepSlots(m), bindings, sensitive)
  {
    InnerInNeverMatches(m);
    var s := StepSlots(m);
    if |s| == 2 {
      var st1 := Consume(st, s[0], bindings, sensitive);
      assert ConsumeAll(st, s, bindings, sensitive) == ConsumeAll(st1, s[1..], bindings, sensitive);
      assert ConsumeAll(st1, s[1..], bindings, sensitive)
        == ConsumeAll(Consume(st1, s[1], bindings, sensitive), s[1..][1..], bindings, sensitive);
      assert s[1..][1..] == [];
    } else if |s| == 1 {
      assert s[1..] == [];
    }
  }

  lemma {:induction false} PredicatePassSlots(st: Mapping, ps: seq<PredMatch>, bindings: seq<Value>,
                                              sensitive: seq<string>)
    requires forall i :: 0 <= i < |ps| ==> MatchShape(ps[i])
    ensures PredicatePass(st, ps, bindings, sensitive) == ConsumeAll(st, PredicateSlots(ps), bindings, sensitive)
    decreases |ps|
  {
    if |ps| > 0 {
      var m := ps[0];
      var st1 := PredicateStep(st, m, bindings, sensitive);
      StepSlotsAgree(st, m, bindings, sensitive);
      PredicatePassSlots(st1, ps[1..], bindings, sensitive);
      ConsumeAllAppend(st, StepSlots(m), PredicateSlots(ps[1..]), bindings, sensitive);
    }
  }

  /** The mapper as a whole: the leading set bindings fill the query's slots in order, each masked when its
      column is sensitive, until the slots or the set bindings run out; nothing else is mapped. */
  lemma MapBindingsReference(ms: Matches, bindings: seq<Value>, configured: Option<seq<string>>)
    requires Shaped(ms)
    ensures var slots := Slots(ms);
      var n := Min(|slots|, Run(bindings, 0));
      var sensitive := SensitiveColumns(configured);
      && MapBindingsWithColumns(ms, bindings, configured) == Assign([], slots[..n], Taken(bindings, 0, n), sensitive)
      && MapBindingsState(ms, bindings, sensitive).cursor == n
  {
    var sensitive := SensitiveColumns(configured);
    var st0 := Mapping([], 0);
    var p := PredicateSlots(ms.predicates);
    var s := ColumnSlots(SetColumns(ms.setColumns));
    var i := InsertSlots(ms.insert);
    PredicatePassSlots(st0, ms.predicates, bindings, sensitive);
    ConsumeAllAppend(st0, p, s, bindings, sensitive);
    ConsumeAllAppend(st0, p + s, i, bindings, sensitive);
    ConsumeAllFills(st0, p + s + i, bindings, sensitive);
  }

  /** The cursor, over all three passes, only moves forward over set bindings: it never passes the number of
      bindings, and never passes a null one. */
  lemma MapBindingsCursor(ms: Matches, bindings: seq<Value>, sensitive: seq<string>)
    ensures var c := MapBindingsState(ms, bindings, sensitive).cursor;
      c <= |bindings| && c <= Run(bindings, 0)
  {
    var st1 := PredicatePass(Mapping([], 0), ms.predicates, bindings, sensitive);
    var st2 := ConsumeAll(st1, ColumnSlots(SetColumns(ms.setColumns)), bindings, sensitive);
    var st3 := ConsumeAll(st2, InsertSlots(ms.insert), bindings, sensitive);
    ConsumeAllCursor(st1, ColumnSlots(SetColumns(ms.setColumns)), bindings, sensitive);
    ConsumeAllCursor(st2, InsertSlots(ms.insert), bindings, sensitive);
    assert forall j :: 0 <= j < st3.cursor ==> IsSet(bindings, j);
    RunCovers(bindings, 0, st3.cursor);
  }

  /** Consuming only moves the cursor forward, and only over set bindings. */
  lemma {:induction false} ConsumeAllCursor(st: Mapping, slots: seq<Slot>, bindings: seq<Value>,
                                            sensitive: seq<string>)
    ensures var r := ConsumeAll(st, slots, bindings, sensitive);
      st.cursor <= r.cursor && forall j :: st.cursor <= j < r.cursor ==> IsSet(bindings, j)
    decreases |slots|
  {
    if |slots| > 0 {
      ConsumeAllCursor(Consume(st, slots[0], bindings, sensitive), slots[1..], bindings, sensitive);
    }
  }

  /** The set prefix from `c` is at least as long as any set stretch starting there. */
  lemma {:induction false} RunCovers(bindings: seq<Value>, c: nat, e: nat)
    requires c <= e
    requires forall j :: c <= j < e ==> IsSet(bindings, j)
    ensures e <= c + Run(bindings, c) && e <= |bindings| + (if c <= |bindings| then 0 else c - |bindings|)
    decreases e - c
  {
    if c < e {
      RunCovers(bindings, c + 1, e);
    }
  }

  // ---------------------------------------------------------------------------------------------------------
  // IN lists

  /** The bindings one predicate match stands for in the query: two for BETWEEN, one per `?` of the list for IN,
      one otherwise. */
  function Placeholders(m: PredMatch): nat {
    var op := Upper(m.op);
    if op == "BETWEEN" then 2
    else if op == "IN" then (if m.list.Some? then CountChar(m.list.value, '?') else 0)
    else 1
  }

  function AllPlaceholders(ps: seq<PredMatch>): nat
    decreases |ps|
  {
    if |ps| == 0 then 0 else Placeholders(ps[0]) + AllPlaceholders(ps[1..])
  }

  /** The placeholders inside IN lists. */
  function InListPlaceholders(ps: seq<PredMatch>): nat
    decreases |ps|
  {
    if |ps| == 0 then 0
    else (if Upper(ps[0].op) == "IN" then Placeholders(ps[0]) else 0) + InListPlaceholders(ps[1..])
  }

  lemma {:induction false} PredicateSlotsCount(ps: seq<PredMatch>)
    ensures |PredicateSlots(ps)| == AllPlaceholders(ps) - InListPlaceholders(ps)
    ensures InListPlaceholders(ps) <= AllPlaceholders(ps)
    decreases |ps|
  {
    if |ps| > 0 {
      PredicateSlotsCount(ps[1..]);
    }
  }

  /** Moving the cursor over set bindings shortens the set run by as much. */
  lemma {:induction false} RunShift(bindings: seq<Value>, c: nat, k: nat)
    requires k <= Run(bindings, c)
    ensures Run(bindings, c + k) == Run(bindings, c) - k
    decreases k
  {
    if k > 0 {
      RunShift(bindings, c + 1, k - 1);
    }
  }

  /** As written, the predicate pass moves the cursor past every placeholder except those inside IN lists
      (until a null binding stops it), so every later column reads a binding that belongs to an earlier one. */
  lemma PredicatePassSkipsInLists(st: Mapping, ps: seq<PredMatch>, bindings: seq<Value>, sensitive: seq<string>)
    requires forall i :: 0 <= i < |ps| ==> MatchShape(ps[i])
    ensures PredicatePass(st, ps, bindings, sensitive).cursor
      == st.cursor + Min(AllPlaceholders(ps) - InListPlaceholders(ps), Run(bindings, st.cursor))
  {
    PredicatePassSlots(st, ps, bindings, sensitive);
    ConsumeAllFills(st, PredicateSlots(ps), bindings, sensitive);
    PredicateSlotsCount(ps);
  }

  /** One predicate match with the IN list counted in the query's own list rather than in the matched text. */
  function FixedPredicateStep(st: Mapping, m: PredMatch, bindings: seq<Value>, sensitive: seq<string>)
    : (r: Mapping)
    ensures st.cursor <= r.cursor
    ensures forall j :: st.cursor <= j < r.cursor ==> IsSet(bindings, j)
  {
    OperatorStep(st, Upper(m.op), ColumnKey(m.column), m.list, bindings, sensitive)
  }

  function FixedPredicatePass(st: Mapping, ms: seq<PredMatch>, bindings: seq<Value>, sensitive: seq<string>)
    : (r: Mapping)
    ensures st.cursor <= r.cursor
    ensures forall j :: st.cursor <= j < r.cursor ==> IsSet(bindings, j)
    decreases |ms|
  {
    if |ms| == 0 then st
    else FixedPredicatePass(FixedPredicateStep(st, ms[0], bindings, sensitive), ms[1..], bindings, sensitive)
  }

  /** `mapBindingsWithColumns` with the IN lists consuming their bindings. */
  function FixedMapBindingsWithColumns(ms: Matches, bindings: seq<Value>, configured: Option<seq<string>>)
    : Entries
  {
    var sensitive := SensitiveColumns(configured);
    var st := FixedPredicatePass(Mapping([], 0), ms.predicates, bindings, sensitive);
    var st := ConsumeAll(st, ColumnSlots(SetColumns(ms.setColumns)), bindings, sensitive);
    ConsumeAll(st, InsertSlots(ms.insert), bindings, sensitive).mapped
  }

  lemma {:induction false} TakeValuesCursor(bindings: seq<Value>, cursor: nat, n: nat, col: string,
                                            sensitive: seq<string>)
    ensures TakeValues(bindings, cursor, n, col, sensitive).1 == cursor + Min(n, Run(bindings, cursor))
    decreases n
  {
    if n > 0 {
      if IsSet(bindings, cursor) {
        TakeValuesCursor(bindings, cursor + 1, n - 1, col, sensitive);
      } else {
        TakeValuesCursor(bindings, cursor, n - 1, col, sensitive);
      }
    }
  }

  lemma FixedStepCursor(st: Mapping, m: PredMatch, bindings: seq<Value>, sensitive: seq<string>)
    ensures FixedPredicateStep(st, m, bindings, sensitive).cursor
      == st.cursor + Min(Placeholders(m), Run(bindings, st.cursor))
  {
    var c := st.cursor;
    var col := ColumnKey(m.column);
    if Upper(m.op) == "BETWEEN" {
      if IsSet(bindings, c) {
        assert Run(bindings, c) == 1 + Run(bindings, c + 1);
      }
    } else if Upper(m.op) == "IN" && m.list.Some? {
      TakeValuesCursor(bindings, c, CountChar(m.list.value, '?'), col, sensitive);
    }
  }

  /** With the correction, match `k` starts reading at the position of its own first placeholder: after any
      run of matches the cursor has passed exactly their placeholders (until a null binding stops it). */
  lemma {:induction false} FixedPredicatePassAligned(st: Mapping, ps: seq<PredMatch>, bindings: seq<Value>,
                                                     sensitive: seq<string>)
    ensures FixedPredicatePass(st, ps, bindings, sensitive).cursor
      == st.cursor + Min(AllPlaceholders(ps), Run(bindings, st.cursor))
    decreases |ps|
  {
    if |ps| > 0 {
      var st1 := FixedPredicateStep(st, ps[0], bindings, sensitive);
      FixedStepCursor(st, ps[0], bindings, sensitive);
      FixedPredicatePassAligned(st1, ps[1..], bindings, sensitive);
      var k := Min(Placeholders(ps[0]), Run(bindings, st.cursor));
      RunShift(bindings, st.cursor, k);
    }
  }

  /** Queries without IN lists are mapped the same way by both versions. */
  lemma {:induction false} FixedAgreesWithoutIn(st: Mapping, ps: seq<PredMatch>, bindings: seq<Value>,
                                                sensitive: seq<string>)
    requires forall i :: 0 <= i < |ps| ==> Upper(ps[i].op) != "IN"
    ensures FixedPredicatePass(st, ps, bindings, sensitive) == PredicatePass(st, ps, bindings, sensitive)
    decreases |ps|
  {
    if |ps| > 0 {
      FixedAgreesWithoutIn(PredicateStep(st, ps[0], bindings, sensitive), ps[1..], bindings, sensitive);
    }
  }

  // ---------------------------------------------------------------------------------------------------------
  // Examples

  lemma PasswordColumn()
    ensures ColumnKey("password") == "password"
    ensures SensitiveColumns(None) == ["password"]
  {
    ColumnKeyFixed("password");
  }

  lemma IdColumn()
    ensures ColumnKey("id") == "id"
  {
    ColumnKeyFixed("id");
  }

  lemma UpperOperators()
    ensures Upper("=") == "=" && Upper("IN") == "IN"
  {
  }

  lemma SimpleColumns()
    ensures ColumnKey("password") == "password" && ColumnKey("id") == "id"
    ensures SensitiveColumns(None) == ["password"]
    ensures Upper("=") == "=" && Upper("IN") == "IN"
  {
    PasswordColumn();
    IdColumn();
    UpperOperators();
  }

  /** `WHERE password IN (?) AND id = ?` with bindings `'hunter2', 1`. */
  function InListQuery(): Matches {
    Matches([PredMatch("password", " ", "IN", " ", '(', Some("?")), PredMatch("id", " ", "=", " ", '?', None)], [], None)
  }

  lemma WordColumn(col: string)
    requires col == "password" || col == "id"
    ensures |col| > 0 && forall c :: c in col ==> IsWordChar(c)
  {
  }

  lemma InMatchShaped()
    ensures MatchShape(PredMatch("password", " ", "IN", " ", '(', Some("?")))
  {
    WordColumn("password");
    UpperOperators();
  }

  lemma EqualsMatchShaped(col: string)
    requires col == "password" || col == "id"
    ensures MatchShape(PredMatch(col, " ", "=", " ", '?', None))
  {
    WordColumn(col);
    UpperOperators();
  }

  /** An `=` match on a column that is its own key consumes one binding for that column, as written and
      corrected. */
  lemma EqualsStep(st: Mapping, col: string, b: seq<Value>, sensitive: seq<string>)
    requires ColumnKey(col) == col
    ensures PredicateStep(st, PredMatch(col, " ", "=", " ", '?', None), b, sensitive) == Consume(st, Slot(col, col), b, sensitive)
    ensures FixedPredicateStep(st, PredMatch(col, " ", "=", " ", '?', None), b, sensitive)
      == Consume(st, Slot(col, col), b, sensitive)
  {
    UpperOperators();
  }

  /** As written, the IN match changes nothing. */
  lemma InListStepInert(st: Mapping, b: seq<Value>, sensitive: seq<string>)
    ensures PredicateStep(st, InListQuery().predicates[0], b, sensitive) == st
  {
    var m := InListQuery().predicates[0];
    InMatchShaped();
    InnerInNeverMatches(m);
    UpperOperators();
  }

  /** As written, the IN list's binding is given to the next column: the password is recorded in clear as `id`. */
  lemma InListBindingMisattributed()
    ensures MapBindingsWithColumns(InListQuery(), [Str("hunter2"), Int(1)], None)
      == [("id", Str("hunter2"))]
  {
    var b := [Str("hunter2"), Int(1)];
    SimpleColumns();
    InListPass(b, ["password"]);
    NoTrailingSlots(Mapping([("id", Str("hunter2"))], 1), InListQuery(), b, ["password"]);
  }

  /** The predicate pass of the IN-list example, as written. */
  lemma InListPass(b: seq<Value>, sensitive: seq<string>)
    requires b == [Str("hunter2"), Int(1)] && sensitive == ["password"]
    ensures PredicatePass(Mapping([], 0), InListQuery().predicates, b, sensitive) == Mapping([("id", Str("hunter2"))], 1)
  {
    var ps := InListQuery().predicates;
    PassOfTwo(Mapping([], 0), ps[0], ps[1], b, sensitive);
    assert ps == [ps[0], ps[1]];
    InListStepInert(Mapping([], 0), b, sensitive);
    IdStep(Mapping([], 0), b, sensitive);
    assert b[0] == Str("hunter2");
    Literals([], ("id", Str("hunter2")));
  }

  /** Appending to a literal list gives the longer literal. */
  lemma Literals<T>(xs: seq<T>, y: T)
    ensures |xs| == 0 ==> xs + [y] == [y]
    ensures |xs| == 1 ==> xs + [y] == [xs[0], y]
  {
  }

  /** The example's `id = ?` match appends the binding under the cursor, unmasked. */
  lemma IdStep(st: Mapping, b: seq<Value>, sensitive: seq<string>)
    requires IsSet(b, st.cursor) && sensitive == ["password"]
    requires forall j :: 0 <= j < |st.mapped| ==> st.mapped[j].0 != "id"
    ensures var r := Mapping(st.mapped + [("id", b[st.cursor])], st.cursor + 1);
      && PredicateStep(st, InListQuery().predicates[1], b, sensitive) == r
      && FixedPredicateStep(st, InListQuery().predicates[1], b, sensitive) == r
  {
    IdColumn();
    EqualsStep(st, "id", b, sensitive);
    ConsumeNew(st, "id", b, sensitive);
    assert MaskIfSensitive("id", b[st.cursor], sensitive) == b[st.cursor];
  }

  /** A query with no `SET` list and no `INSERT` columns takes nothing after its predicates. */
  lemma NoTrailingSlots(st: Mapping, ms: Matches, b: seq<Value>, sensitive: seq<string>)
    requires ms.setColumns == [] && ms.insert.None?
    ensures ConsumeAll(ConsumeAll(st, ColumnSlots(SetColumns(ms.setColumns)), b, sensitive), InsertSlots(ms.insert), b,
                       sensitive) == st
  {
    assert ColumnSlots(SetColumns([])) == [] && InsertSlots(None) == [];
  }

  /** With the correction the IN match takes the password, masked, as a one-element list. */
  lemma FixedInStep(b: seq<Value>, sensitive: seq<string>)
    requires b == [Str("hunter2"), Int(1)] && sensitive == ["password"]
    ensures FixedPredicateStep(Mapping([], 0), InListQuery().predicates[0], b, sensitive)
      == Mapping([("password", ListOf([Str(QueryToken)]))], 1)
  {
    SimpleColumns();
    assert CountChar("?", '?') == 1;
    var vs := TakeValues(b, 0, 1, "password", sensitive);
    assert TakeValues(b, 1, 0, "password", sensitive) == ([], 1);
    assert IsSet(b, 0);
    assert MaskIfSensitive("password", Str("hunter2"), sensitive) == Str(QueryToken);
    assert [Str(QueryToken)] + [] == [Str(QueryToken)];
    assert vs == ([Str(QueryToken)], 1);
  }

  /** The predicate pass of the IN-list example, corrected. */
  lemma FixedInListPass(b: seq<Value>, sensitive: seq<string>)
    requires b == [Str("hunter2"), Int(1)] && sensitive == ["password"]
    ensures FixedPredicatePass(Mapping([], 0), InListQuery().predicates, b, sensitive)
      == Mapping([("password", ListOf([Str(QueryToken)])), ("id", Int(1))], 2)
  {
    var ps := InListQuery().predicates;
    assert ps == [ps[0], ps[1]];
    FixedInStep(b, sensitive);
    var st1 := Mapping([("password", ListOf([Str(QueryToken)]))], 1);
    FixedThenId(Mapping([], 0), ps[0], st1, b, sensitive);
    assert b[1] == Int(1);
    Literals(st1.mapped, ("id", Int(1)));
  }

  /** A corrected first step that leaves `id` unmapped, followed by the example's `id = ?` match. */
  lemma FixedThenId(st: Mapping, m: PredMatch, st1: Mapping, b: seq<Value>, sensitive: seq<string>)
    requires FixedPredicateStep(st, m, b, sensitive) == st1
    requires IsSet(b, st1.cursor) && sensitive == ["password"]
    requires forall j :: 0 <= j < |st1.mapped| ==> st1.mapped[j].0 != "id"
    ensures FixedPredicatePass(st, [m, InListQuery().predicates[1]], b, sensitive)
      == Mapping(st1.mapped + [("id", b[st1.cursor])], st1.cursor + 1)
  {
    PassOfTwo(st, m, InListQuery().predicates[1], b, sensitive);
    IdStep(st1, b, sensitive);
  }

  /** With the correction the same query keeps the password under its own column, masked, and `id` gets `1`. */
  lemma FixedInListMasked()
    ensures FixedMapBindingsWithColumns(InListQuery(), [Str("hunter2"), Int(1)], None)
      == [("password", ListOf([Str(QueryToken)])), ("id", Int(1))]
  {
    var b := [Str("hunter2"), Int(1)];
    SimpleColumns();
    FixedInListPass(b, ["password"]);
    NoTrailingSlots(Mapping([("password", ListOf([Str(QueryToken)])), ("id", Int(1))], 2), InListQuery(), b,
                    ["password"]);
  }

  /** `UPDATE users SET password = ? WHERE id = ?`: the predicate and `SET` matches, and the bindings
      `'secret', 42`. */
  function UpdateQuery(): Matches {
    Matches([PredMatch("password", " ", "=", " ", '?', None), PredMatch("id", " ", "=", " ", '?', None)],
            ["password"], None)
  }

  function UpdateBindings(): seq<Value> {
    [Str("secret"), Int(42)]
  }

  /** The mapping the predicate pass leaves for the `UPDATE` example. */
  function UpdateMapped(): Mapping {
    Mapping([("password", Str(QueryToken)), ("id", Int(42))], 2)
  }

  /** Consuming a set binding for a column not mapped yet appends it, masked, at the end. */
  lemma ConsumeNew(st: Mapping, col: string, b: seq<Value>, sensitive: seq<string>)
    requires IsSet(b, st.cursor)
    requires forall j :: 0 <= j < |st.mapped| ==> st.mapped[j].0 != col
    ensures Consume(st, Slot(col, col), b, sensitive)
      == Mapping(st.mapped + [(col, MaskIfSensitive(col, b[st.cursor], sensitive))], st.cursor + 1)
  {
  }

  /** The predicate pass over two matches is the two steps in order. */
  lemma PassOfTwo(st: Mapping, m1: PredMatch, m2: PredMatch, b: seq<Value>, sensitive: seq<string>)
    ensures PredicatePass(st, [m1, m2], b, sensitive)
      == PredicateStep(PredicateStep(st, m1, b, sensitive), m2, b, sensitive)
    ensures FixedPredicatePass(st, [m1, m2], b, sensitive)
      == FixedPredicateStep(FixedPredicateStep(st, m1, b, sensitive), m2, b, sensitive)
  {
    assert [m1, m2][1..] == [m2] && [m2][1..] == [];
    var s1 := PredicateStep(st, m1, b, sensitive);
    assert PredicatePass(st, [m1, m2], b, sensitive) == PredicatePass(s1, [m2], b, sensitive);
    assert PredicatePass(s1, [m2], b, sensitive) == PredicatePass(PredicateStep(s1, m2, b, sensitive), [], b, sensitive);
    var f1 := FixedPredicateStep(st, m1, b, sensitive);
    assert FixedPredicatePass(st, [m1, m2], b, sensitive) == FixedPredicatePass(f1, [m2], b, sensitive);
    assert FixedPredicatePass(f1, [m2], b, sensitive)
      == FixedPredicatePass(FixedPredicateStep(f1, m2, b, sensitive), [], b, sensitive);
  }

  /** Two `=` matches on distinct columns that are their own keys take the first two bindings, in order. */
  lemma TwoEqualsMatches(c1: string, c2: string, b: seq<Value>, sensitive: seq<string>)
    requires ColumnKey(c1) == c1 && ColumnKey(c2) == c2 && c1 != c2
    requires IsSet(b, 0) && IsSet(b, 1)
    ensures PredicatePass(Mapping([], 0), [PredMatch(c1, " ", "=", " ", '?', None), PredMatch(c2, " ", "=", " ", '?', None)],
                          b, sensitive)
      == Mapping([(c1, MaskIfSensitive(c1, b[0], sensitive)), (c2, MaskIfSensitive(c2, b[1], sensitive))], 2)
  {
    var ps := [PredMatch(c1, " ", "=", " ", '?', None), PredMatch(c2, " ", "=", " ", '?', None)];
    var v1 := MaskIfSensitive(c1, b[0], sensitive);
    var v2 := MaskIfSensitive(c2, b[1], sensitive);
    var st1 := Mapping([(c1, v1)], 1);
    PassOfTwo(Mapping([], 0), ps[0], ps[1], b, sensitive);
    EqualsStep(Mapping([], 0), c1, b, sensitive);
    ConsumeNew(Mapping([], 0), c1, b, sensitive);
    EqualsStep(st1, c2, b, sensitive);
    ConsumeNew(st1, c2, b, sensitive);
  }

  lemma UpdatePredicates()
    ensures PredicatePass(Mapping([], 0), UpdateQuery().predicates, UpdateBindings(), ["password"]) == UpdateMapped()
  {
    SimpleColumns();
    TwoEqualsMatches("password", "id", UpdateBindings(), ["password"]);
  }

  lemma UpdateSetPass()
    ensures ConsumeAll(UpdateMapped(), ColumnSlots(SetColumns(UpdateQuery().setColumns)), UpdateBindings(), ["password"])
      == UpdateMapped()
  {
    var setSlots := ColumnSlots(SetColumns(UpdateQuery().setColumns));
    assert setSlots[1..] == [];
  }

  /** `UPDATE users SET password = ? WHERE id = ?` with bindings `'secret', 42`: the predicate pass already maps
      both columns, and the `SET` pass finds no binding left. */
  lemma UpdateExample()
    ensures MapBindingsWithColumns(UpdateQuery(), UpdateBindings(), None)
      == [("password", Str(QueryToken)), ("id", Int(42))]
  {
    PasswordColumn();
    UpdatePredicates();
    UpdateSetPass();
  }

  // ---------------------------------------------------------------------------------------------------------
  // The listener

  /** What a `QueryExecuted` event carries, with the pattern matches found in its SQL. */
  datatype QueryEvent = QueryEvent(sql: string, matches: Matches, bindings: seq<Value>, time: Value,
                                   connection: Value)

  /** The array the listener records for a query, given its mapped bindings. */
  function QueryContext(e: QueryEvent, mapped: Entries): Value {
    Arr([
      ("sql", Str(e.sql)),
      ("bindings", Arr(mapped)),
      ("duration", e.time),
      ("connection", e.connection)
    ])
  }

  /** Appending a query's context to the list, unless the query is on one of the framework's tables. */
  function AppendQuery(queries: seq<Value>, e: QueryEvent, mapped: Entries): (r: seq<Value>)
    ensures ShouldSkipQuery(e.sql) ==> r == queries
    ensures !ShouldSkipQuery(e.sql) ==>
      && |r| == |queries| + 1 && r[..|queries|] == queries
      && Field(r[|queries|], "sql") == Str(e.sql)
      && Field(r[|queries|], "bindings") == Arr(mapped)
  {
    if ShouldSkipQuery(e.sql) then queries
    else
      var c := QueryContext(e, mapped);
      LookupFirst(c.entries, "sql", 0);
      LookupFirst(c.entries, "bindings", 1);
      queries + [c]
  }

  /** The `DB::listen` callback on the `serap_queries` list, with the mapper as written: a query on one of the
      framework's tables leaves it alone; any other query is appended, with its mapped bindings, after the
      queries already there. */
  function RecordQuery(queries: seq<Value>, e: QueryEvent, configured: Option<seq<string>>): (r: seq<Value>)
    ensures ShouldSkipQuery(e.sql) ==> r == queries
    ensures !ShouldSkipQuery(e.sql) ==>
      && |r| == |queries| + 1 && r[..|queries|] == queries
      && Field(r[|queries|], "sql") == Str(e.sql)
      && Field(r[|queries|], "bindings") == Arr(MapBindingsWithColumns(e.matches, e.bindings, configured))
  {
    AppendQuery(queries, e, MapBindingsWithColumns(e.matches, e.bindings, configured))
  }

  /** What the listener logs for the IN-list query: the password under `id`, in clear. */
  lemma RecordQueryLeaksInList(queries: seq<Value>, e: QueryEvent)
    requires e.matches == InListQuery() && e.bindings == [Str("hunter2"), Int(1)]
    requires !ShouldSkipQuery(e.sql)
    ensures var r := RecordQuery(queries, e, None);
      Field(r[|queries|], "bindings") == Arr([("id", Str("hunter2"))])
  {
    InListBindingMisattributed();
  }

  /** The listener with the corrected mapper: the same list discipline, and the IN list's bindings recorded
      under their own column. */
  function FixedRecordQuery(queries: seq<Value>, e: QueryEvent, configured: Option<seq<string>>): (r: seq<Value>)
    ensures ShouldSkipQuery(e.sql) ==> r == queries
    ensures !ShouldSkipQuery(e.sql) ==>
      && |r| == |queries| + 1 && r[..|queries|] == queries
      && Field(r[|queries|], "sql") == Str(e.sql)
      && Field(r[|queries|], "bindings") == Arr(FixedMapBindingsWithColumns(e.matches, e.bindings, configured))
  {
    AppendQuery(queries, e, FixedMapBindingsWithColumns(e.matches, e.bindings, configured))
  }

  /** With the corrected mapper the IN-list query's password is logged masked, under `password`. */
  lemma FixedRecordQueryMasksInList(queries: seq<Value>, e: QueryEvent)
    requires e.matches == InListQuery() && e.bindings == [Str("hunter2"), Int(1)]
    requires !ShouldSkipQuery(e.sql)
    ensures var r := FixedRecordQuery(queries, e, None);
      Field(r[|queries|], "bindings") == Arr([("password", ListOf([Str(QueryToken)])), ("id", Int(1))])
  {
    FixedInListMasked();
  }
}
