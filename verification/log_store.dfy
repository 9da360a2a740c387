/** The in-process log buffer (`LogBuffer`) in front of the append-only log file, and the queued job that
    drains a request's logs into it (`LogRequestLifecycleJob`). Whether `flock(LOCK_EX)` is granted is a
    parameter of each flush. */
module LogStore {

  import opened Values
  import opened Text
  import opened Jsonl

  /** `LogBuffer::$maxBuffer`: the buffer is flushed as soon as it holds this many entries. */
  const MaxBuffer: nat := 50

  /** The buffered entries, oldest first, and the text of the log file. */
  datatype Store = Store(buffer: seq<Value>, file: string)

  /** Writing `es` one line each, in order, after `file`. */
  function AppendAll(file: string, es: seq<Value>, codec: Codec): (r: string)
    ensures |file| <= |r| && r[..|file|] == file
  {
    if |es| == 0 then file
    else AppendLine(AppendAll(file, es[..|es| - 1], codec), EncodeText(codec, es[|es| - 1]))
  }

  /** The line each entry is written as. */
  function Encodings(es: seq<Value>, codec: Codec): (ls: seq<string>)
    ensures |ls| == |es|
    ensures forall i :: 0 <= i < |es| ==> ls[i] == EncodeText(codec, es[i])
  {
    seq(|es|, i requires 0 <= i < |es| => EncodeText(codec, es[i]))
  }

  lemma {:induction false} AppendAllConcat(file: string, a: seq<Value>, b: seq<Value>, codec: Codec)
    ensures AppendAll(file, a + b, codec) == AppendAll(AppendAll(file, a, codec), b, codec)
    decreases |b|
  {
    if |b| == 0 {
      assert a + b == a;
    } else {
      assert (a + b)[..|a + b| - 1] == a + b[..|b| - 1];
      assert (a + b)[|a + b| - 1] == b[|b| - 1];
      AppendAllConcat(file, a, b[..|b| - 1], codec);
    }
  }

  /** Reading the file back after writing `es` gives the old lines followed by the entries' encodings, in
      order; an entry whose encoding fails leaves an empty line, which is skipped. */
  lemma {:induction false} LinesOfAppendAll(file: string, es: seq<Value>, codec: Codec)
    requires AtLineBoundary(file)
    requires OneLine(codec)
    ensures Lines(AppendAll(file, es, codec)) == Lines(file) + NonEmpty(Encodings(es, codec))
    ensures AtLineBoundary(AppendAll(file, es, codec))
    decreases |es|
  {
    if |es| == 0 {
      assert Encodings(es, codec) == [];
    } else {
      var init := es[..|es| - 1];
      LinesOfAppendAll(file, init, codec);
      assert es == init + [es[|es| - 1]];
      AppendAllSnoc(file, init, es[|es| - 1], codec);
    }
  }

  /** The last write of `LinesOfAppendAll`, from its statement for the earlier entries. */
  lemma AppendAllSnoc(file: string, init: seq<Value>, x: Value, codec: Codec)
    requires OneLine(codec)
    requires Lines(AppendAll(file, init, codec)) == Lines(file) + NonEmpty(Encodings(init, codec))
    requires AtLineBoundary(AppendAll(file, init, codec))
    ensures Lines(AppendAll(file, init + [x], codec)) == Lines(file) + NonEmpty(Encodings(init + [x], codec))
    ensures AtLineBoundary(AppendAll(file, init + [x], codec))
  {
    var before := AppendAll(file, init, codec);
    var line := EncodeText(codec, x);
    assert (init + [x])[..|init|] == init;
    assert AppendAll(file, init + [x], codec) == AppendLine(before, line);
    assert '\n' !in line;
    LinesAfterAppend(before, line);
    EncodingsSnoc(init, x, codec);
    NonEmptyAppend(Encodings(init, codec), [line]);
    ConcatAssoc(Lines(file), NonEmpty(Encodings(init, codec)), NonEmpty([line]));
  }

  lemma EncodingsSnoc(init: seq<Value>, x: Value, codec: Codec)
    ensures Encodings(init + [x], codec) == Encodings(init, codec) + [EncodeText(codec, x)]
  {
  }

  lemma PrefixSnoc<T>(a: seq<T>, s: seq<T>, i: nat)
    requires i < |s|
    ensures a + s[..i + 1] == (a + s[..i]) + [s[i]]
  {
    assert s[..i + 1] == s[..i] + [s[i]];
    ConcatAssoc(a, s[..i], [s[i]]);
  }

  lemma ConcatAssoc<T>(a: seq<T>, b: seq<T>, c: seq<T>)
    ensures (a + b) + c == a + (b + c)
  {
  }

  /** `LogBuffer::flush()`: the buffer is always emptied. The file is untouched when the buffer was empty or
      the lock was refused (the entries are then lost); otherwise one line per buffered entry is appended, in
      buffer order, and what the file held before is kept. */
  function Flush(st: Store, locked: bool, codec: Codec): (r: Store)
    ensures r.buffer == []
    ensures |st.buffer| == 0 || !locked ==> r.file == st.file
    ensures |st.file| <= |r.file| && r.file[..|st.file|] == st.file
  {
    if |st.buffer| == 0 then st
    else if locked then Store([], AppendAll(st.file, st.buffer, codec))
    else Store([], st.file)
  }

  /** A granted flush adds exactly the buffered entries' lines to what the file reads back as, in buffer order. */
  lemma FlushLines(st: Store, codec: Codec)
    requires AtLineBoundary(st.file)
    requires OneLine(codec)
    ensures var r := Flush(st, true, codec);
      Lines(r.file) == Lines(st.file) + NonEmpty(Encodings(st.buffer, codec)) && AtLineBoundary(r.file)
  {
    if |st.buffer| == 0 {
      assert Encodings(st.buffer, codec) == [];
    } else {
      LinesOfAppendAll(st.file, st.buffer, codec);
    }
  }

  /** `LogBuffer::add($log)`: the entry goes last, behind the earlier ones; reaching `MaxBuffer` entries
      flushes. Afterwards the buffer always holds fewer than `MaxBuffer` entries. */
  function Add(st: Store, log: Value, locked: bool, codec: Codec): (r: Store)
    ensures |r.buffer| < MaxBuffer
    ensures |st.buffer| + 1 < MaxBuffer ==> r == Store(st.buffer + [log], st.file)
    ensures |st.buffer| + 1 >= MaxBuffer ==> r == Flush(Store(st.buffer + [log], st.file), locked, codec)
  {
    var grown := Store(st.buffer + [log], st.file);
    if |grown.buffer| >= MaxBuffer then Flush(grown, locked, codec) else grown
  }

  /** `LogBuffer::hasPending()` */
  function HasPending(st: Store): (r: bool)
    ensures r <==> |st.buffer| > 0
  {
    |st.buffer| != 0
  }

  /** Entries are pending after `add` exactly when it did not reach the flush threshold; never after `flush`. */
  lemma PendingAfterAddAndFlush(st: Store, log: Value, locked: bool, codec: Codec)
    ensures HasPending(Add(st, log, locked, codec)) <==> |st.buffer| + 1 < MaxBuffer
    ensures !HasPending(Flush(st, locked, codec))
  {
  }

  /** `a` is `b` with some entries left out, in the same order (a subsequence). */
  predicate SubSeq(a: seq<Value>, b: seq<Value>)
    decreases |b|
  {
    |a| == 0
    || (|b| > 0
        && ((a[|a| - 1] == b[|b| - 1] && SubSeq(a[..|a| - 1], b[..|b| - 1]))
            || SubSeq(a, b[..|b| - 1])))
  }

  lemma {:induction false} SubSeqRefl(a: seq<Value>)
    ensures SubSeq(a, a)
    decreases |a|
  {
    if |a| > 0 {
      SubSeqRefl(a[..|a| - 1]);
    }
  }

  lemma SubSeqSnoc(a: seq<Value>, b: seq<Value>, x: Value)
    requires SubSeq(a, b)
    ensures SubSeq(a + [x], b + [x])
  {
    assert (a + [x])[..|a|] == a;
    assert (b + [x])[..|b|] == b;
  }

  lemma SubSeqExtend(a: seq<Value>, b: seq<Value>, x: Value)
    requires SubSeq(a, b)
    ensures SubSeq(a, b + [x])
  {
    assert (b + [x])[..|b|] == b;
  }

  lemma {:induction false} SubSeqDropLast(a: seq<Value>, x: Value, b: seq<Value>)
    requires SubSeq(a + [x], b)
    ensures SubSeq(a, b)
    decreases |b|
  {
    var ax := a + [x];
    assert ax[..|ax| - 1] == a;
    assert |b| > 0;
    var init := b[..|b| - 1];
    assert b == init + [b[|b| - 1]];
    if ax[|ax| - 1] == b[|b| - 1] && SubSeq(a, init) {
      SubSeqExtend(a, init, b[|b| - 1]);
    } else {
      SubSeqDropLast(a, x, init);
      SubSeqExtend(a, init, b[|b| - 1]);
    }
  }

  lemma {:induction false} SubSeqPrefix(a: seq<Value>, c: seq<Value>, b: seq<Value>)
    requires SubSeq(a + c, b)
    ensures SubSeq(a, b)
    decreases |c|
  {
    if |c| > 0 {
      var c' := c[..|c| - 1];
      assert a + c == (a + c') + [c[|c| - 1]];
      SubSeqDropLast(a + c', c[|c| - 1], b);
      SubSeqPrefix(a, c', b);
    } else {
      assert a + c == a;
    }
  }

  /** The entries a flush of `st` writes, after those already `written`. */
  ghost function Kept(written: seq<Value>, st: Store, locked: bool): seq<Value> {
    if |st.buffer| > 0 && locked then written + st.buffer else written
  }

  /** One flush, seen from the entries written so far: the file holds `Kept` and the order is preserved. */
  lemma FlushStep(file0: string, written: seq<Value>, st: Store, locked: bool, entered: seq<Value>, codec: Codec)
    requires st.file == AppendAll(file0, written, codec)
    requires SubSeq(written + st.buffer, entered)
    ensures Flush(st, locked, codec).file == AppendAll(file0, Kept(written, st, locked), codec)
    ensures SubSeq(Kept(written, st, locked), entered)
    ensures written + st.buffer == entered && locked ==> Kept(written, st, locked) == entered
  {
    if |st.buffer| > 0 && locked {
      AppendAllConcat(file0, written, st.buffer, codec);
    } else if |st.buffer| > 0 {
      SubSeqPrefix(written, st.buffer, entered);
    } else {
      assert written + st.buffer == written;
    }
  }

  /** The entries written by an `add` of `x` to `st`, after those already `written`. */
  ghost function AddKept(written: seq<Value>, st: Store, x: Value, locked: bool): seq<Value> {
    if |st.buffer| + 1 >= MaxBuffer then Kept(written, Store(st.buffer + [x], st.file), locked) else written
  }

  /** One `add`, seen from the entries written so far. */
  lemma AddStep(file0: string, written: seq<Value>, st: Store, x: Value, locked: bool, entered: seq<Value>, codec: Codec)
    requires st.file == AppendAll(file0, written, codec)
    requires SubSeq(written + st.buffer, entered)
    ensures var next := Add(st, x, locked, codec);
      var w := AddKept(written, st, x, locked);
      && next.file == AppendAll(file0, w, codec)
      && SubSeq(w + next.buffer, entered + [x])
      && (written + st.buffer == entered && locked ==> w + next.buffer == entered + [x])
  {
    SubSeqSnoc(written + st.buffer, entered, x);
    var grown := Store(st.buffer + [x], st.file);
    assert written + st.buffer + [x] == written + grown.buffer;
    if |grown.buffer| >= MaxBuffer {
      AddFlushes(file0, written, grown, locked, entered + [x], codec);
      assert Add(st, x, locked, codec) == Flush(grown, locked, codec);
      assert AddKept(written, st, x, locked) == Kept(written, grown, locked);
    } else {
      assert Add(st, x, locked, codec) == grown;
      assert AddKept(written, st, x, locked) == written;
    }
  }

  /** The flushing case of `AddStep`: the grown buffer is flushed and the buffer left is empty. */
  lemma AddFlushes(file0: string, written: seq<Value>, grown: Store, locked: bool, entered: seq<Value>, codec: Codec)
    requires grown.file == AppendAll(file0, written, codec)
    requires SubSeq(written + grown.buffer, entered)
    ensures var next := Flush(grown, locked, codec);
      var w := Kept(written, grown, locked);
      && next.file == AppendAll(file0, w, codec)
      && SubSeq(w + next.buffer, entered)
      && (written + grown.buffer == entered && locked ==> w + next.buffer == entered)
  {
    FlushStep(file0, written, grown, locked, entered, codec);
    assert Flush(grown, locked, codec).buffer == [];
    assert Kept(written, grown, locked) + [] == Kept(written, grown, locked);
  }

  /** The loop of `LogRequestLifecycleJob::handle()`: `LogBuffer::add` for each log in turn, the add of
      `logs[i]` flushing (when it does) under lock outcome `locked(i)`. */
  method AddLogs(st: Store, logs: seq<Value>, locked: nat -> bool, codec: Codec)
    returns (r: Store, ghost written: seq<Value>)
    ensures |r.buffer| < MaxBuffer || (|logs| == 0 && r == st)
    ensures r.file == AppendAll(st.file, written, codec)
    ensures SubSeq(written + r.buffer, st.buffer + logs)
    ensures (forall i :: 0 <= i < |logs| ==> locked(i)) ==> written + r.buffer == st.buffer + logs
  {
    r := st;
    written := [];
    AddLogsStart(st, logs, codec);
    if |logs| == 0 {
      return;
    }
    var i := 0;
    while i < |logs|
      invariant 0 <= i <= |logs|
      invariant i > 0 ==> |r.buffer| < MaxBuffer
      invariant r.file == AppendAll(st.file, written, codec)
      invariant SubSeq(written + r.buffer, st.buffer + logs[..i])
      invariant AllLocked(locked, i) ==> written + r.buffer == st.buffer + logs[..i]
    {
      AddLoopStep(st, logs, locked, codec, i, r, written);
      written := AddKept(written, r, logs[i], locked(i));
      r := Add(r, logs[i], locked(i), codec);
      i := i + 1;
    }
    assert logs[..|logs|] == logs;
    if forall j :: 0 <= j < |logs| ==> locked(j) {
      AllLockedFrom(locked, |logs|);
    }
  }

  /** The first `n` lock attempts are all granted. */
  ghost predicate AllLocked(locked: nat -> bool, n: nat) {
    n == 0 || (locked(n - 1) && AllLocked(locked, n - 1))
  }

  lemma {:induction false} AllLockedFrom(locked: nat -> bool, n: nat)
    requires forall j :: 0 <= j < n ==> locked(j)
    ensures AllLocked(locked, n)
  {
    if n > 0 {
      AllLockedFrom(locked, n - 1);
    }
  }

  /** The invariant of `AddLogs` before the first add. */
  lemma AddLogsStart(st: Store, logs: seq<Value>, codec: Codec)
    ensures st.file == AppendAll(st.file, [], codec)
    ensures SubSeq([] + st.buffer, st.buffer + logs[..0])
    ensures [] + st.buffer == st.buffer + logs[..0]
  {
    SubSeqRefl(st.buffer);
    assert st.buffer + logs[..0] == st.buffer;
    assert [] + st.buffer == st.buffer;
  }

  /** The invariant of `AddLogs` carried over the add of `logs[i]`. */
  lemma AddLoopStep(st: Store, logs: seq<Value>, locked: nat -> bool, codec: Codec, i: nat, r: Store,
                    written: seq<Value>)
    requires i < |logs|
    requires r.file == AppendAll(st.file, written, codec)
    requires SubSeq(written + r.buffer, st.buffer + logs[..i])
    requires AllLocked(locked, i) ==> written + r.buffer == st.buffer + logs[..i]
    ensures var next := Add(r, logs[i], locked(i), codec);
      var w := AddKept(written, r, logs[i], locked(i));
      && |next.buffer| < MaxBuffer
      && next.file == AppendAll(st.file, w, codec)
      && SubSeq(w + next.buffer, st.buffer + logs[..i + 1])
      && (AllLocked(locked, i + 1) ==> w + next.buffer == st.buffer + logs[..i + 1])
  {
    PrefixSnoc(st.buffer, logs, i);
    AddStep(st.file, written, r, logs[i], locked(i), st.buffer + logs[..i], codec);
  }

  /** `LogRequestLifecycleJob::handle()`: add every log, then flush under lock outcome `locked(|logs|)`. The
      buffer ends empty; the file gains lines for a subsequence of the pending entries followed by the logs
      (`written`), so entries are never reordered or duplicated; when every lock is granted it gains all of
      them, in order. */
  method HandleLifecycle(st: Store, logs: seq<Value>, locked: nat -> bool, codec: Codec)
    returns (r: Store, ghost written: seq<Value>)
    ensures r.buffer == []
    ensures r.file == AppendAll(st.file, written, codec)
    ensures SubSeq(written, st.buffer + logs)
    ensures (forall i :: 0 <= i <= |logs| ==> locked(i)) ==> r.file == AppendAll(st.file, st.buffer + logs, codec)
    ensures |st.buffer| == 0 && |logs| == 0 ==> r.file == st.file
    ensures AtLineBoundary(st.file) && OneLine(codec) ==>
      Lines(r.file) == Lines(st.file) + NonEmpty(Encodings(written, codec))
  {
    var added;
    added, written := AddLogs(st, logs, locked, codec);
    FlushStep(st.file, written, added, locked(|logs|), st.buffer + logs, codec);
    written := Kept(written, added, locked(|logs|));
    r := Flush(added, locked(|logs|), codec);
    if AtLineBoundary(st.file) && OneLine(codec) {
      LinesOfAppendAll(st.file, written, codec);
    }
  }
}
