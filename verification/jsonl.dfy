/** JSON and the newline-delimited log files. The JSON functions are parameters; a file is its raw text, so
    that a missing final newline is visible. */
module Jsonl {

  import opened Values
  import opened Text

  /** What the package needs of PHP's JSON functions: `decode` is `json_decode($s, true)`, `None` when
      `json_last_error()` reports an error (a failed decode yields `null`); `encode` is `json_encode` with
      unescaped slashes and unicode, `None` where it returns `false`. */
  datatype Codec = Codec(decode: string -> Option<Value>, encode: Value -> Option<string>)

  /** `json_encode` escapes line breaks, so an encoding never spans two lines. */
  ghost predicate OneLine(codec: Codec) {
    forall v :: codec.encode(v).Some? ==> '\n' !in codec.encode(v).value
  }

  /** Decoding an encoding gives the value back. */
  ghost predicate RoundTrips(codec: Codec) {
    forall v :: codec.encode(v).Some? ==> codec.decode(codec.encode(v).value) == Some(v)
  }

  /** `json_encode($v)` as a string: `false` becomes the empty string when concatenated or measured. */
  function EncodeText(codec: Codec, v: Value): string {
    codec.encode(v).GetOr("")
  }

  /** `mb_strlen(json_encode($v, ...))` */
  function EncodedLength(codec: Codec, v: Value): nat {
    |EncodeText(codec, v)|
  }

  /** `json_decode($line, true)`, with `null` for a line that does not decode. */
  function DecodeOrNull(codec: Codec, line: string): Value {
    codec.decode(line).GetOr(Null)
  }

  /** `fwrite($file, $line . PHP_EOL)` on a file opened for appending. */
  function AppendLine(file: string, line: string): string {
    file + line + "\n"
  }

  /** The lines `file($path, FILE_IGNORE_NEW_LINES | FILE_SKIP_EMPTY_LINES)` returns for a file holding `text`:
      the non-empty pieces between newlines, in order. */
  function Lines(text: string): (ls: seq<string>)
    ensures forall i :: 0 <= i < |ls| ==> ls[i] != "" && '\n' !in ls[i]
  {
    NonEmpty(Split(text, '\n'))
  }

  /** A file is at a line boundary when it is empty or ends with a newline. */
  predicate AtLineBoundary(text: string) {
    |text| == 0 || text[|text| - 1] == '\n'
  }

  /** Appending a line at a line boundary adds exactly that line (when it is not empty). */
  lemma {:induction false} LinesAfterAppend(text: string, line: string)
    requires AtLineBoundary(text)
    requires '\n' !in line
    ensures Lines(AppendLine(text, line)) == Lines(text) + NonEmpty([line])
    ensures AtLineBoundary(AppendLine(text, line))
  {
    if |text| == 0 {
      LinesOfFirstLine(line);
    } else {
      LinesAfterBody(text[..|text| - 1], line);
      assert text == text[..|text| - 1] + "\n";
    }
  }

  /** The lines of a file holding one line. */
  lemma LinesOfFirstLine(line: string)
    requires '\n' !in line
    ensures Lines(AppendLine("", line)) == NonEmpty([line])
  {
    SplitWithoutSeparator(line, '\n');
    assert AppendLine("", line) == line + ['\n'] + "";
    SplitAround(line, "", '\n');
    NonEmptyAppend([line], [""]);
  }

  /** The lines of a file ending in a newline, before and after a line is appended. */
  lemma LinesAfterBody(body: string, line: string)
    requires '\n' !in line
    ensures Lines(AppendLine(body + "\n", line)) == Lines(body + "\n") + NonEmpty([line])
  {
    SplitsAfterBody(body, line);
    NonEmptyAppend(Split(body, '\n'), [""]);
    NonEmptyAppend(Split(body, '\n'), [line] + [""]);
    NonEmptyAppend([line], [""]);
  }

  /** The pieces of a file ending in a newline, before and after a line is appended. */
  lemma SplitsAfterBody(body: string, line: string)
    requires '\n' !in line
    ensures Split(body + "\n", '\n') == Split(body, '\n') + [""]
    ensures Split(AppendLine(body + "\n", line), '\n') == Split(body, '\n') + ([line] + [""])
  {
    SplitWithoutSeparator(line, '\n');
    assert body + "\n" == body + ['\n'] + "";
    assert AppendLine(body + "\n", line) == body + ['\n'] + (line + ['\n'] + "");
    SplitAround(body, "", '\n');
    SplitAround(body, line + ['\n'] + "", '\n');
    SplitAround(line, "", '\n');
  }

  /** `implode(PHP_EOL, $lines)`, optionally followed by one more `PHP_EOL`. */
  function JoinLines(lines: seq<string>, trailingNewline: bool): string {
    if |lines| == 0 then ""
    else Join(lines, '\n') + (if trailingNewline then "\n" else "")
  }

  /** Reading back lines written one per line gives them back. */
  lemma {:induction false} LinesOfJoin(lines: seq<string>, trailingNewline: bool)
    requires forall i :: 0 <= i < |lines| ==> lines[i] != "" && '\n' !in lines[i]
    ensures Lines(JoinLines(lines, trailingNewline)) == lines
  {
    if |lines| == 0 {
      assert Split("", '\n') == [""];
    } else {
      SplitJoin(lines, '\n');
      NonEmptyKeeps(lines);
      if trailingNewline {
        SplitAround(Join(lines, '\n'), "", '\n');
        assert JoinLines(lines, true) == Join(lines, '\n') + ['\n'] + "";
        assert Split("", '\n') == [""];
        assert Split(JoinLines(lines, true), '\n') == lines + [""];
        NonEmptyAppend(lines, [""]);
        assert NonEmpty([""]) == [];
      } else {
        assert JoinLines(lines, false) == Join(lines, '\n');
      }
    }
  }
}
