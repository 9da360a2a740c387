/** Response classification and size-bounded summaries of response bodies (`SerapUtils::detectResponseType`
    and `SerapUtils::safeContent`). */
module Summarizer {

  import opened Values
  import opened Text
  import opened Jsonl

  /** `SerapUtils::MAX_RESPONSE_LENGTH`, in characters. */
  const MaxResponseLength: nat := 10000

  /** Appended to a body cut at `MaxResponseLength` characters. */
  const TruncationMarker: string := "... [TRUNCATED]"

  /** The media types searched for in the Content-Type header, in priority order, with their labels. */
  const MediaTypes: seq<(string, string)> := [
    ("application/json", "json"),
    ("text/html", "html"),
    ("text/plain", "text"),
    ("application/octet-stream", "stream"),
    ("application/pdf", "download"),
    ("application/zip", "download")
  ]

  /** `! $contentType`: a missing header, the empty string and `"0"` are all falsy in PHP. */
  predicate FalsyHeader(contentType: Option<string>) {
    contentType.None? || contentType.value == "" || contentType.value == "0"
  }

  /** The label of the first media type of the table, from position `i` on, that occurs in `ct`. */
  function FirstLabel(ct: string, i: nat): Option<string>
    decreases |MediaTypes| - i
  {
    if i >= |MediaTypes| then None
    else if Contains(ct, MediaTypes[i].0) then Some(MediaTypes[i].1)
    else FirstLabel(ct, i + 1)
  }

  /** `detectResponseType`, written as the chain of tests the source makes; `isRedirect` says whether the
      response is a `RedirectResponse`. */
  function DetectResponseType(contentType: Option<string>, isRedirect: bool): (r: string)
    ensures FalsyHeader(contentType) ==> r == "unknown"
    ensures r == "redirect" ==> contentType == Some("redirect") || (isRedirect && FirstLabel(contentType.value, 0).None?)
  {
    if FalsyHeader(contentType) then "unknown"
    else
      var ct := contentType.value;
      FirstLabelSteps(ct);
      if Contains(ct, "application/json") then "json"
      else if Contains(ct, "text/html") then "html"
      else if Contains(ct, "text/plain") then "text"
      else if Contains(ct, "application/octet-stream") then "stream"
      else if Contains(ct, "application/pdf") || Contains(ct, "application/zip") then "download"
      else if isRedirect then "redirect"
      else ct
  }

  lemma FirstLabelSteps(ct: string)
    ensures FirstLabel(ct, 0) ==
      if Contains(ct, "application/json") then Some("json")
      else if Contains(ct, "text/html") then Some("html")
      else if Contains(ct, "text/plain") then Some("text")
      else if Contains(ct, "application/octet-stream") then Some("stream")
      else if Contains(ct, "application/pdf") || Contains(ct, "application/zip") then Some("download")
      else None
  {
    assert FirstLabel(ct, 6) == None;
    assert FirstLabel(ct, 5) == if Contains(ct, "application/zip") then Some("download") else None;
    assert FirstLabel(ct, 4) == if Contains(ct, "application/pdf") then Some("download") else FirstLabel(ct, 5);
    assert FirstLabel(ct, 3) == if Contains(ct, "application/octet-stream") then Some("stream") else FirstLabel(ct, 4);
    assert FirstLabel(ct, 2) == if Contains(ct, "text/plain") then Some("text") else FirstLabel(ct, 3);
    assert FirstLabel(ct, 1) == if Contains(ct, "text/html") then Some("html") else FirstLabel(ct, 2);
  }

  /** Classification is the first-match search of the media-type table: `unknown` for a falsy header,
      the label of the first media type found, `redirect` for a redirect with no media type found, and the
      raw header otherwise. */
  lemma DetectFollowsTable(contentType: Option<string>, isRedirect: bool)
    ensures DetectResponseType(contentType, isRedirect) ==
      if FalsyHeader(contentType) then "unknown"
      else if FirstLabel(contentType.value, 0).Some? then FirstLabel(contentType.value, 0).value
      else if isRedirect then "redirect"
      else contentType.value
  {
    if !FalsyHeader(contentType) {
      FirstLabelSteps(contentType.value);
    }
  }

  /** The result of `safeContent`: the `is_truncated` flag and the `data` kept. */
  datatype Summary = Summary(isTruncated: bool, data: Value)

  /** The text branch: cut to the first `MaxResponseLength` characters and mark the cut. */
  function TruncateText(content: string): (r: Summary)
    ensures r.isTruncated <==> |content| > MaxResponseLength
    ensures r.data.Str?
    ensures !r.isTruncated ==> r.data.s == content
    ensures r.isTruncated ==>
      |r.data.s| == MaxResponseLength + |TruncationMarker|
      && r.data.s[..MaxResponseLength] == content[..MaxResponseLength]
      && r.data.s[MaxResponseLength..] == TruncationMarker
  {
    if |content| > MaxResponseLength then Summary(true, Str(content[..MaxResponseLength] + TruncationMarker))
    else Summary(false, Str(content))
  }

  /** The `while` loop of `safeContent`: pop the last top-level entry until the encoding fits or the
      array is empty. The result is the longest prefix that fits, or empty when none does. */
  function PopUntilFits(es: Entries, codec: Codec): (r: Entries)
    ensures |r| <= |es| && r == es[..|r|]
    ensures |r| == 0 || EncodedLength(codec, Arr(r)) <= MaxResponseLength
    ensures forall k :: |r| < k <= |es| ==> EncodedLength(codec, Arr(es[..k])) > MaxResponseLength
    decreases |es|
  {
    if EncodedLength(codec, Arr(es)) <= MaxResponseLength then es
    else if |es| == 0 then es
    else
      var popped := es[..|es| - 1];
      if |popped| == 0 then popped
      else
        var r := PopUntilFits(popped, codec);
        assert forall k :: |r| < k <= |popped| ==> popped[..k] == es[..k];
        assert es[..|es|] == es;
        r
  }

  /** `SerapUtils::safeContent($content, $type)`. */
  function SafeContent(content: string, contentKind: string, codec: Codec): (r: Summary)
    ensures contentKind != "json" || codec.decode(content).None? ==> r == TruncateText(content)
    ensures contentKind == "json" && codec.decode(content).Some? ==>
      var d := codec.decode(content).value;
      && (r.isTruncated <==> EncodedLength(codec, d) > MaxResponseLength)
      && (!r.isTruncated ==> r.data == d)
      && (r.isTruncated && !d.Arr? ==> r.data == d)
      && (r.isTruncated && d.Arr? ==>
            && r.data.Arr?
            && |r.data.entries| <= |d.entries|
            && r.data.entries == d.entries[..|r.data.entries|]
            && (|r.data.entries| == 0 || EncodedLength(codec, r.data) <= MaxResponseLength))
  {
    if contentKind != "json" then TruncateText(content)
    else match codec.decode(content)
      case None => TruncateText(content)
      case Some(d) =>
        if EncodedLength(codec, d) > MaxResponseLength then
          Summary(true, if d.Arr? then Arr(PopUntilFits(d.entries, codec)) else d)
        else Summary(false, d)
  }

  /** A body within the limit is returned as it is, untruncated. */
  lemma {:induction false} SafeContentWithinLimit(content: string, contentKind: string, codec: Codec)
    requires contentKind != "json" || codec.decode(content).None?
    requires |content| <= MaxResponseLength
    ensures SafeContent(content, contentKind, codec) == Summary(false, Str(content))
  {
  }

  /** An oversized JSON array keeps exactly the longest prefix of its entries whose encoding fits. */
  lemma {:induction false} SafeContentKeepsLongestFittingPrefix(content: string, codec: Codec)
    requires codec.decode(content).Some? && codec.decode(content).value.Arr?
    requires EncodedLength(codec, codec.decode(content).value) > MaxResponseLength
    ensures var es := codec.decode(content).value.entries;
      var r := SafeContent(content, "json", codec);
      && r.isTruncated && r.data.Arr?
      && var n := |r.data.entries|;
      && r.data == Arr(es[..n])
      && (n == 0 || EncodedLength(codec, Arr(es[..n])) <= MaxResponseLength)
      && (forall k :: n < k <= |es| ==> EncodedLength(codec, Arr(es[..k])) > MaxResponseLength)
  {
    var es := codec.decode(content).value.entries;
    var r := PopUntilFits(es, codec);
    assert SafeContent(content, "json", codec).data == Arr(r);
  }
}
