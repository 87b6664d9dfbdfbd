/** The batch processor: it finds a provenance manifest in each file (a
    Universal Tail-Wrap block in the last 10 KiB, or an XML block in an SVG
    image), classifies the file, counts the classifications, and signs the
    unsigned files it may write to by appending or injecting a manifest.
    JSON parsing is a parameter: it either yields the signer and the content
    hash or fails. */
module Batch {
  import opened Js

  datatype Status = Pending | Verified | Unsigned | Tampered | Signed | Error

  /** A file as the processor sees it. `readable` is false when reading its
      text fails. Bytes are modelled as characters. */
  datatype FileData = FileData(name: string, mimeType: string, content: string, readable: bool)

  /** One row of the result list. `handle` says whether a writable handle is
      attached; `file` is the file kept for signing. */
  datatype FileResult = FileResult(
    name: string,
    status: Status,
    msg: string,
    hash: string,
    size: nat,
    handle: bool,
    file: Option<FileData>)

  /** What parsing a candidate manifest gives: the signer and content hash it
      names, or a failure (bad JSON or a missing field). */
  datatype ParseOutcome = Parsed(signer: string, contentHash: string) | Corrupt

  const TailScanSize: nat := 10240
  const HeadScanSize: nat := 4096
  const StartMarker: string := "%SIGNET_VPR_START"
  const EndMarker: string := "%SIGNET_VPR_END"
  const SvgMime: string := "image/svg+xml"
  const SvgTag: string := "<svg"
  const ClosingTag: string := "</svg>"
  const ManifestOpen: string := "<signet:manifest>"
  const ManifestClose: string := "</signet:manifest>"

  // ---------------------------------------------------------------------
  // Reading a manifest
  // ---------------------------------------------------------------------

  /** The last `min(size, 10240)` characters. */
  function Tail(content: string): (t: string)
    ensures |t| == MinInt(|content|, TailScanSize)
    ensures content == content[..|content| - |t|] + t
  {
    var k := MaxInt(0, |content| - TailScanSize);
    assert content == content[..k] + content[k..];
    content[k..]
  }

  /** The first `min(size, 4096)` characters. */
  function Head(content: string): (h: string)
    ensures |h| == MinInt(|content|, HeadScanSize)
    ensures content == h + content[|h|..]
  {
    var k := MinInt(|content|, HeadScanSize);
    assert content == content[..k] + content[k..];
    content[..k]
  }

  /** Strategy A: the text between the last start marker and the last end
      marker, trimmed, or the empty string when there is no end marker. */
  function UtwPayload(tail: string): string {
    var start := LastIndexOf(tail, StartMarker);
    var end := LastIndexOf(tail, EndMarker);
    if start != -1 && end != -1 then Trim(Substring(tail, start + |StartMarker|, end)) else ""
  }

  /** The group of the first match of the lazy pattern `open(.*?)close`,
      or None: the text from the first `open` up to the first `close` after
      it. When the first `open` has no `close` after it, no later one has
      either, so there is no match at all. */
  function LazyGroup(text: string, open: string, close: string): Option<string> {
    var i := IndexOf(text, open);
    if i == -1 then None
    else
      var c := IndexFrom(text, close, i + |open|);
      if c == -1 then None else Some(text[i + |open|..c])
  }

  /** Strategy B: the manifest element's content, by the lazy pattern
      `<signet:manifest>(.*?)</signet:manifest>`. */
  function SvgManifest(text: string): Option<string> {
    LazyGroup(text, ManifestOpen, ManifestClose)
  }

  /** The candidate manifest of a readable file: Strategy A when the tail
      holds a start marker, else Strategy B for an SVG image, else nothing. */
  function Payload(f: FileData): string {
    var tail := Tail(f.content);
    if Contains(tail, StartMarker) then UtwPayload(tail)
    else if f.mimeType == SvgMime || Contains(Head(f.content), SvgTag) then
      match SvgManifest(f.content)
      case Some(group) => group
      case None => ""
    else ""
  }

  /** The first 16 characters of a content hash followed by an ellipsis. */
  function ShortHash(h: string): (s: string)
    ensures |s| == MinInt(|h|, 16) + 3
    ensures s[..|s| - 3] == h[..|s| - 3]
    ensures s[|s| - 3..] == "..."
  {
    Substring(h, 0, 16) + "..."
  }

  /** Reads and classifies one file. */
  function ProcessFile(f: FileData, handle: bool, parse: string -> ParseOutcome): (r: FileResult)
    ensures r.name == f.name && r.size == |f.content| && r.handle == handle && r.file == Some(f)
    ensures r.status == Verified || r.status == Unsigned || r.status == Tampered
    ensures r.status == Unsigned <==> f.readable && Payload(f) == ""
    ensures r.status == Verified <==> f.readable && Payload(f) != "" && parse(Payload(f)).Parsed?
    ensures r.status == Tampered <==> !f.readable || (Payload(f) != "" && parse(Payload(f)).Corrupt?)
    ensures !f.readable ==> r.msg == "Read Error"
    ensures r.status == Unsigned ==> r.msg == "No credential found" && r.hash == ""
    ensures r.status == Verified ==> var m := parse(Payload(f));
              r.msg == "Signed by: " + m.signer && r.hash == ShortHash(m.contentHash)
    ensures f.readable && r.status == Tampered ==> r.msg == "Corrupt Manifest JSON" && r.hash == ""
  {
    var row := FileResult(f.name, Unsigned, "No credential found", "", |f.content|, handle, Some(f));
    if !f.readable then row.(status := Tampered, msg := "Read Error")
    else
      var json := Payload(f);
      if json == "" then row
      else match parse(json)
        case Parsed(signer, h) => row.(status := Verified, msg := "Signed by: " + signer, hash := ShortHash(h))
        case Corrupt => row.(status := Tampered, msg := "Corrupt Manifest JSON")
  }

  /** The lazy pattern's meaning, stated without search functions: there
      is no match exactly when no `open` is followed by a `close`. */
  lemma LazyGroupNoneIff(text: string, open: string, close: string)
    ensures LazyGroup(text, open, close).None? <==>
            forall i, c :: IsAt(text, open, i) && i + |open| <= c ==> !IsAt(text, close, c)
  {
    var i0 := IndexOf(text, open);
    if i0 != -1 && IndexFrom(text, close, i0 + |open|) == -1 {
      forall i, c | IsAt(text, open, i) && i + |open| <= c
        ensures !IsAt(text, close, c)
      {
        assert i0 <= i;
      }
    }
  }

  /** A match starts at the first `open` and its group stops at the first
      `close` after it. */
  lemma LazyGroupSomeIsFirstShortest(text: string, open: string, close: string)
    requires LazyGroup(text, open, close).Some?
    ensures var g := LazyGroup(text, open, close).value;
            exists i ::
              && IsAt(text, open, i)
              && (forall j :: j < i ==> !IsAt(text, open, j))
              && IsAt(text, close, i + |open| + |g|)
              && (forall c :: i + |open| <= c < i + |open| + |g| ==> !IsAt(text, close, c))
              && text[i + |open|..i + |open| + |g|] == g
  {
    var i := IndexOf(text, open);
    var c := IndexFrom(text, close, i + |open|);
    assert c == i + |open| + |LazyGroup(text, open, close).value|;
  }

  // ---------------------------------------------------------------------
  // Classification cases
  // ---------------------------------------------------------------------

  /** A start marker with no end marker in the tail yields no candidate, so
      the file is UNSIGNED, whatever its type. */
  lemma StartWithoutEndIsUnsigned(f: FileData, handle: bool, parse: string -> ParseOutcome)
    requires f.readable
    requires Contains(Tail(f.content), StartMarker) && !Contains(Tail(f.content), EndMarker)
    ensures ProcessFile(f, handle, parse).status == Unsigned
    ensures ProcessFile(f, handle, parse).msg == "No credential found"
  {
  }

  /** When the last end marker comes before the last start marker, the
      bounds of `substring` are swapped: the candidate is the trimmed text
      from the end marker through the start marker, which is never empty, so
      such a file goes to the parser and is never UNSIGNED. */
  lemma EndBeforeStartSwaps(tail: string)
    requires Contains(tail, StartMarker) && Contains(tail, EndMarker)
    requires LastIndexOf(tail, EndMarker) < LastIndexOf(tail, StartMarker)
    ensures var s, e := LastIndexOf(tail, StartMarker), LastIndexOf(tail, EndMarker);
            && s + |StartMarker| <= |tail|
            && UtwPayload(tail) == Trim(tail[e..s + |StartMarker|])
            && UtwPayload(tail) != ""
  {
    var s, e := LastIndexOf(tail, StartMarker), LastIndexOf(tail, EndMarker);
    var m := |StartMarker|;
    assert s + m <= |tail|;
    SubstringSwapped(tail, s + m, e);
    StartMarkerEndsInLetter();
    EndsWithPattern(tail, StartMarker, e, s);
    TrimKeepsLastNonSpace(tail[e..s + m]);
  }

  lemma SubstringSwapped(t: string, a: int, b: int)
    requires 0 <= b < a <= |t|
    ensures Substring(t, a, b) == t[b..a]
  {
  }

  lemma StartMarkerEndsInLetter()
    ensures |StartMarker| > 0 && !IsSpace(StartMarker[|StartMarker| - 1])
  {
  }

  /** A slice that stops at the end of an occurrence of `pat` ends with `pat`'s last character. */
  lemma EndsWithPattern(t: string, pat: string, a: int, s: int)
    requires IsAt(t, pat, s) && |pat| > 0 && 0 <= a <= s
    ensures var x := t[a..s + |pat|]; |x| > 0 && x[|x| - 1] == pat[|pat| - 1]
  {
    assert t[s..s + |pat|][|pat| - 1] == t[s + |pat| - 1];
  }

  /** Trimming a string whose last character is not whitespace leaves something. */
  lemma TrimKeepsLastNonSpace(x: string)
    requires |x| > 0 && !IsSpace(x[|x| - 1])
    ensures Trim(x) != ""
  {
    TrimSpec(x);
  }

  /** Markers in the right order: the candidate is the trimmed text strictly between them. */
  lemma StartBeforeEndSlices(tail: string)
    requires Contains(tail, StartMarker) && Contains(tail, EndMarker)
    requires LastIndexOf(tail, StartMarker) + |StartMarker| <= LastIndexOf(tail, EndMarker)
    ensures var s, e := LastIndexOf(tail, StartMarker), LastIndexOf(tail, EndMarker);
            UtwPayload(tail) == Trim(tail[s + |StartMarker|..e])
  {
  }

  // ---------------------------------------------------------------------
  // Summary
  // ---------------------------------------------------------------------

  datatype Summary = Summary(total: nat, verified: nat, unsigned: nat, tampered: nat, signed: nat)

  /** The number of rows with status `s`. */
  function Count(rs: seq<FileResult>, s: Status): (n: nat)
    ensures n <= |rs|
  {
    if rs == [] then 0
    else Count(rs[..|rs| - 1], s) + (if rs[|rs| - 1].status == s then 1 else 0)
  }

  /** No row has status `s` exactly when the count of `s` is zero. */
  lemma {:induction false} CountZeroIff(rs: seq<FileResult>, s: Status)
    ensures Count(rs, s) == 0 <==> forall i :: 0 <= i < |rs| ==> rs[i].status != s
  {
    if rs != [] {
      var init := rs[..|rs| - 1];
      CountZeroIff(init, s);
      assert forall i :: 0 <= i < |init| ==> init[i] == rs[i];
    }
  }

  /** The tally of `updateSummary`, one row at a time. */
  method UpdateSummary(rs: seq<FileResult>) returns (counts: Summary)
    ensures counts.total == |rs|
    ensures counts.verified == Count(rs, Verified) && counts.unsigned == Count(rs, Unsigned)
    ensures counts.tampered == Count(rs, Tampered) && counts.signed == Count(rs, Signed)
  {
    counts := Summary(0, 0, 0, 0, 0);
    var i := 0;
    while i < |rs|
      invariant 0 <= i <= |rs|
      invariant counts.total == i
      invariant counts.verified == Count(rs[..i], Verified) && counts.unsigned == Count(rs[..i], Unsigned)
      invariant counts.tampered == Count(rs[..i], Tampered) && counts.signed == Count(rs[..i], Signed)
    {
      var r := rs[i];
      assert rs[..i + 1][..i] == rs[..i];
      counts := counts.(total := counts.total + 1);
      if r.status == Verified { counts := counts.(verified := counts.verified + 1); }
      if r.status == Unsigned { counts := counts.(unsigned := counts.unsigned + 1); }
      if r.status == Tampered { counts := counts.(tampered := counts.tampered + 1); }
      if r.status == Signed { counts := counts.(signed := counts.signed + 1); }
      i := i + 1;
    }
    assert rs[..i] == rs;
  }

  /** Every row has exactly one of the six statuses. */
  lemma {:induction false} CountPartition(rs: seq<FileResult>)
    ensures Count(rs, Pending) + Count(rs, Verified) + Count(rs, Unsigned)
            + Count(rs, Tampered) + Count(rs, Signed) + Count(rs, Error) == |rs|
  {
    if rs != [] {
      CountPartition(rs[..|rs| - 1]);
    }
  }

  /** The four displayed counts never exceed the total; they fall short of
      it by exactly the rows that are PENDING or ERROR. */
  lemma SummaryShortfall(rs: seq<FileResult>)
    ensures var c := Summary(|rs|, Count(rs, Verified), Count(rs, Unsigned), Count(rs, Tampered), Count(rs, Signed));
            && c.verified + c.unsigned + c.tampered + c.signed <= c.total
            && (c.verified + c.unsigned + c.tampered + c.signed == c.total
                <==> forall i :: 0 <= i < |rs| ==> rs[i].status != Pending && rs[i].status != Error)
  {
    CountPartition(rs);
    CountZeroIff(rs, Pending);
    CountZeroIff(rs, Error);
  }

  // ---------------------------------------------------------------------
  // Writing a manifest
  // ---------------------------------------------------------------------

  /** The Universal Tail-Wrap block appended to a non-SVG file. */
  function UtwInjection(json: string): string {
    "\n" + StartMarker + "\n" + json + "\n" + EndMarker
  }

  const MetadataOpening: string := "\n<metadata id=\""
  const NamespaceAttribute: string := "\" xmlns:signet=\""
  const SchemaUri: string := "https://signetai.io/schema"
  const MetadataAttributes: string := NamespaceAttribute + SchemaUri + "\">\n"

  /** The part of the metadata block that precedes the manifest element. */
  function MetadataPrefix(uniqueId: string): string {
    MetadataOpening + uniqueId + MetadataAttributes
  }

  /** The part of the metadata block that follows the manifest element. */
  const MetadataSuffix: string := "\n</metadata>"

  /** The metadata element injected into an SVG image. */
  function MetadataBlock(uniqueId: string, json: string): string {
    MetadataPrefix(uniqueId) + ManifestOpen + json + ManifestClose + MetadataSuffix
  }

  /** Places `block` and a line feed just before the last `</svg>`, or
      appends `block` when there is none. Deleting the block again gives
      back the original text. */
  function InsertSvgMetadata(text: string, block: string): (r: string)
    ensures var k := LastIndexOf(text, ClosingTag);
            if k == -1 then r == text + block
            else && 0 <= k <= |text|
                 && r == text[..k] + block + "\n" + text[k..]
                 && r[..k] + r[k + |block| + 1..] == text
  {
    var k := LastIndexOf(text, ClosingTag);
    if k == -1 then text + block
    else
      var r := text[..k] + block + "\n" + text[k..];
      assert r[..k] == text[..k];
      assert r[k + |block| + 1..] == text[k..];
      assert text[..k] + text[k..] == text;
      r
  }

  /** The file contents written back for a signed file: XML injection for
      SVG images, a Universal Tail-Wrap block for everything else. */
  function SignedContent(f: FileData, uniqueId: string, json: string): (c: string)
    ensures f.mimeType != SvgMime ==> |c| == |f.content| + |UtwInjection(json)| && c[..|f.content|] == f.content
    ensures f.mimeType != SvgMime ==> c[|f.content|..] == UtwInjection(json)
    ensures f.mimeType == SvgMime ==> c == InsertSvgMetadata(f.content, MetadataBlock(uniqueId, json))
  {
    if f.mimeType == SvgMime then InsertSvgMetadata(f.content, MetadataBlock(uniqueId, json))
    else f.content + UtwInjection(json)
  }

  /** After insertion the closing tag is still the last one, now just after
      the block: the metadata sits inside the root element. */
  lemma InsertedBeforeClosingTag(text: string, block: string)
    requires Contains(text, ClosingTag)
    ensures var k := LastIndexOf(text, ClosingTag);
            LastIndexOf(InsertSvgMetadata(text, block), ClosingTag) == k + |block| + 1
  {
    var k := LastIndexOf(text, ClosingTag);
    var left := text[..k] + block + "\n";
    var r := InsertSvgMetadata(text, block);
    assert r == left + text[k..];
    assert IsAt(text[k..], ClosingTag, 0) by {
      assert text[k..][..|ClosingTag|] == text[k..k + |ClosingTag|];
    }
    IsAtRight(left, text[k..], ClosingTag, 0);
    forall j | j > |left| ensures !IsAt(r, ClosingTag, j) {
      if IsAt(r, ClosingTag, j) {
        IsAtShift(left, text[k..], ClosingTag, j);
        IsAtRight(text[..k], text[k..], ClosingTag, j - |left|);
      }
    }
  }

  // ---------------------------------------------------------------------
  // Round trips
  // ---------------------------------------------------------------------

  lemma StartMarkerLength()
    ensures |StartMarker| == 17 && |EndMarker| == 15
  {
  }

  lemma StartMarkerHasNoLineFeed()
    ensures '\n' !in StartMarker
  {
  }

  lemma StartMarkerFirstCharOnce()
    ensures StartMarker[0] !in StartMarker[1..]
  {
  }

  /** `"\n" + p + z` is free of a pattern with no line feed when `p` is,
      and `z` is a line feed followed by less than the pattern. */
  lemma FramedFree(p: string, z: string, pat: string)
    requires '\n' !in pat && !Contains(p, pat)
    requires 0 < |z| < |pat| && z[0] == '\n'
    ensures !Contains("\n" + p + z, pat)
  {
    NotInSlice('\n', pat, 0, |pat| - 1);
    NotInSlice('\n', pat, 1, |pat|);
    NotContainsShort("\n", pat);
    NotContainsConcat("\n", p, pat);
    NotContainsShort(z, pat);
    NotContainsConcat("\n" + p, z, pat);
  }

  /** `prefix` followed by a tail-wrap block built from any pair of markers. */
  function Wrapped(prefix: string, json: string, open: string, close: string): string {
    prefix + "\n" + open + "\n" + json + "\n" + close
  }

  /** The start marker of the block is the last one, when the marker has
      no line feed, does not repeat its first character, is longer than the
      end marker plus one, and does not occur in `json`. */
  lemma WrappedLastOpen(prefix: string, json: string, open: string, close: string)
    requires |open| > |close| + 1 && '\n' !in open && open[0] !in open[1..]
    requires !Contains(json, open)
    ensures LastIndexOf(Wrapped(prefix, json, open, close), open) == |prefix| + 1
  {
    var x := prefix + "\n";
    var w := "\n" + json + ("\n" + close);
    FramedFree(json, "\n" + close, open);
    assert Wrapped(prefix, json, open, close) == x + open + w;
    LastOccurrenceBeforeFree(x, open, w);
  }

  /** The end marker of the block is the last one. */
  lemma WrappedLastClose(prefix: string, json: string, open: string, close: string)
    ensures var t := Wrapped(prefix, json, open, close);
            LastIndexOf(t, close) == |t| - |close|
  {
    var y := prefix + "\n" + open + "\n" + json + "\n";
    assert Wrapped(prefix, json, open, close) == y + close;
    LastOccurrenceAtEnd(y, close);
  }

  /** Between the markers lies the manifest framed by line feeds, which
      trimming removes. */
  lemma WrappedMiddle(prefix: string, json: string, open: string, close: string)
    requires Trimmed(json)
    ensures var t := Wrapped(prefix, json, open, close);
            Trim(Substring(t, |prefix| + 1 + |open|, |t| - |close|)) == json
  {
    var t := Wrapped(prefix, json, open, close);
    assert t[|prefix| + 1 + |open|..|t| - |close|] == "\n" + json + "\n";
    TrimNewlines(json);
  }

  /** Reading a tail that ends in an injection gives back the manifest,
      when the manifest has no surrounding whitespace and no start marker of
      its own. Whatever precedes the injection does not matter. */
  lemma UtwRoundTrip(prefix: string, json: string)
    requires Trimmed(json) && !Contains(json, StartMarker)
    ensures Contains(prefix + UtwInjection(json), StartMarker)
    ensures UtwPayload(prefix + UtwInjection(json)) == json
  {
    StartMarkerLength();
    StartMarkerHasNoLineFeed();
    StartMarkerFirstCharOnce();
    assert prefix + UtwInjection(json) == Wrapped(prefix, json, StartMarker, EndMarker);
    WrappedLastOpen(prefix, json, StartMarker, EndMarker);
    WrappedLastClose(prefix, json, StartMarker, EndMarker);
    WrappedMiddle(prefix, json, StartMarker, EndMarker);
  }

  /** A non-SVG file signed with a manifest of at most 10205 characters
      (so that the whole injection fits in the scanned tail) reads back that
      manifest; it is VERIFIED exactly when the manifest parses. */
  lemma SignedFileVerifies(f: FileData, uniqueId: string, json: string, handle: bool, parse: string -> ParseOutcome)
    requires f.readable && f.mimeType != SvgMime
    requires |UtwInjection(json)| <= TailScanSize
    requires json != "" && Trimmed(json) && !Contains(json, StartMarker)
    ensures var g := f.(content := SignedContent(f, uniqueId, json));
            && Payload(g) == json
            && (ProcessFile(g, handle, parse).status == Verified <==> parse(json).Parsed?)
  {
    var c := SignedContent(f, uniqueId, json);
    var inj := UtwInjection(json);
    var k := MaxInt(0, |c| - TailScanSize);
    assert c == f.content + inj;
    assert Tail(c) == f.content[k..] + inj by {
      assert c[k..] == f.content[k..] + inj;
    }
    UtwRoundTrip(f.content[k..], json);
  }

  lemma ManifestOpenShape()
    ensures |ManifestOpen| == 17 && ManifestOpen[0] == '<'
  {
  }

  lemma ManifestOpenHasNoLineFeed()
    ensures '\n' !in ManifestOpen
  {
  }

  lemma ManifestOpenHasNoQuote()
    ensures '"' !in ManifestOpen
  {
  }

  lemma ManifestCloseFirstCharOnce()
    ensures |ManifestClose| > 0 && ManifestClose[0] !in ManifestClose[1..]
  {
  }

  lemma MetadataAttributesHaveNoTag()
    ensures '<' !in MetadataAttributes
  {
    assert '<' !in NamespaceAttribute;
    assert '<' !in SchemaUri;
  }

  /** Text free of a tag that starts with `<` and has neither a quote nor a
      line feed stays free of it when the metadata prefix is appended, and
      the result ends in a line feed. */
  lemma PrefixFree(before: string, uniqueId: string, open: string)
    requires |open| > |MetadataOpening| && open[0] == '<' && '"' !in open && '\n' !in open
    requires '<' !in MetadataAttributes
    requires !Contains(before, open) && '<' !in uniqueId
    ensures var left := before + MetadataPrefix(uniqueId);
            !Contains(left, open) && |left| > 0 && left[|left| - 1] == '\n'
  {
    var p1, p3 := MetadataOpening, MetadataAttributes;
    NotInSlice('"', open, 0, |open| - 1);
    NotInSlice('"', open, 1, |open|);
    NotInSlice('\n', open, 1, |open|);
    NotContainsShort(p1, open);
    NotContainsFirstChar(uniqueId, open);
    NotContainsFirstChar(p3, open);
    NotContainsConcat(p1, uniqueId, open);
    NotContainsConcat(p1 + uniqueId, p3, open);
    NotContainsConcat(before, p1 + uniqueId + p3, open);
    assert before + MetadataPrefix(uniqueId) == before + (p1 + uniqueId + p3);
  }

  /** The lazy pattern captures `json` in `left + open + json + close + right`. */
  lemma TagsAround(left: string, json: string, right: string, open: string, close: string)
    requires |open| > 0 && '\n' !in open
    requires |close| > 0 && close[0] !in close[1..]
    requires !Contains(left, open) && |left| > 0 && left[|left| - 1] == '\n'
    requires !Contains(json, close)
    ensures LazyGroup(left + open + json + close + right, open, close) == Some(json)
  {
    var t := left + open + json + close + right;
    var a := left + open;
    OpenFound(left, open, json + close + right);
    assert t == left + open + (json + close + right);
    FirstOccurrenceFrom(a, json, close, right);
    GroupSlice(a, json, close + right);
    assert t == a + json + (close + right);
  }

  lemma OpenFound(left: string, open: string, rest: string)
    requires |open| > 0 && '\n' !in open
    requires !Contains(left, open) && |left| > 0 && left[|left| - 1] == '\n'
    ensures IndexOf(left + open + rest, open) == |left|
  {
    FirstOccurrenceAfterFree(left, open, rest);
  }

  lemma GroupSlice(a: string, json: string, b: string)
    ensures (a + json + b)[|a|..|a| + |json|] == json
  {
  }

  /** The text before and after the place where the block goes. */
  function SvgBefore(text: string): string {
    var k := LastIndexOf(text, ClosingTag);
    if k == -1 then text else text[..k]
  }

  function SvgAfter(text: string): string {
    var k := LastIndexOf(text, ClosingTag);
    if k == -1 then "" else "\n" + text[k..]
  }

  lemma InsertionLayout(text: string, block: string)
    ensures InsertSvgMetadata(text, block) == SvgBefore(text) + block + SvgAfter(text)
  {
    var k := LastIndexOf(text, ClosingTag);
    if k != -1 {
      assert text[..k] + block + "\n" + text[k..] == text[..k] + block + ("\n" + text[k..]);
    }
  }

  lemma BeforeFree(text: string, pat: string)
    requires !Contains(text, pat)
    ensures !Contains(SvgBefore(text), pat)
  {
    var k := LastIndexOf(text, ClosingTag);
    if k != -1 {
      NotContainsSlice(text, pat, 0, k);
    }
  }

  /** The pattern captures a manifest placed after a line feed in text free
      of the opening tag, when the manifest holds no closing tag. */
  lemma ManifestFramed(left: string, json: string, right: string)
    requires !Contains(left, ManifestOpen) && |left| > 0 && left[|left| - 1] == '\n'
    requires !Contains(json, ManifestClose)
    ensures SvgManifest(left + ManifestOpen + json + ManifestClose + right) == Some(json)
  {
    ManifestOpenShape();
    ManifestOpenHasNoLineFeed();
    ManifestCloseFirstCharOnce();
    TagsAround(left, json, right, ManifestOpen, ManifestClose);
  }

  /** The metadata prefix keeps text free of the opening tag. */
  lemma MetadataPrefixFree(before: string, uniqueId: string)
    requires !Contains(before, ManifestOpen) && '<' !in uniqueId
    ensures var left := before + MetadataPrefix(uniqueId);
            !Contains(left, ManifestOpen) && |left| > 0 && left[|left| - 1] == '\n'
  {
    ManifestOpenShape();
    ManifestOpenHasNoLineFeed();
    ManifestOpenHasNoQuote();
    MetadataAttributesHaveNoTag();
    PrefixFree(before, uniqueId, ManifestOpen);
  }

  lemma Regroup(a: string, p: string, o: string, j: string, c: string, x: string, b: string)
    ensures a + (p + o + j + c + x) + b == (a + p) + o + j + c + (x + b)
  {
  }

  /** Reading the manifest back from an SVG image after injection gives the
      injected manifest, when the image had no manifest element, the
      manifest has no closing tag of its own and the identifier has no `<`. */
  lemma SvgRoundTrip(text: string, uniqueId: string, json: string)
    requires !Contains(text, ManifestOpen)
    requires !Contains(json, ManifestClose)
    requires '<' !in uniqueId
    ensures SvgManifest(InsertSvgMetadata(text, MetadataBlock(uniqueId, json))) == Some(json)
  {
    var before, after := SvgBefore(text), SvgAfter(text);
    InsertionLayout(text, MetadataBlock(uniqueId, json));
    BeforeFree(text, ManifestOpen);
    Regroup(before, MetadataPrefix(uniqueId), ManifestOpen, json, ManifestClose, MetadataSuffix, after);
    MetadataPrefixFree(before, uniqueId);
    ManifestFramed(before + MetadataPrefix(uniqueId), json, MetadataSuffix + after);
  }

  /** A signed SVG image reads back its manifest through Strategy B, and is
      VERIFIED exactly when the manifest parses, provided its tail does not
      hold a start marker (which would select Strategy A instead). */
  lemma SignedSvgVerifies(f: FileData, uniqueId: string, json: string, handle: bool, parse: string -> ParseOutcome)
    requires f.readable && f.mimeType == SvgMime
    requires !Contains(f.content, ManifestOpen) && '<' !in uniqueId
    requires json != "" && !Contains(json, ManifestClose)
    requires !Contains(Tail(SignedContent(f, uniqueId, json)), StartMarker)
    ensures var g := f.(content := SignedContent(f, uniqueId, json));
            && Payload(g) == json
            && (ProcessFile(g, handle, parse).status == Verified <==> parse(json).Parsed?)
  {
    SvgRoundTrip(f.content, uniqueId, json);
  }

  // ---------------------------------------------------------------------
  // Batch signing
  // ---------------------------------------------------------------------

  /** The active identity vault, when one is unlocked. */
  datatype Vault = Vault(identity: string)

  /** How signing one file ends: the content hash was computed and the file
      written, or some step (reading, hashing, writing) failed. */
  datatype SignAttempt = Written(contentHash: string) | Failed

  /** Why `handleBatchSign` stopped, or how many files it signed. */
  datatype BatchOutcome = NothingToSign | NoIdentity | Declined | Completed(signedCount: nat)

  /** A row the batch signer selects: UNSIGNED with a writable handle. */
  predicate Eligible(r: FileResult) {
    r.status == Unsigned && r.handle
  }

  predicate AnyEligible(rs: seq<FileResult>) {
    exists i :: 0 <= i < |rs| && Eligible(rs[i])
  }

  /** A selected row after its attempt: it passes through PENDING and ends
      SIGNED or ERROR; only status, message and, on success, the hash change. */
  function SignRecord(r: FileResult, identity: string, attempt: SignAttempt): (s: FileResult)
    ensures s.name == r.name && s.size == r.size && s.handle == r.handle && s.file == r.file
    ensures s.status == Signed <==> attempt.Written?
    ensures s.status == Error <==> attempt.Failed?
    ensures attempt.Written? ==> s.msg == "Signed by " + identity && s.hash == ShortHash(attempt.contentHash)
    ensures attempt.Failed? ==> s.msg == "Write Permission Denied or I/O Error" && s.hash == r.hash
  {
    var pending := r.(status := Pending, msg := "Signing...");
    match attempt
    case Written(h) => pending.(status := Signed, msg := "Signed by " + identity, hash := ShortHash(h))
    case Failed => pending.(status := Error, msg := "Write Permission Denied or I/O Error")
  }

  /** A row after the loop: selected rows that still hold their file are
      signed; selected rows without one are skipped. */
  function AfterSigning(r: FileResult, identity: string, attempt: SignAttempt): FileResult {
    if Eligible(r) && r.file.Some? then SignRecord(r, identity, attempt) else r
  }

  /** The number of rows the loop signs. */
  function SignedCount(rs: seq<FileResult>, attempt: nat -> SignAttempt): (k: nat)
    ensures k <= |rs|
  {
    if rs == [] then 0
    else
      var n := |rs| - 1;
      SignedCount(rs[..n], attempt) + (if Eligible(rs[n]) && rs[n].file.Some? && attempt(n).Written? then 1 else 0)
  }

  /** The rows after a completed batch. */
  function SignAll(rs: seq<FileResult>, identity: string, attempt: nat -> SignAttempt): (out: seq<FileResult>)
    ensures |out| == |rs|
  {
    if rs == [] then []
    else
      var n := |rs| - 1;
      SignAll(rs[..n], identity, attempt) + [AfterSigning(rs[n], identity, attempt(n))]
  }

  /** Row `i` after the batch depends only on row `i` before it and on its own attempt. */
  lemma {:induction false} SignAllAt(rs: seq<FileResult>, identity: string, attempt: nat -> SignAttempt, i: nat)
    requires i < |rs|
    ensures SignAll(rs, identity, attempt)[i] == AfterSigning(rs[i], identity, attempt(i))
  {
    var n := |rs| - 1;
    if i < n {
      SignAllAt(rs[..n], identity, attempt, i);
    }
  }

  /** The signing loop over the rows, in order. */
  method SignEach(results: seq<FileResult>, identity: string, attempt: nat -> SignAttempt)
    returns (out: seq<FileResult>, signed: nat)
    ensures out == SignAll(results, identity, attempt)
    ensures signed == SignedCount(results, attempt)
  {
    out := [];
    signed := 0;
    var i := 0;
    while i < |results|
      invariant 0 <= i <= |results|
      invariant out == SignAll(results[..i], identity, attempt)
      invariant signed == SignedCount(results[..i], attempt)
    {
      var r := results[i];
      var next := r;
      if Eligible(r) && r.file.Some? {
        next := SignRecord(r, identity, attempt(i));
        if attempt(i).Written? {
          signed := signed + 1;
        }
      }
      assert results[..i + 1][..i] == results[..i];
      out := out + [next];
      i := i + 1;
    }
    assert results[..i] == results;
  }

  /** `handleBatchSign`. `attempt(i)` is how signing row `i` ends, and
      `confirmed` is the user's answer to the confirmation prompt. */
  method BatchSign(results: seq<FileResult>, vault: Option<Vault>, confirmed: bool, attempt: nat -> SignAttempt)
    returns (out: seq<FileResult>, outcome: BatchOutcome)
    ensures outcome == NothingToSign <==> !AnyEligible(results)
    ensures outcome == NoIdentity <==> AnyEligible(results) && vault.None?
    ensures outcome == Declined <==> AnyEligible(results) && vault.Some? && !confirmed
    ensures !outcome.Completed? ==> out == results
    ensures outcome.Completed? ==>
              && vault.Some?
              && out == SignAll(results, vault.value.identity, attempt)
              && outcome.signedCount == SignedCount(results, attempt)
  {
    if !AnyEligible(results) {
      return results, NothingToSign;
    }
    if vault.None? {
      return results, NoIdentity;
    }
    if !confirmed {
      return results, Declined;
    }
    var signed;
    out, signed := SignEach(results, vault.value.identity, attempt);
    outcome := Completed(signed);
  }

  /** The count in the completion message is exactly the growth of the
      summary's SIGNED count: selected rows were UNSIGNED before, and a row
      ends SIGNED exactly when its write succeeded. */
  lemma {:induction false} SignedCountMatchesSummary(rs: seq<FileResult>, identity: string, attempt: nat -> SignAttempt)
    ensures Count(SignAll(rs, identity, attempt), Signed) == Count(rs, Signed) + SignedCount(rs, attempt)
  {
    if rs != [] {
      var n := |rs| - 1;
      SignedCountMatchesSummary(rs[..n], identity, attempt);
      var out := SignAll(rs, identity, attempt);
      assert out[..n] == SignAll(rs[..n], identity, attempt);
    }
  }

  /** After a completed batch no selected row is left UNSIGNED unless it had no file to sign. */
  lemma NoEligibleLeft(rs: seq<FileResult>, identity: string, attempt: nat -> SignAttempt)
    ensures forall i :: 0 <= i < |rs| && Eligible(SignAll(rs, identity, attempt)[i]) ==> rs[i].file.None?
  {
    forall i | 0 <= i < |rs| && Eligible(SignAll(rs, identity, attempt)[i]) ensures rs[i].file.None? {
      SignAllAt(rs, identity, attempt, i);
    }
  }

  /** Rows the batch does not select, or selects but cannot sign, are left as they were. */
  lemma UnselectedUnchanged(rs: seq<FileResult>, identity: string, attempt: nat -> SignAttempt, i: nat)
    requires i < |rs| && !(Eligible(rs[i]) && rs[i].file.Some?)
    ensures SignAll(rs, identity, attempt)[i] == rs[i]
  {
    SignAllAt(rs, identity, attempt, i);
  }
}
