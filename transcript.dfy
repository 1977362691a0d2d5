/**
 * The transcript text format of whisper/main/whisper_main.py: the loop in
 * `process_video` that renders Whisper segments as text blocks, and
 * `parse_transcript`, which reads such text back into one dictionary per block.
 *
 * Whisper and KeyBERT are outside the model: a segment arrives with its start
 * and end times already rendered by `:.2f`, its text and its keyword list.
 * Python's `float()` is modelled on decimal literals (sign, digits, one point).
 */
module Transcript {
  import opened Base
  import opened Text

  /** One Whisper segment as the rendering loop sees it. */
  datatype Segment = Segment(startText: string, endText: string, text: string, keywords: seq<string>)

  /** The dictionary `segment_data` that the parser fills for one block; an absent key is `None`. */
  datatype Entry = Entry(start: Option<real>, end: Option<real>, text: Option<string>, keywords: Option<seq<string>>)

  /** The exceptions `parse_transcript` lets escape: `float()` rejecting a literal, or a missing comma field. */
  datatype ParseError = ValueError(literal: string) | IndexError

  const EmptyEntry := Entry(None, None, None, None)

  const StartPrefix := "Segment Start:"
  const TextPrefix := "Text:"
  const KeywordsPrefix := "Keywords:"
  const BlockSeparator := "\n\n"
  const KeywordSeparator := ", "

  // ---------------------------------------------------------------------------
  // Rendering (process_video, the loop that grows result_text)
  // ---------------------------------------------------------------------------

  function StartLine(seg: Segment): string {
    "Segment Start: " + seg.startText + "s, End: " + seg.endText + "s"
  }

  function TextLine(seg: Segment): string {
    "Text: " + Strip(seg.text)
  }

  function KeywordsLine(seg: Segment): string {
    "Keywords: " + Join(seg.keywords, KeywordSeparator)
  }

  /** What one iteration of the rendering loop appends. */
  function RenderSegment(seg: Segment): string {
    StartLine(seg) + "\n" + TextLine(seg) + "\n" + KeywordsLine(seg) + "\n\n"
  }

  /** The block of every segment, in segment order. */
  function Rendered(segs: seq<Segment>): (blocks: seq<string>)
    ensures |blocks| == |segs|
  {
    seq(|segs|, i requires 0 <= i < |segs| => RenderSegment(segs[i]))
  }

  /** The whole `result_text` for a list of segments. */
  function Serialized(segs: seq<Segment>): string {
    Concat(Rendered(segs))
  }

  /** Rendering one more segment appends its block: the text grows segment by segment. */
  lemma SerializedSnoc(segs: seq<Segment>, seg: Segment)
    ensures Serialized(segs + [seg]) == Serialized(segs) + RenderSegment(seg)
  {
    assert Rendered(segs + [seg]) == Rendered(segs) + [RenderSegment(seg)];
    assert (Rendered(segs) + [RenderSegment(seg)])[..|segs|] == Rendered(segs);
  }

  /** Read from the front, the text is the first segment's block followed by the others'. */
  lemma SerializedCons(segs: seq<Segment>)
    requires |segs| > 0
    ensures Serialized(segs) == RenderSegment(segs[0]) + Serialized(segs[1..])
  {
    assert Rendered(segs) == [RenderSegment(segs[0])] + Rendered(segs[1..]);
    ConcatCons(RenderSegment(segs[0]), Rendered(segs[1..]));
  }

  /** The rendering loop: `result_text += ...` once per segment, in segment order. */
  method SerializeSegments(segs: seq<Segment>) returns (resultText: string)
    ensures resultText == Serialized(segs)
  {
    resultText := "";
    var i := 0;
    while i < |segs|
      invariant 0 <= i <= |segs|
      invariant resultText == Serialized(segs[..i])
    {
      var seg := segs[i];
      ghost var before := resultText;
      resultText := resultText + StartLine(seg) + "\n";
      resultText := resultText + TextLine(seg) + "\n";
      resultText := resultText + KeywordsLine(seg) + "\n\n";
      AppendsRegroup(before, StartLine(seg), "\n", TextLine(seg), "\n", KeywordsLine(seg), "\n\n");
      SerializedSnoc(segs[..i], seg);
      assert segs[..i + 1] == segs[..i] + [seg];
      i := i + 1;
    }
    assert segs[..i] == segs;
  }

  /** Appending six pieces one after another is appending their concatenation. */
  lemma AppendsRegroup(x: string, a: string, b: string, c: string, d: string, e: string, f: string)
    ensures x + a + b + c + d + e + f == x + (a + b + c + d + e + f)
  {
  }

  /** The four lines one segment contributes: start/end, text, keywords and a blank line. */
  function SegmentLines(segs: seq<Segment>): seq<string> {
    if segs == [] then []
    else [StartLine(segs[0]), TextLine(segs[0]), KeywordsLine(segs[0]), ""] + SegmentLines(segs[1..])
  }

  /**
   * When no rendered field holds a line break, the text read line by line is
   * exactly a start line, a text line, a keywords line and a blank line per
   * segment, in segment order (and the empty piece after the final newline).
   */
  lemma {:induction false} SerializedLines(segs: seq<Segment>)
    requires forall k :: 0 <= k < |segs| ==>
      Lacks(StartLine(segs[k]), '\n') && Lacks(TextLine(segs[k]), '\n') && Lacks(KeywordsLine(segs[k]), '\n')
    ensures Split(Serialized(segs), "\n") == SegmentLines(segs) + [""]
  {
    if segs != [] {
      var seg := segs[0];
      SerializedCons(segs);
      SerializedLines(segs[1..]);
      SplitBlock(StartLine(seg), TextLine(seg), KeywordsLine(seg), Serialized(segs[1..]));
    }
  }

  /** One rendered block, read line by line: its three lines, the blank line, then what follows. */
  lemma SplitBlock(l1: string, l2: string, l3: string, rest: string)
    requires Lacks(l1, '\n') && Lacks(l2, '\n') && Lacks(l3, '\n')
    ensures Split(l1 + "\n" + l2 + "\n" + l3 + "\n\n" + rest, "\n") == [l1, l2, l3, ""] + Split(rest, "\n")
  {
    var head := l1 + "\n" + l2 + "\n" + l3;
    assert head + "\n\n" + rest == head + ("\n\n" + rest);
    Regroup(l1, "\n", l2, "\n", l3, "\n\n" + rest);
    SplitNested(l1, l2, l3, rest);
  }

  /** `SplitBlock` with the concatenation nested to the right, one line break at a time. */
  lemma SplitNested(l1: string, l2: string, l3: string, rest: string)
    requires Lacks(l1, '\n') && Lacks(l2, '\n') && Lacks(l3, '\n')
    ensures Split(l1 + ("\n" + (l2 + ("\n" + (l3 + ("\n\n" + rest))))), "\n") == [l1, l2, l3, ""] + Split(rest, "\n")
  {
    var tail := Split(rest, "\n");
    var r3 := "\n" + rest;
    var r2 := l3 + ("\n" + r3);
    var r1 := l2 + ("\n" + r2);
    assert "" + ("\n" + rest) == r3;
    assert "\n\n" + rest == "\n" + r3;
    SplitFirstLine("", rest);
    SplitFirstLine(l3, r3);
    SplitFirstLine(l2, r2);
    SplitFirstLine(l1, r1);
    assert [l1] + ([l2] + ([l3] + ([""] + tail))) == [l1, l2, l3, ""] + tail;
  }

  /** A line without a line break, then a line break: the first piece of the split is that line. */
  lemma SplitFirstLine(line: string, rest: string)
    requires Lacks(line, '\n')
    ensures Split(line + ("\n" + rest), "\n") == [line] + Split(rest, "\n")
  {
    assert line + ("\n" + rest) == line + ['\n'] + rest;
    SplitOnChar(line, '\n', rest);
  }

  /** Appending pieces left to right is nesting them to the right. */
  lemma Regroup(a: string, b: string, c: string, d: string, e: string, f: string)
    ensures a + b + c + d + e + f == a + (b + (c + (d + (e + f))))
  {
  }

  /**
   * Keywords joined with ", " (the rendering) and split on ", " (the parser)
   * come back unchanged when the list is non-empty and no keyword contains
   * ", "; an empty list comes back as one empty keyword.
   */
  lemma {:induction false} KeywordsRoundTrip(kws: seq<string>)
    requires forall k :: 0 <= k < |kws| ==> !Contains(kws[k], KeywordSeparator)
    ensures Split(Join(kws, KeywordSeparator), KeywordSeparator) == if kws == [] then [""] else kws
  {
    var sep := KeywordSeparator;
    if |kws| == 1 {
      NoOccurrence(kws[0], sep);
      SplitNoMatch(kws[0], sep);
    } else if |kws| > 1 {
      var a := kws[0];
      var b := Join(kws[1..], sep);
      var s := a + sep + b;
      NoOccurrence(a, sep);
      forall i | 0 <= i < |a| ensures !MatchAt(s, i, sep) {
        if i + 1 < |a| {
          assert !MatchAt(a, i, sep);
          assert s[i..i + 2] == a[i..i + 2];
        } else {
          assert s[i..i + 2][1] == s[i + 1] == ',';
        }
      }
      assert s[|a|..|a| + 2] == sep;
      SplitAt(s, sep, |a|);
      assert s[..|a|] == a;
      assert s[|a| + 2..] == b;
      KeywordsRoundTrip(kws[1..]);
    }
  }

  /**
   * A whole rendered keywords line reads back as the segment's keywords:
   * removing every "Keywords:", stripping and splitting on ", " undoes the
   * rendering when there is at least one keyword, none contains ", " or
   * "Keywords:", the first does not start and the last does not end with
   * white space.
   */
  lemma KeywordsLineRoundTrip(seg: Segment)
    requires |seg.keywords| > 0
    requires forall k :: 0 <= k < |seg.keywords| ==>
               !Contains(seg.keywords[k], KeywordSeparator) && !Contains(seg.keywords[k], KeywordsPrefix)
    requires var first := seg.keywords[0]; |first| > 0 && !IsSpace(first[0])
    requires var last := seg.keywords[|seg.keywords| - 1]; |last| > 0 && !IsSpace(last[|last| - 1])
    ensures KeywordsValue(KeywordsLine(seg)) == seg.keywords
  {
    var kws := seg.keywords;
    var sep := KeywordSeparator;
    var j := Join(kws, sep);
    forall k | 0 <= k < |kws|
      ensures NoMatchBefore(kws[k], KeywordsPrefix, |kws[k]|)
    {
      NoOccurrence(kws[k], KeywordsPrefix);
    }
    JoinNoMatch(kws, sep, KeywordsPrefix);
    var line := KeywordsLine(seg);
    assert line == KeywordsPrefix + (" " + j);
    assert line[..|KeywordsPrefix|] == KeywordsPrefix && line[|KeywordsPrefix|..] == " " + j;
    RemoveAllConcat(" ", j, KeywordsPrefix);
    RemoveAllNoMatch(j, KeywordsPrefix);
    assert RemoveAll(line, KeywordsPrefix) == " " + j;
    JoinFirst(kws, sep);
    JoinLast(kws, sep);
    var last := kws[|kws| - 1];
    assert j[|j| - |last|..][|last| - 1] == last[|last| - 1];
    StripOneLeadingSpace(" " + j);
    assert (" " + j)[1..] == j;
    KeywordsRoundTrip(kws);
  }

  lemma NoOccurrence(s: string, pat: string)
    requires !Contains(s, pat)
    ensures NoMatchBefore(s, pat, |s|)
  {
  }

  // ---------------------------------------------------------------------------
  // Parsing (parse_transcript)
  // ---------------------------------------------------------------------------

  predicate AllDigits(s: string) {
    forall i :: 0 <= i < |s| ==> IsDigit(s[i])
  }

  function Pow10(k: nat): (p: nat)
    ensures p > 0
  {
    if k == 0 then 1 else 10 * Pow10(k - 1)
  }

  /** Python's `float(lit)` on decimal literals: an optional sign, digits and at most one point. */
  function ParseFloat(lit: string): Option<real> {
    var negative := |lit| > 0 && lit[0] == '-';
    var unsigned := if |lit| > 0 && (lit[0] == '+' || lit[0] == '-') then lit[1..] else lit;
    var parts := Split(unsigned, ".");
    if |parts| > 2 then None
    else
      var whole := parts[0];
      var frac := if |parts| == 2 then parts[1] else "";
      if |whole| + |frac| == 0 || !AllDigits(whole) || !AllDigits(frac) then None
      else
        var magnitude := DigitsValue(whole + frac) as real / Pow10(|frac|) as real;
        Some(if negative then -magnitude else magnitude)
  }

  /** A literal `float()` accepts begins with a sign, a point or a digit. */
  lemma NumberLiteralStart(lit: string)
    requires ParseFloat(lit).Some?
    ensures |lit| > 0 && (lit[0] == '+' || lit[0] == '-' || lit[0] == '.' || IsDigit(lit[0]))
  {
    if |lit| > 0 && !(lit[0] == '+' || lit[0] == '-' || lit[0] == '.') {
      assert NoMatchBefore(lit, ".", 1);
      SplitFirstKeepsPrefix(lit, ".", 1);
      assert Split(lit, ".")[0][0] == lit[0];
    }
  }

  /** What `f"{t:.2f}"` produces for a finite time: an optional minus, digits, a point, two digits. */
  predicate IsFixed2(s: string) {
    var body := if |s| > 0 && s[0] == '-' then s[1..] else s;
    |body| >= 4 && body[|body| - 3] == '.'
    && forall i :: 0 <= i < |body| && i != |body| - 3 ==> IsDigit(body[i])
  }

  /** Digits hold no point. */
  lemma DigitsLackPoint(t: string)
    requires AllDigits(t)
    ensures Lacks(t, '.')
  {
  }

  /** A literal whose unsigned part splits at one point into two runs of digits, not both empty, is accepted. */
  lemma DigitRunsParse(lit: string, whole: string, frac: string)
    requires var unsigned := if |lit| > 0 && (lit[0] == '+' || lit[0] == '-') then lit[1..] else lit;
             Split(unsigned, ".") == [whole, frac]
    requires AllDigits(whole) && AllDigits(frac) && |whole| + |frac| > 0
    ensures ParseFloat(lit).Some?
  {
  }

  /** Every `:.2f` rendering is accepted by `float()`. */
  lemma FixedParses(s: string)
    requires IsFixed2(s)
    ensures ParseFloat(s).Some?
  {
    var body := if |s| > 0 && s[0] == '-' then s[1..] else s;
    var n := |body|;
    var whole := body[..n - 3];
    var frac := body[n - 2..];
    assert body == whole + ['.'] + frac;
    assert AllDigits(whole) by {
      forall i | 0 <= i < |whole| ensures IsDigit(whole[i]) {
        assert whole[i] == body[i];
      }
    }
    assert AllDigits(frac) by {
      forall i | 0 <= i < |frac| ensures IsDigit(frac[i]) {
        assert frac[i] == body[n - 2 + i];
      }
    }
    DigitsLackPoint(whole);
    DigitsLackPoint(frac);
    LacksNoMatch(frac, '.');
    SplitNoMatch(frac, ".");
    SplitOnChar(whole, '.', frac);
    assert IsDigit(body[0]);
    DigitRunsParse(s, whole, frac);
  }

  /** One line of a block: the `if/elif` chain on the three prefixes. */
  function ParsedLine(e: Entry, line: string): Result<Entry, ParseError> {
    if StartsWith(line, StartPrefix) then
      match Times(line)
      case Err(x) => Err(x)
      case Ok(times) => Ok(e.(start := Some(times.0), end := Some(times.1)))
    else if StartsWith(line, TextPrefix) then
      Ok(e.(text := Some(TextValue(line))))
    else if StartsWith(line, KeywordsPrefix) then
      Ok(e.(keywords := Some(KeywordsValue(line))))
    else
      Ok(e)
  }

  /**
   * The start and end of a "Segment Start:" line: every "Segment Start:" removed,
   * trimmed, split on commas; each of the first two fields trimmed and stripped
   * of every "s", then given to `float()`. The start is read before the end.
   */
  function Times(line: string): Result<(real, real), ParseError> {
    var fields := Split(Strip(RemoveAll(line, StartPrefix)), ",");
    var startLit := TimeLiteral(fields[0]);
    match ParseFloat(startLit)
    case None => Err(ValueError(startLit))
    case Some(start) =>
      if |fields| < 2 then Err(IndexError)
      else
        var endLit := TimeLiteral(fields[1]);
        match ParseFloat(endLit)
        case None => Err(ValueError(endLit))
        case Some(end) => Ok((start, end))
  }

  function TimeLiteral(field: string): string {
    RemoveAll(Strip(field), "s")
  }

  /** The text field: every occurrence of "Text:" removed, not only the prefix, then trimmed. */
  function TextValue(line: string): string {
    Strip(RemoveAll(line, TextPrefix))
  }

  function KeywordsValue(line: string): seq<string> {
    Split(Strip(RemoveAll(line, KeywordsPrefix)), KeywordSeparator)
  }

  /** The lines of one block, processed in order; the first exception ends the parse. */
  function ParsedLines(e: Entry, lines: seq<string>): Result<Entry, ParseError>
    decreases |lines|
  {
    if lines == [] then Ok(e)
    else
      match ParsedLine(e, lines[0])
      case Err(x) => Err(x)
      case Ok(e') => ParsedLines(e', lines[1..])
  }

  /** One `"\n\n"`-separated block: stripped, split into lines, folded from an empty dictionary. */
  function ParsedBlock(block: string): Result<Entry, ParseError> {
    ParsedLines(EmptyEntry, Split(Strip(block), "\n"))
  }

  /** The blocks of a transcript: the stripped text split on blank lines. */
  function Blocks(transcript: string): seq<string> {
    Split(Strip(transcript), BlockSeparator)
  }

  /** What each block parses to, block by block. */
  function BlockOutcomes(blocks: seq<string>): (rs: seq<Result<Entry, ParseError>>)
    ensures |rs| == |blocks|
  {
    seq(|blocks|, k requires 0 <= k < |blocks| => ParsedBlock(blocks[k]))
  }

  /** The entries of a list of blocks, or the exception of the first block that raises. */
  function ParsedBlocks(blocks: seq<string>): Result<seq<Entry>, ParseError> {
    Collect(BlockOutcomes(blocks))
  }

  /**
   * One entry per block, in block order, when every block parses; otherwise
   * the exception of the first block that fails.
   */
  lemma ParsedBlocksSpec(blocks: seq<string>)
    ensures ParsedBlocks(blocks).Ok? <==> forall k :: 0 <= k < |blocks| ==> ParsedBlock(blocks[k]).Ok?
    ensures ParsedBlocks(blocks).Ok? ==>
              |ParsedBlocks(blocks).value| == |blocks| &&
              forall k :: 0 <= k < |blocks| ==> ParsedBlock(blocks[k]) == Ok(ParsedBlocks(blocks).value[k])
    ensures ParsedBlocks(blocks).Err? ==>
              exists k :: 0 <= k < |blocks| && ParsedBlock(blocks[k]) == Err(ParsedBlocks(blocks).error) &&
                          forall j :: 0 <= j < k ==> ParsedBlock(blocks[j]).Ok?
  {
    var rs := BlockOutcomes(blocks);
    CollectSpec(rs);
    assert forall k :: 0 <= k < |blocks| ==> rs[k] == ParsedBlock(blocks[k]);
  }

  /** What `parse_transcript` returns or raises. */
  function Parsed(transcript: string): Result<seq<Entry>, ParseError> {
    ParsedBlocks(Blocks(transcript))
  }

  /** `parse_transcript`: the outer loop, one dictionary appended to `entries` per block. */
  method ParseTranscript(transcript: string) returns (r: Result<seq<Entry>, ParseError>)
    ensures r == Parsed(transcript)
  {
    var entries: seq<Entry> := [];
    var segments := Split(Strip(transcript), BlockSeparator);
    ghost var outcomes := BlockOutcomes(segments);
    var i := 0;
    while i < |segments|
      invariant 0 <= i <= |segments|
      invariant Collect(outcomes[..i]) == Ok(entries)
    {
      var segmentData := ParseBlock(segments[i]);
      assert outcomes[i] == segmentData;
      PrefixSnoc(outcomes, i);
      if segmentData.Err? {
        r := Err(segmentData.error);
        CollectStops(outcomes, i + 1);
        return;
      }
      entries := entries + [segmentData.value];
      i := i + 1;
    }
    assert outcomes[..i] == outcomes;
    r := Ok(entries);
  }

  /** `parse_transcript`: the inner loop, which fills `segment_data` from the lines of one block. */
  method ParseBlock(segment: string) returns (r: Result<Entry, ParseError>)
    ensures r == ParsedBlock(segment)
  {
    var lines := Split(Strip(segment), "\n");
    var segmentData := EmptyEntry;
    var j := 0;
    while j < |lines|
      invariant 0 <= j <= |lines|
      invariant ParsedBlock(segment) == ParsedLines(segmentData, lines[j..])
    {
      assert lines[j..][1..] == lines[j + 1..];
      var next := ParsedLine(segmentData, lines[j]);
      if next.Err? {
        return Err(next.error);
      }
      segmentData := next.value;
      j := j + 1;
    }
    r := Ok(segmentData);
  }

  /** When every block before `i` parses and block `i` raises `x`, the whole parse raises `x`. */
  lemma FirstFailureDecides(blocks: seq<string>, i: nat, x: ParseError)
    requires i < |blocks| && ParsedBlock(blocks[i]) == Err(x)
    requires forall k :: 0 <= k < i ==> ParsedBlock(blocks[k]).Ok?
    ensures ParsedBlocks(blocks) == Err(x)
  {
    var rs := BlockOutcomes(blocks);
    forall k | 0 <= k < i ensures rs[k].Ok? {
      assert rs[k] == ParsedBlock(blocks[k]);
    }
    FirstErrorDecides(rs, i, x);
  }

  /** Empty or white-space-only input gives a list holding one empty dictionary, not an empty list. */
  lemma BlankTranscript(transcript: string)
    requires forall i :: 0 <= i < |transcript| ==> IsSpace(transcript[i])
    ensures Parsed(transcript) == Ok([EmptyEntry])
  {
    StripBlank(transcript);
    assert Blocks(transcript) == [""];
    assert Strip("") == "";
    assert Split("", "\n") == [""];
    assert ParsedLine(EmptyEntry, "") == Ok(EmptyEntry);
    assert ParsedBlock("") == Ok(EmptyEntry);
    var rs := BlockOutcomes([""]);
    assert rs == [Ok(EmptyEntry)];
    assert rs[..0] == [];
    assert Collect(rs[..0]) == Ok([]);
    assert [] + [EmptyEntry] == [EmptyEntry];
    assert Collect(rs) == Ok([EmptyEntry]);
  }

  predicate Ignored(line: string) {
    !StartsWith(line, StartPrefix) && !StartsWith(line, TextPrefix) && !StartsWith(line, KeywordsPrefix)
  }

  /** Lines with none of the three prefixes leave the dictionary as it was. */
  lemma {:induction false} IgnoredLines(e: Entry, lines: seq<string>)
    requires forall k :: 0 <= k < |lines| ==> Ignored(lines[k])
    ensures ParsedLines(e, lines) == Ok(e)
    decreases |lines|
  {
    if lines != [] {
      IgnoredLines(e, lines[1..]);
    }
  }

  /** Processing `a + b` is processing `a`, then `b` from where `a` left off. */
  lemma {:induction false} ParsedLinesAppend(e: Entry, a: seq<string>, b: seq<string>)
    ensures ParsedLines(e, a + b) == match ParsedLines(e, a)
      case Err(x) => Err(x)
      case Ok(e') => ParsedLines(e', b)
    decreases |a|
  {
    if a == [] {
      assert a + b == b;
    } else {
      assert (a + b)[0] == a[0];
      assert (a + b)[1..] == a[1..] + b;
      match ParsedLine(e, a[0])
      case Err(x) =>
      case Ok(e') => ParsedLinesAppend(e', a[1..], b);
    }
  }

  /** Lines that do not start with "Text:" leave the text field alone. */
  lemma {:induction false} TextKept(e: Entry, lines: seq<string>)
    requires forall k :: 0 <= k < |lines| ==> !StartsWith(lines[k], TextPrefix)
    requires ParsedLines(e, lines).Ok?
    ensures ParsedLines(e, lines).value.text == e.text
    decreases |lines|
  {
    if lines != [] {
      TextKept(ParsedLine(e, lines[0]).value, lines[1..]);
    }
  }

  /** Lines that do not start with "Keywords:" leave the keyword field alone. */
  lemma {:induction false} KeywordsKept(e: Entry, lines: seq<string>)
    requires forall k :: 0 <= k < |lines| ==> !StartsWith(lines[k], KeywordsPrefix)
    requires ParsedLines(e, lines).Ok?
    ensures ParsedLines(e, lines).value.keywords == e.keywords
    decreases |lines|
  {
    if lines != [] {
      KeywordsKept(ParsedLine(e, lines[0]).value, lines[1..]);
    }
  }

  /** A "Text:" line sets the text field and nothing else. */
  lemma TextLineParsed(e: Entry, line: string)
    requires StartsWith(line, TextPrefix)
    ensures ParsedLine(e, line) == Ok(e.(text := Some(TextValue(line))))
  {
    assert line[0] == 'T';
  }

  /** A "Keywords:" line sets the keyword field and nothing else. */
  lemma KeywordsLineParsed(e: Entry, line: string)
    requires StartsWith(line, KeywordsPrefix)
    ensures ParsedLine(e, line) == Ok(e.(keywords := Some(KeywordsValue(line))))
  {
    assert line[0] == 'K';
  }

  /** Of several "Text:" lines in one block, the last one decides the text field. */
  lemma {:induction false} LastTextLineWins(e: Entry, lines: seq<string>, j: nat)
    requires j < |lines| && StartsWith(lines[j], TextPrefix)
    requires forall k :: j < k < |lines| ==> !StartsWith(lines[k], TextPrefix)
    requires ParsedLines(e, lines).Ok?
    ensures ParsedLines(e, lines).value.text == Some(TextValue(lines[j]))
    decreases j
  {
    var e1 := ParsedLine(e, lines[0]).value;
    if j == 0 {
      TextLineParsed(e, lines[0]);
      forall k | 0 <= k < |lines| - 1 ensures !StartsWith(lines[1..][k], TextPrefix) {
        assert lines[1..][k] == lines[k + 1];
      }
      TextKept(e1, lines[1..]);
    } else {
      LastTextLineWins(e1, lines[1..], j - 1);
    }
  }

  /** Of several "Keywords:" lines in one block, the last one decides the keyword field. */
  lemma {:induction false} LastKeywordsLineWins(e: Entry, lines: seq<string>, j: nat)
    requires j < |lines| && StartsWith(lines[j], KeywordsPrefix)
    requires forall k :: j < k < |lines| ==> !StartsWith(lines[k], KeywordsPrefix)
    requires ParsedLines(e, lines).Ok?
    ensures ParsedLines(e, lines).value.keywords == Some(KeywordsValue(lines[j]))
    decreases j
  {
    var e1 := ParsedLine(e, lines[0]).value;
    if j == 0 {
      KeywordsLineParsed(e, lines[0]);
      forall k | 0 <= k < |lines| - 1 ensures !StartsWith(lines[1..][k], KeywordsPrefix) {
        assert lines[1..][k] == lines[k + 1];
      }
      KeywordsKept(e1, lines[1..]);
    } else {
      LastKeywordsLineWins(e1, lines[1..], j - 1);
    }
  }

  // ---------------------------------------------------------------------------
  // Feeding the rendered text back to the parser (line 88)
  // ---------------------------------------------------------------------------

  /** The characters a `:.2f` rendering is made of: a minus sign, digits and a point. */
  predicate TimeChars(s: string) {
    |s| > 0 && forall i :: 0 <= i < |s| ==> s[i] == '-' || s[i] == '.' || IsDigit(s[i])
  }

  lemma FixedChars(s: string)
    requires IsFixed2(s)
    ensures TimeChars(s)
  {
    var body := if |s| > 0 && s[0] == '-' then s[1..] else s;
    forall i | 0 <= i < |s| ensures s[i] == '-' || s[i] == '.' || IsDigit(s[i]) {
      if s[0] == '-' && i > 0 {
        assert s[i] == body[i - 1];
      }
    }
  }

  /** What follows "Segment Start:" on a rendered start line. */
  function StartRest(st: string, et: string): string {
    " " + (st + "s") + [','] + (" End: " + et + "s")
  }

  lemma StartLineShape(seg: Segment)
    ensures StartLine(seg) == StartPrefix + StartRest(seg.startText, seg.endText)
  {
  }

  /** A character that occurs neither in the two times nor in the fixed text around them is absent from the rest. */
  lemma StartRestLacks(st: string, et: string, c: char)
    requires Lacks(st, c) && Lacks(et, c)
    requires c != ' ' && c != 's' && c != ',' && c != 'E' && c != 'n' && c != 'd' && c != ':'
    ensures Lacks(StartRest(st, et), c)
  {
    LacksConcat(st, "s", c);
    LacksConcat(" End: ", et, c);
    LacksConcat(" End: " + et, "s", c);
    LacksConcat(" ", st + "s", c);
    LacksConcat(" " + (st + "s"), [','], c);
    LacksConcat(" " + (st + "s") + [','], " End: " + et + "s", c);
  }

  /** The comma-separated fields of a rendered start line: the start time with its "s", then " End: <end>s". */
  lemma StartFields(st: string, et: string)
    requires TimeChars(st) && TimeChars(et)
    ensures Split(Strip(RemoveAll(StartPrefix + StartRest(st, et), StartPrefix)), ",")
         == [st + "s", " End: " + et + "s"]
  {
    var x := StartRest(st, et);
    var line := StartPrefix + x;
    assert line[..|StartPrefix|] == StartPrefix && line[|StartPrefix|..] == x;
    StartRestLacks(st, et, 'S');
    RemoveAllAbsent(x, StartPrefix);
    assert RemoveAll(line, StartPrefix) == x;
    StripOneLeadingSpace(x);
    var head, tail := st + "s", " End: " + et + "s";
    assert x[1..] == head + [','] + tail;
    LacksConcat(st, "s", ',');
    SplitOnChar(head, ',', tail);
    LacksConcat(" End: ", et, ',');
    LacksConcat(" End: " + et, "s", ',');
    LacksNoMatch(tail, ',');
    SplitNoMatch(tail, ",");
  }

  /** The first field loses its "s" and is the start time again. */
  lemma StartLiteral(st: string)
    requires TimeChars(st)
    ensures TimeLiteral(st + "s") == st
  {
    StripUnchanged(st + "s");
    RemoveAllConcat(st, "s", "s");
    assert RemoveAll("s", "s") == "";
    assert st + "" == st;
  }

  /** The second field keeps its "End:" label: "End: <end>". */
  lemma EndLiteral(et: string)
    requires TimeChars(et)
    ensures TimeLiteral(" End: " + et + "s") == "End: " + et
  {
    var tail := " End: " + et + "s";
    StripOneLeadingSpace(tail);
    assert tail[1..] == ("End: " + et) + "s";
    LacksConcat("End: ", et, 's');
    RemoveAllConcat("End: " + et, "s", "s");
    assert RemoveAll("s", "s") == "";
    assert "End: " + et + "" == "End: " + et;
  }

  /** `float()` rejects a literal that starts with a letter. */
  lemma LabelNotNumber(lit: string)
    requires |lit| > 0 && lit[0] == 'E'
    ensures ParseFloat(lit) == None
  {
    if ParseFloat(lit).Some? {
      NumberLiteralStart(lit);
      assert false;
    }
  }

  /** The start and end of a rendered start line: the start parses, the end raises `ValueError`. */
  lemma TimesOfStartLine(seg: Segment)
    requires IsFixed2(seg.startText) && IsFixed2(seg.endText)
    ensures Times(StartLine(seg)) == Err(ValueError("End: " + seg.endText))
  {
    var st, et := seg.startText, seg.endText;
    FixedChars(st);
    FixedChars(et);
    StartLineShape(seg);
    StartFields(st, et);
    StartLiteral(st);
    FixedParses(st);
    EndLiteral(et);
    LabelNotNumber("End: " + et);
  }

  /** The first line of a rendered block, as the parser reads it, raises on the "End:" field. */
  lemma StartLineRaises(e: Entry, seg: Segment)
    requires IsFixed2(seg.startText) && IsFixed2(seg.endText)
    ensures ParsedLine(e, StartLine(seg)) == Err(ValueError("End: " + seg.endText))
  {
    StartLineShape(seg);
    assert StartsWith(StartLine(seg), StartPrefix);
    TimesOfStartLine(seg);
  }

  /**
   * When a text begins with a line `l` (no line break, no leading space)
   * followed by a line break and a "T", the first block of the text, stripped
   * and split into lines, begins with `l`.
   */
  lemma FirstLineOfFirstBlock(text: string, l: string)
    requires |l| > 0 && !IsSpace(l[0]) && Lacks(l, '\n')
    requires |text| >= |l| + 2 && text[..|l|] == l && text[|l|] == '\n' && text[|l| + 1] == 'T'
    ensures Split(Strip(Blocks(text)[0]), "\n")[0] == l
  {
    var n := |l|;
    assert text[0] == l[0];
    StripKeepsPrefix(text, n + 1);
    var s := Strip(text);
    assert NoMatchBefore(s, BlockSeparator, n + 2) by {
      forall i | 0 <= i < n + 2 ensures !MatchAt(s, i, BlockSeparator) {
        if i < n {
          assert s[i] == l[i];
          MismatchAt(s, i, BlockSeparator, 0);
        } else {
          MismatchAt(s, i, BlockSeparator, n + 1 - i);
        }
      }
    }
    SplitFirstKeepsPrefix(s, BlockSeparator, n + 2);
    var b0 := Blocks(text)[0];
    assert b0[..n + 2] == text[..n + 2];
    assert b0[0] == l[0] && b0[n + 1] == 'T';
    StripKeepsPrefix(b0, n + 1);
    var sb := Strip(b0);
    assert sb[..n + 2] == text[..n + 2];
    assert sb[..n] == l;
    assert MatchAt(sb, n, "\n") by {
      assert sb[n..n + 1] == [sb[n]];
    }
    assert NoMatchBefore(sb, "\n", n) by {
      forall i | 0 <= i < n ensures !MatchAt(sb, i, "\n") {
        assert sb[i] == l[i];
        MismatchAt(sb, i, "\n", 0);
      }
    }
    SplitAt(sb, "\n", n);
  }

  /** A block whose first line raises raises the same exception. */
  lemma FirstLineFails(e: Entry, lines: seq<string>)
    requires |lines| > 0 && ParsedLine(e, lines[0]).Err?
    ensures ParsedLines(e, lines) == ParsedLine(e, lines[0])
  {
  }

  /** The rendered text opens with the first start line, a line break and the "T" of "Text:". */
  lemma RenderedHead(segs: seq<Segment>)
    requires |segs| > 0
    ensures var text, l := Serialized(segs), StartLine(segs[0]);
            |text| >= |l| + 2 && text[..|l|] == l && text[|l|] == '\n' && text[|l| + 1] == 'T'
  {
    var seg := segs[0];
    var l, tl := StartLine(seg), TextLine(seg);
    SerializedCons(segs);
    Reassoc(l, "\n", tl, "\n", KeywordsLine(seg), "\n\n", Serialized(segs[1..]));
    assert tl[0] == 'T';
    LineThenT(Serialized(segs), l, tl + "\n" + KeywordsLine(seg) + "\n\n" + Serialized(segs[1..]));
  }

  lemma Reassoc(a: string, b: string, c: string, d: string, e: string, f: string, g: string)
    ensures a + b + c + d + e + f + g == a + b + (c + d + e + f + g)
  {
  }

  lemma LineThenT(x: string, l: string, rest: string)
    requires x == l + "\n" + rest && |rest| > 0 && rest[0] == 'T'
    ensures |x| >= |l| + 2 && x[..|l|] == l && x[|l|] == '\n' && x[|l| + 1] == 'T'
  {
  }

  /** A start line holds no line break and opens with "S". */
  lemma StartLineIsOneLine(seg: Segment)
    requires IsFixed2(seg.startText) && IsFixed2(seg.endText)
    ensures Lacks(StartLine(seg), '\n') && StartLine(seg)[0] == 'S'
  {
    FixedChars(seg.startText);
    FixedChars(seg.endText);
    StartLineShape(seg);
    StartRestLacks(seg.startText, seg.endText, '\n');
    LacksConcat(StartPrefix, StartRest(seg.startText, seg.endText), '\n');
  }

  /**
   * Feeding `parse_transcript` the text the rendering loop built (as line 88
   * does) raises `ValueError` on the first segment's "End: <time>" field, for
   * every non-empty list of segments whose times are `:.2f` renderings.
   */
  lemma RenderedTranscriptDoesNotParse(segs: seq<Segment>)
    requires |segs| > 0 && IsFixed2(segs[0].startText) && IsFixed2(segs[0].endText)
    ensures Parsed(Serialized(segs)) == Err(ValueError("End: " + segs[0].endText))
  {
    var text := Serialized(segs);
    var err := ValueError("End: " + segs[0].endText);
    StartLineIsOneLine(segs[0]);
    RenderedHead(segs);
    FirstLineOfFirstBlock(text, StartLine(segs[0]));
    var b0 := Blocks(text)[0];
    StartLineRaises(EmptyEntry, segs[0]);
    FirstLineFails(EmptyEntry, Split(Strip(b0), "\n"));
    assert ParsedBlock(b0) == Err(err);
    FirstFailureDecides(Blocks(text), 0, err);
  }
}
