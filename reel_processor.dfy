/**
 * The pure rules of the Instagram reel processor
 * (instagram-reel-processor/lambda_function.py): finding a reel's shortcode
 * in a URL's path and query, and collecting a caption's hashtags and
 * mentions. The URL is given already split into its path and its parsed
 * query (as `urlparse` and `parse_qs` produce them).
 */
module ReelProcessor {
  import opened Base
  import opened Text

  const ReelSegment := "reel"
  const IgshParameter := "igsh"

  /** The exception `extract_shortcode` raises. */
  datatype ShortcodeError = ValueError(message: string)

  /** `s.strip('/').split('/')`: never empty. */
  function PathParts(path: string): (parts: seq<string>)
    ensures |parts| > 0
  {
    Split(StripSlashes(path), "/")
  }

  /** `parts.index(x)`: the position of the first occurrence. */
  function IndexOf(parts: seq<string>, x: string): (i: nat)
    requires x in parts
    ensures i < |parts| && parts[i] == x
    ensures forall j :: 0 <= j < i ==> parts[j] != x
  {
    if parts[0] == x then 0 else 1 + IndexOf(parts[1..], x)
  }

  /**
   * `extract_shortcode`: the segment after the first "reel" when there is
   * one; the last segment when no segment is "reel"; otherwise the first
   * `igsh` query value, or `ValueError`. `parse_qs` never maps a name to an
   * empty list.
   */
  function ExtractShortcode(path: string, query: map<string, seq<string>>): Result<string, ShortcodeError>
    requires forall name :: name in query ==> |query[name]| > 0
  {
    var parts := PathParts(path);
    if ReelSegment in parts && IndexOf(parts, ReelSegment) + 1 < |parts| then
      Ok(parts[IndexOf(parts, ReelSegment) + 1])
    else if ReelSegment !in parts then
      Ok(parts[|parts| - 1])
    else if IgshParameter in query then
      Ok(query[IgshParameter][0])
    else
      Err(ValueError("Could not extract shortcode from the provided URL"))
  }

  /** The first "reel" segment is the last segment. */
  predicate ReelLast(parts: seq<string>) {
    ReelSegment in parts && IndexOf(parts, ReelSegment) == |parts| - 1
  }

  /** A "reel" segment that is not last: the result is the segment right after the first "reel". */
  lemma ReelFollowedBySegment(path: string, query: map<string, seq<string>>, i: nat)
    requires forall name :: name in query ==> |query[name]| > 0
    requires var parts := PathParts(path);
             i + 1 < |parts| && parts[i] == ReelSegment && forall j :: 0 <= j < i ==> parts[j] != ReelSegment
    ensures ExtractShortcode(path, query) == Ok(PathParts(path)[i + 1])
  {
    var parts := PathParts(path);
    var k := IndexOf(parts, ReelSegment);
    assert parts[k] == ReelSegment && parts[i] == ReelSegment;
    assert k == i;
  }

  /** Without a "reel" segment the result is the last segment and nothing is raised. */
  lemma NoReelLastSegment(path: string, query: map<string, seq<string>>)
    requires forall name :: name in query ==> |query[name]| > 0
    requires ReelSegment !in PathParts(path)
    ensures ExtractShortcode(path, query) == Ok(PathParts(path)[|PathParts(path)| - 1])
  {
  }

  /** The query is consulted only when the first "reel" is the last segment. */
  lemma QueryOnlyWhenReelLast(path: string, q1: map<string, seq<string>>, q2: map<string, seq<string>>)
    requires forall name :: name in q1 ==> |q1[name]| > 0
    requires forall name :: name in q2 ==> |q2[name]| > 0
    requires !ReelLast(PathParts(path))
    ensures ExtractShortcode(path, q1) == ExtractShortcode(path, q2)
    ensures ExtractShortcode(path, q1).Ok?
  {
  }

  /** `ValueError` is raised exactly when the first "reel" is the last segment and there is no `igsh` parameter. */
  lemma ValueErrorExactly(path: string, query: map<string, seq<string>>)
    requires forall name :: name in query ==> |query[name]| > 0
    ensures ExtractShortcode(path, query).Err? <==> ReelLast(PathParts(path)) && IgshParameter !in query
    ensures ReelLast(PathParts(path)) && IgshParameter in query ==>
              ExtractShortcode(path, query) == Ok(query[IgshParameter][0])
  {
  }

  /** Slashes before or after the path do not change the result. */
  lemma SurroundingSlashesIgnored(path: string, query: map<string, seq<string>>)
    requires forall name :: name in query ==> |query[name]| > 0
    ensures ExtractShortcode("/" + path, query) == ExtractShortcode(path, query)
    ensures ExtractShortcode(path + "/", query) == ExtractShortcode(path, query)
  {
    StripSlashesLeading(path);
    StripSlashesTrailing(path);
  }

  // ---------------------------------------------------------------------------
  // extract_tags (lines 109-116)
  // ---------------------------------------------------------------------------

  /** The ASCII characters of the regular-expression class `\w`. */
  predicate IsWordChar(c: char) {
    ('a' <= c <= 'z') || ('A' <= c <= 'Z') || ('0' <= c <= '9') || c == '_'
  }

  predicate AllWordChars(s: string) {
    forall i :: 0 <= i < |s| ==> IsWordChar(s[i])
  }

  /** The longest prefix of word characters: what the greedy `\w+` takes. */
  function WordRun(s: string): (run: string)
    ensures |run| <= |s| && run == s[..|run|] && AllWordChars(run)
    ensures |run| < |s| ==> !IsWordChar(s[|run|])
  {
    if |s| > 0 && IsWordChar(s[0]) then
      var rest := WordRun(s[1..]);
      assert s[1..][..|rest|] == s[1..|rest| + 1];
      [s[0]] + rest
    else ""
  }

  /**
   * `re.findall(marker + r"(\w+)", s)`: scanning left to right, a marker
   * followed by a word character yields the whole run of word characters
   * after it, and scanning resumes after that run; any other character is
   * skipped.
   */
  function Tags(s: string, marker: char): seq<string>
    decreases |s|
  {
    if |s| == 0 then []
    else if s[0] == marker && |s| > 1 && IsWordChar(s[1]) then
      var run := WordRun(s[1..]);
      [run] + Tags(s[1 + |run|..], marker)
    else
      Tags(s[1..], marker)
  }

  datatype TagLists = TagLists(hashtags: seq<string>, mentions: seq<string>)

  /** `extract_tags`: a missing or empty caption reads as "". */
  function ExtractTags(caption: Option<string>): TagLists {
    var text := if caption.Some? && caption.value != "" then caption.value else "";
    TagLists(Tags(text, '#'), Tags(text, '@'))
  }

  /** A missing or empty caption gives no hashtags and no mentions. */
  lemma NoCaptionNoTags(caption: Option<string>)
    requires caption.None? || caption.value == ""
    ensures ExtractTags(caption) == TagLists([], [])
  {
  }

  /** Every tag found is a non-empty run of word characters. */
  lemma {:induction false} TagsAreWords(s: string, marker: char)
    ensures forall k :: 0 <= k < |Tags(s, marker)| ==> |Tags(s, marker)[k]| > 0 && AllWordChars(Tags(s, marker)[k])
    decreases |s|
  {
    if |s| > 0 {
      if s[0] == marker && |s| > 1 && IsWordChar(s[1]) {
        var run := WordRun(s[1..]);
        TagsAreWords(s[1 + |run|..], marker);
      } else {
        TagsAreWords(s[1..], marker);
      }
    }
  }

  /** A text without the marker has no tags. */
  lemma {:induction false} NoMarkerNoTags(s: string, marker: char)
    requires Lacks(s, marker)
    ensures Tags(s, marker) == []
    decreases |s|
  {
    if |s| > 0 {
      NoMarkerNoTags(s[1..], marker);
    }
  }

  /** The caption `marker + w1 + " " + marker + w2 + " " + ...` built from words. */
  function Tagged(words: seq<string>, marker: char): string {
    if words == [] then "" else [marker] + words[0] + " " + Tagged(words[1..], marker)
  }

  /** Reading back a caption built from non-empty words gives exactly those words, in order. */
  lemma {:induction false} TagsOfTagged(words: seq<string>, marker: char)
    requires !IsWordChar(marker)
    requires forall k :: 0 <= k < |words| ==> |words[k]| > 0 && AllWordChars(words[k])
    ensures Tags(Tagged(words, marker), marker) == words
    decreases |words|
  {
    if words != [] {
      var w := words[0];
      var rest := Tagged(words[1..], marker);
      var s := [marker] + w + " " + rest;
      assert s[1..] == w + (" " + rest);
      assert s[1] == w[0];
      WordRunStops(w, " " + rest);
      assert s[1 + |w|..] == " " + rest;
      assert (" " + rest)[1..] == rest;
      TagsOfTagged(words[1..], marker);
    }
  }

  /** The run of word characters ends where a non-word character begins. */
  lemma {:induction false} WordRunStops(w: string, rest: string)
    requires AllWordChars(w) && |rest| > 0 && !IsWordChar(rest[0])
    ensures WordRun(w + rest) == w
    decreases |w|
  {
    if |w| > 0 {
      assert (w + rest)[1..] == w[1..] + rest;
      WordRunStops(w[1..], rest);
      assert [w[0]] + w[1..] == w;
    } else {
      assert w + rest == rest;
    }
  }
}
