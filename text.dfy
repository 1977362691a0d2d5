/**
 * The string primitives that the Python and TypeScript sources call: `strip`,
 * `startswith`, `split` with an explicit separator, `join`, `replace(old, "")`
 * and the decimal rendering of a natural number.  Strings are sequences of
 * Unicode scalar values, as in Python 3.
 */
module Text {

  /** Python's `str.isspace()` for one character (the characters `str.strip()` removes). */
  predicate IsSpace(c: char) {
    c == ' ' || ('\t' <= c <= '\r') || ('\U{1C}' <= c <= '\U{1F}') || c == '\U{85}' || c == '\U{A0}'
    || c == '\U{1680}' || ('\U{2000}' <= c <= '\U{200A}') || c == '\U{2028}' || c == '\U{2029}'
    || c == '\U{202F}' || c == '\U{205F}' || c == '\U{3000}'
  }

  predicate IsDigit(c: char) {
    '0' <= c <= '9'
  }

  predicate IsSlash(c: char) {
    c == '/'
  }

  /** Removes the leading characters that satisfy `drop`. */
  function TrimLeft(s: string, drop: char -> bool): string {
    if |s| > 0 && drop(s[0]) then TrimLeft(s[1..], drop) else s
  }

  /** Removes the trailing characters that satisfy `drop`. */
  function TrimRight(s: string, drop: char -> bool): string {
    if |s| > 0 && drop(s[|s| - 1]) then TrimRight(s[..|s| - 1], drop) else s
  }

  /**
   * Trimming on the left keeps a suffix: every character it removed satisfies
   * `drop` and the first one it kept does not.
   */
  lemma {:induction false} TrimLeftSpec(s: string, drop: char -> bool)
    ensures var r := TrimLeft(s, drop);
      |r| <= |s| && r == s[|s| - |r|..] && (r == [] || !drop(r[0]))
      && forall i :: 0 <= i < |s| - |r| ==> drop(s[i])
    decreases |s|
  {
    if |s| > 0 && drop(s[0]) {
      TrimLeftSpec(s[1..], drop);
      var r := TrimLeft(s[1..], drop);
      assert s[1..][|s| - 1 - |r|..] == s[|s| - |r|..];
      forall i | 1 <= i < |s| - |r| ensures drop(s[i]) {
        assert s[i] == s[1..][i - 1];
      }
    }
  }

  /**
   * Trimming on the right keeps a prefix: every character it removed satisfies
   * `drop` and the last one it kept does not.
   */
  lemma {:induction false} TrimRightSpec(s: string, drop: char -> bool)
    ensures var r := TrimRight(s, drop);
      |r| <= |s| && r == s[..|r|] && (r == [] || !drop(r[|r| - 1]))
      && forall i :: |r| <= i < |s| ==> drop(s[i])
    decreases |s|
  {
    if |s| > 0 && drop(s[|s| - 1]) {
      TrimRightSpec(s[..|s| - 1], drop);
      var r := TrimRight(s[..|s| - 1], drop);
      assert s[..|s| - 1][..|r|] == s[..|r|];
      forall i | |r| <= i < |s| - 1 ensures drop(s[i]) {
        assert s[i] == s[..|s| - 1][i];
      }
    }
  }

  /** Python's `s.strip()`. */
  function Strip(s: string): string {
    TrimRight(TrimLeft(s, IsSpace), IsSpace)
  }

  /** Python's `s.strip('/')`. */
  function StripSlashes(s: string): string {
    TrimRight(TrimLeft(s, IsSlash), IsSlash)
  }

  /** A leading slash does not change `s.strip('/')`. */
  lemma StripSlashesLeading(s: string)
    ensures StripSlashes("/" + s) == StripSlashes(s)
  {
    assert ("/" + s)[1..] == s;
  }

  /** A trailing slash does not change `s.strip('/')`. */
  lemma StripSlashesTrailing(s: string)
    ensures StripSlashes(s + "/") == StripSlashes(s)
  {
    TrimLeftSlashAppended(s);
    var r := TrimLeft(s, IsSlash);
    if r != "" {
      assert (r + "/")[..|r|] == r;
    }
  }

  lemma {:induction false} TrimLeftSlashAppended(s: string)
    ensures TrimLeft(s + "/", IsSlash) == if TrimLeft(s, IsSlash) == "" then "" else TrimLeft(s, IsSlash) + "/"
    decreases |s|
  {
    if s == "" {
      assert TrimLeft("/", IsSlash) == TrimLeft("", IsSlash);
    } else if IsSlash(s[0]) {
      assert (s + "/")[1..] == s[1..] + "/";
      TrimLeftSlashAppended(s[1..]);
    }
  }

  /** Python's `s.startswith(p)` and JavaScript's `s.startsWith(p)`. */
  predicate StartsWith(s: string, p: string) {
    |p| <= |s| && s[..|p|] == p
  }

  /** `pat` occurs in `s` starting at index `i`. */
  predicate MatchAt(s: string, i: int, pat: string) {
    0 <= i && i + |pat| <= |s| && s[i..i + |pat|] == pat
  }

  predicate Contains(s: string, pat: string) {
    exists i :: 0 <= i <= |s| - |pat| && MatchAt(s, i, pat)
  }

  /** No occurrence of `pat` in `s` starts before index `k`. */
  predicate NoMatchBefore(s: string, pat: string, k: int) {
    forall i :: 0 <= i < k ==> !MatchAt(s, i, pat)
  }

  /** No character of `s` is `c`. */
  predicate Lacks(s: string, c: char) {
    forall i :: 0 <= i < |s| ==> s[i] != c
  }

  lemma LacksConcat(a: string, b: string, c: char)
    requires Lacks(a, c) && Lacks(b, c)
    ensures Lacks(a + b, c)
  {
    forall i | 0 <= i < |a + b| ensures (a + b)[i] != c {
      if i >= |a| {
        assert (a + b)[i] == b[i - |a|];
      }
    }
  }

  /** A pattern does not occur where one of its characters differs from the text. */
  lemma MismatchAt(s: string, i: int, pat: string, j: int)
    requires 0 <= i && 0 <= j < |pat| && i + j < |s| && s[i + j] != pat[j]
    ensures !MatchAt(s, i, pat)
  {
    if i + |pat| <= |s| {
      assert s[i..i + |pat|][j] == s[i + j];
    }
  }

  /** The occurrences in `s[1..]` are those in `s`, one place to the left. */
  lemma MatchInTail(s: string, i: int, pat: string)
    requires |s| > 0 && 0 <= i
    ensures MatchAt(s[1..], i, pat) <==> MatchAt(s, i + 1, pat)
  {
    if i + |pat| <= |s| - 1 {
      assert s[1..][i..i + |pat|] == s[i + 1..i + 1 + |pat|];
    }
  }

  lemma NoMatchInTail(s: string, pat: string, k: int)
    requires |s| > 0 && NoMatchBefore(s, pat, k + 1)
    ensures NoMatchBefore(s[1..], pat, k)
  {
    forall i | 0 <= i < k ensures !MatchAt(s[1..], i, pat) {
      MatchInTail(s, i, pat);
    }
  }

  /** A one-character separator that does not occur in `s` matches nowhere in it. */
  lemma LacksNoMatch(s: string, c: char)
    requires Lacks(s, c)
    ensures NoMatchBefore(s, [c], |s|)
  {
    forall i | 0 <= i < |s| ensures !MatchAt(s, i, [c]) {
      assert s[i..i + 1] == [s[i]];
    }
  }

  /** Python's `sep.join(parts)`. */
  function Join(parts: seq<string>, sep: string): string {
    if |parts| == 0 then ""
    else if |parts| == 1 then parts[0]
    else parts[0] + sep + Join(parts[1..], sep)
  }

  /** The concatenation of `parts`, built left to right as `+=` in a loop builds it. */
  function Concat(parts: seq<string>): string {
    if parts == [] then "" else Concat(parts[..|parts| - 1]) + parts[|parts| - 1]
  }

  /** Concatenation read from the front: the first part, then the rest. */
  lemma {:induction false} ConcatCons(x: string, parts: seq<string>)
    ensures Concat([x] + parts) == x + Concat(parts)
    decreases |parts|
  {
    if parts == [] {
      assert [x] + parts == [x];
      assert [x][..0] == [];
    } else {
      var n := |parts|;
      var xs := [x] + parts;
      assert xs[..n] == [x] + parts[..n - 1];
      assert xs[n] == parts[n - 1];
      ConcatCons(x, parts[..n - 1]);
      calc {
        Concat(xs);
        Concat(xs[..n]) + xs[n];
        (x + Concat(parts[..n - 1])) + parts[n - 1];
        x + (Concat(parts[..n - 1]) + parts[n - 1]);
        x + Concat(parts);
      }
    }
  }

  /**
   * Python's `s.split(sep)` for a non-empty separator: the pieces between the
   * leftmost non-overlapping occurrences of `sep`.
   */
  function Split(s: string, sep: string): (parts: seq<string>)
    requires |sep| > 0
    ensures |parts| > 0
    decreases |s|
  {
    if |s| < |sep| then [s]
    else if s[..|sep|] == sep then [""] + Split(s[|sep|..], sep)
    else
      var rest := Split(s[1..], sep);
      [[s[0]] + rest[0]] + rest[1..]
  }

  /** Joining the pieces of a split with the separator gives the string back. */
  lemma {:induction false} SplitJoin(s: string, sep: string)
    requires |sep| > 0
    ensures Join(Split(s, sep), sep) == s
    decreases |s|
  {
    if |s| < |sep| {
    } else if s[..|sep|] == sep {
      var tail := s[|sep|..];
      var rest := Split(tail, sep);
      assert Split(s, sep) == [""] + rest;
      SplitJoin(tail, sep);
      JoinCons("", rest, sep);
      assert s == sep + tail;
    } else {
      var tail := s[1..];
      var rest := Split(tail, sep);
      assert Split(s, sep) == [[s[0]] + rest[0]] + rest[1..];
      SplitJoin(tail, sep);
      JoinGrowFirst([s[0]], rest, sep);
      assert s == [s[0]] + tail;
    }
  }

  /** Joining a piece in front of a non-empty list puts the piece and a separator in front. */
  lemma JoinCons(x: string, parts: seq<string>, sep: string)
    requires |parts| > 0
    ensures Join([x] + parts, sep) == x + sep + Join(parts, sep)
  {
    assert ([x] + parts)[1..] == parts;
  }

  /** Growing the first piece at the front grows the joined string at the front. */
  lemma JoinGrowFirst(x: string, parts: seq<string>, sep: string)
    requires |parts| > 0
    ensures Join([x + parts[0]] + parts[1..], sep) == x + Join(parts, sep)
  {
    var grown := [x + parts[0]] + parts[1..];
    if |parts| > 1 {
      assert grown[1..] == parts[1..];
    }
  }

  /**
   * Python's `s.replace(pat, "")`: every leftmost non-overlapping occurrence of
   * `pat` removed, the rest kept in order.
   */
  function RemoveAll(s: string, pat: string): (r: string)
    requires |pat| > 0
    ensures |r| <= |s|
    decreases |s|
  {
    if |s| < |pat| then s
    else if s[..|pat|] == pat then RemoveAll(s[|pat|..], pat)
    else [s[0]] + RemoveAll(s[1..], pat)
  }

  /** `replace(pat, "")` agrees with `"".join(s.split(pat))`, the reference definition. */
  lemma {:induction false} RemoveAllIsJoinOfSplit(s: string, pat: string)
    requires |pat| > 0
    ensures RemoveAll(s, pat) == Join(Split(s, pat), "")
    decreases |s|
  {
    if |s| < |pat| {
    } else if s[..|pat|] == pat {
      RemoveAllIsJoinOfSplit(s[|pat|..], pat);
      var rest := Split(s[|pat|..], pat);
      assert Split(s, pat) == [""] + rest;
      assert ([""] + rest)[1..] == rest;
    } else {
      RemoveAllIsJoinOfSplit(s[1..], pat);
      var rest := Split(s[1..], pat);
      var parts := [[s[0]] + rest[0]] + rest[1..];
      assert Split(s, pat) == parts;
      assert parts[1..] == rest[1..];
    }
  }

  /** A string in which no character starts `pat` is left unchanged by `RemoveAll`. */
  lemma {:induction false} RemoveAllAbsent(s: string, pat: string)
    requires |pat| > 0
    requires Lacks(s, pat[0])
    ensures RemoveAll(s, pat) == s
    decreases |s|
  {
    if |s| >= |pat| {
      assert s[..|pat|][0] != pat[0];
      RemoveAllAbsent(s[1..], pat);
    }
  }

  /** Removal distributes over a concatenation whose left part holds no character of `pat`. */
  lemma {:induction false} RemoveAllConcat(a: string, b: string, pat: string)
    requires |pat| > 0
    requires Lacks(a, pat[0])
    ensures RemoveAll(a + b, pat) == a + RemoveAll(b, pat)
    decreases |a|
  {
    if |a| > 0 {
      var s := a + b;
      if |s| >= |pat| {
        assert s[..|pat|][0] == a[0];
        assert s[1..] == a[1..] + b;
        RemoveAllConcat(a[1..], b, pat);
      }
    } else {
      assert a + b == b;
    }
  }

  /** A string in which `pat` does not occur is left unchanged by `RemoveAll`. */
  lemma {:induction false} RemoveAllNoMatch(s: string, pat: string)
    requires |pat| > 0 && NoMatchBefore(s, pat, |s|)
    ensures RemoveAll(s, pat) == s
    decreases |s|
  {
    if |s| >= |pat| {
      assert !MatchAt(s, 0, pat);
      NoMatchInTail(s, pat, |s| - 1);
      RemoveAllNoMatch(s[1..], pat);
    }
  }

  /**
   * A non-empty pattern that shares no character with a non-empty separator
   * occurs in a join only inside one of the parts.
   */
  lemma {:induction false} JoinNoMatch(parts: seq<string>, sep: string, pat: string)
    requires |sep| > 0 && |pat| > 0
    requires forall j, k :: 0 <= j < |sep| && 0 <= k < |pat| ==> sep[j] != pat[k]
    requires forall k :: 0 <= k < |parts| ==> NoMatchBefore(parts[k], pat, |parts[k]|)
    ensures NoMatchBefore(Join(parts, sep), pat, |Join(parts, sep)|)
    decreases |parts|
  {
    if |parts| > 1 {
      JoinNoMatch(parts[1..], sep, pat);
      var a := parts[0];
      var b := Join(parts[1..], sep);
      var s := a + sep + b;
      assert NoMatchBefore(a, pat, |a|);
      forall i | 0 <= i < |s|
        ensures !MatchAt(s, i, pat)
      {
        if i + |pat| <= |a| {
          assert s[i..i + |pat|] == a[i..i + |pat|];
          assert !MatchAt(a, i, pat);
        } else if i >= |a| + |sep| {
          if i + |pat| <= |s| {
            assert s[i..i + |pat|] == b[i - |a| - |sep|..i - |a| - |sep| + |pat|];
            assert !MatchAt(b, i - |a| - |sep|, pat);
          }
        } else {
          var p := if i >= |a| then i else |a|;
          assert s[p] == sep[p - |a|];
          MismatchAt(s, i, pat, p - i);
        }
      }
    }
  }

  /** A join starts with its first part. */
  lemma JoinFirst(parts: seq<string>, sep: string)
    requires |parts| > 0
    ensures |Join(parts, sep)| >= |parts[0]| && Join(parts, sep)[..|parts[0]|] == parts[0]
  {
    if |parts| > 1 {
      assert (parts[0] + sep + Join(parts[1..], sep))[..|parts[0]|] == parts[0];
    }
  }

  /** A join ends with its last part. */
  lemma {:induction false} JoinLast(parts: seq<string>, sep: string)
    requires |parts| > 0
    ensures var j := Join(parts, sep); var last := parts[|parts| - 1];
            |j| >= |last| && j[|j| - |last|..] == last
    decreases |parts|
  {
    if |parts| > 1 {
      JoinLast(parts[1..], sep);
      var rest := Join(parts[1..], sep);
      var j := parts[0] + sep + rest;
      var last := parts[|parts| - 1];
      assert j[|j| - |last|..] == rest[|rest| - |last|..];
    }
  }

  /** A string with no occurrence of `sep` is one piece. */
  lemma {:induction false} SplitNoMatch(s: string, sep: string)
    requires |sep| > 0
    requires NoMatchBefore(s, sep, |s|)
    ensures Split(s, sep) == [s]
    decreases |s|
  {
    if |s| >= |sep| {
      assert !MatchAt(s, 0, sep);
      assert |s| > 0;
      NoMatchInTail(s, sep, |s| - 1);
      SplitNoMatch(s[1..], sep);
      assert s[..|sep|] != sep;
      assert [s[0]] + s[1..] == s;
    }
  }

  /** The first piece of a split runs up to the leftmost occurrence of the separator. */
  lemma {:induction false} SplitAt(s: string, sep: string, k: nat)
    requires |sep| > 0
    requires MatchAt(s, k, sep) && NoMatchBefore(s, sep, k)
    ensures Split(s, sep) == [s[..k]] + Split(s[k + |sep|..], sep)
    decreases k
  {
    if k > 0 {
      assert !MatchAt(s, 0, sep);
      MatchInTail(s, k - 1, sep);
      NoMatchInTail(s, sep, k - 1);
      SplitAt(s[1..], sep, k - 1);
      assert s[1..][k - 1 + |sep|..] == s[k + |sep|..];
      assert [s[0]] + s[1..][..k - 1] == s[..k];
    }
  }

  /** When no occurrence of the separator starts before `k`, the first piece keeps `s[..k]`. */
  lemma {:induction false} SplitFirstKeepsPrefix(s: string, sep: string, k: nat)
    requires |sep| > 0
    requires k <= |s| && NoMatchBefore(s, sep, k)
    ensures |Split(s, sep)[0]| >= k && Split(s, sep)[0][..k] == s[..k]
    decreases k
  {
    if k > 0 && |s| >= |sep| {
      assert !MatchAt(s, 0, sep);
      NoMatchInTail(s, sep, k - 1);
      SplitFirstKeepsPrefix(s[1..], sep, k - 1);
      var rest := Split(s[1..], sep);
      assert Split(s, sep)[0] == [s[0]] + rest[0];
      assert ([s[0]] + rest[0])[..k] == [s[0]] + rest[0][..k - 1];
      assert s[..k] == [s[0]] + s[1..][..k - 1];
    }
  }

  /** Splitting on one character that the left part does not contain cuts right after that part. */
  lemma SplitOnChar(a: string, c: char, b: string)
    requires Lacks(a, c)
    ensures Split(a + [c] + b, [c]) == [a] + Split(b, [c])
  {
    var s := a + [c] + b;
    forall i | 0 <= i < |a| ensures !MatchAt(s, i, [c]) {
      assert s[i..i + 1] == [a[i]];
    }
    assert s[|a|..|a| + 1] == [c];
    SplitAt(s, [c], |a|);
    assert s[..|a|] == a;
    assert s[|a| + 1..] == b;
  }

  /** A string that neither starts nor ends with white space is its own `strip()`. */
  lemma StripUnchanged(s: string)
    requires |s| > 0 && !IsSpace(s[0]) && !IsSpace(s[|s| - 1])
    ensures Strip(s) == s
  {
    assert TrimLeft(s, IsSpace) == s;
  }

  /** One leading space before a non-space is all that `strip()` removes from such a string. */
  lemma StripOneLeadingSpace(s: string)
    requires |s| > 1 && IsSpace(s[0]) && !IsSpace(s[1]) && !IsSpace(s[|s| - 1])
    ensures Strip(s) == s[1..]
  {
    assert TrimLeft(s, IsSpace) == s[1..];
    StripUnchanged(s[1..]);
  }

  /** A string of white space only strips to the empty string. */
  lemma StripBlank(s: string)
    requires forall i :: 0 <= i < |s| ==> IsSpace(s[i])
    ensures Strip(s) == ""
  {
    TrimLeftSpec(s, IsSpace);
  }

  /**
   * `strip()` of a string that starts with a non-space and has another
   * non-space at index `k` keeps everything up to and including index `k`.
   */
  lemma StripKeepsPrefix(s: string, k: nat)
    requires k < |s| && !IsSpace(s[0]) && !IsSpace(s[k])
    ensures |Strip(s)| > k && Strip(s)[..k + 1] == s[..k + 1]
  {
    assert TrimLeft(s, IsSpace) == s;
    TrimRightSpec(s, IsSpace);
  }

  /** The decimal digit for `d`. */
  function DigitChar(d: nat): (c: char)
    requires d < 10
    ensures IsDigit(c) && c as int - '0' as int == d
  {
    (d + '0' as int) as char
  }

  /** Python's `str(n)` and `f"{n}"` for a natural number: its decimal digits, without leading zeros. */
  function NatToString(n: nat): (s: string)
    ensures |s| > 0 && forall i :: 0 <= i < |s| ==> IsDigit(s[i])
    ensures |s| > 1 ==> s[0] != '0'
  {
    if n < 10 then [DigitChar(n)] else NatToString(n / 10) + [DigitChar(n % 10)]
  }

  /** The value of a string of decimal digits. */
  function DigitsValue(s: string): nat
    requires forall i :: 0 <= i < |s| ==> IsDigit(s[i])
  {
    if s == [] then 0
    else
      var last := s[|s| - 1];
      assert IsDigit(last);
      DigitsValue(s[..|s| - 1]) * 10 + (last as int - '0' as int)
  }

  /** Reading the rendering back gives the number: the rendering is injective. */
  lemma {:induction false} NatToStringRoundTrip(n: nat)
    ensures DigitsValue(NatToString(n)) == n
  {
    if n >= 10 {
      NatToStringRoundTrip(n / 10);
      var s := NatToString(n);
      assert s[..|s| - 1] == NatToString(n / 10);
    }
  }

  lemma NatToStringInjective(a: nat, b: nat)
    requires NatToString(a) == NatToString(b)
    ensures a == b
  {
    NatToStringRoundTrip(a);
    NatToStringRoundTrip(b);
  }
}
