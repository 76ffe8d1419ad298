/**
 * String operations the server (.NET) and the client (JavaScript) rely on:
 * the two platforms' whitespace sets, trimming, `IsNullOrWhiteSpace`,
 * `String.Split(char)`, and the ASCII character classes of the password rules.
 */
module Strings {
  import opened Wrappers

  /** `char.IsWhiteSpace` of .NET: the Unicode separators, U+0009..U+000D, U+0085 and U+00A0. */
  predicate IsDotNetWhiteSpace(c: char) {
    var n := c as int;
    (0x09 <= n <= 0x0D) || n == 0x20 || n == 0x85 || n == 0xA0 || n == 0x1680
    || (0x2000 <= n <= 0x200A) || n == 0x2028 || n == 0x2029 || n == 0x202F
    || n == 0x205F || n == 0x3000
  }

  /** ECMAScript WhiteSpace and LineTerminator: what `trim()` strips and what `\s` matches. */
  predicate IsJsWhiteSpace(c: char) {
    var n := c as int;
    n == 0x09 || n == 0x0B || n == 0x0C || n == 0x20 || n == 0xA0 || n == 0xFEFF
    || n == 0x1680 || (0x2000 <= n <= 0x200A) || n == 0x202F || n == 0x205F || n == 0x3000
    || IsJsLineTerminator(c)
  }

  /** ECMAScript LineTerminator: the characters a regular expression's `.` does not match. */
  predicate IsJsLineTerminator(c: char) {
    var n := c as int;
    n == 0x0A || n == 0x0D || n == 0x2028 || n == 0x2029
  }

  /** Every character of `s` satisfies `isWs` (true of the empty string). */
  predicate AllWhiteSpace(s: string, isWs: char -> bool) {
    forall k :: 0 <= k < |s| ==> isWs(s[k])
  }

  /** `string.IsNullOrWhiteSpace` of .NET. */
  predicate IsNullOrWhiteSpace(s: Option<string>) {
    s.None? || AllWhiteSpace(s.value, IsDotNetWhiteSpace)
  }

  /** The number of leading characters of `s` that satisfy `isWs`. */
  function LeadingCount(s: string, isWs: char -> bool): (n: nat)
    ensures n <= |s|
  {
    if s == [] || !isWs(s[0]) then 0 else 1 + LeadingCount(s[1..], isWs)
  }

  /** `LeadingCount` counts exactly the leading run of `isWs` characters. */
  lemma {:induction false} LeadingCountSpec(s: string, isWs: char -> bool)
    ensures AllWhiteSpace(s[..LeadingCount(s, isWs)], isWs)
    ensures LeadingCount(s, isWs) < |s| ==> !isWs(s[LeadingCount(s, isWs)])
  {
    if s != [] && isWs(s[0]) {
      LeadingCountSpec(s[1..], isWs);
      var n := LeadingCount(s, isWs);
      assert forall k :: 1 <= k < n ==> s[k] == s[1..][k - 1];
    }
  }

  /** The number of trailing characters of `s` that satisfy `isWs`. */
  function TrailingCount(s: string, isWs: char -> bool): (n: nat)
    ensures n <= |s|
  {
    if s == [] || !isWs(s[|s| - 1]) then 0 else 1 + TrailingCount(s[..|s| - 1], isWs)
  }

  /** `TrailingCount` counts exactly the trailing run of `isWs` characters. */
  lemma {:induction false} TrailingCountSpec(s: string, isWs: char -> bool)
    ensures AllWhiteSpace(s[|s| - TrailingCount(s, isWs)..], isWs)
    ensures TrailingCount(s, isWs) < |s| ==> !isWs(s[|s| - 1 - TrailingCount(s, isWs)])
  {
    if s != [] && isWs(s[|s| - 1]) {
      var r := s[..|s| - 1];
      TrailingCountSpec(r, isWs);
      var n := TrailingCount(s, isWs);
      assert forall k :: |s| - n <= k < |s| - 1 ==> s[k] == r[k];
    }
  }

  /** `t` is `s` with all leading and trailing `isWs` characters removed. */
  ghost predicate IsTrimOf(t: string, s: string, isWs: char -> bool) {
    exists i | 0 <= i <= |s| - |t| ::
      && s[i..i + |t|] == t
      && AllWhiteSpace(s[..i], isWs)
      && AllWhiteSpace(s[i + |t|..], isWs)
      && (t != [] ==> !isWs(t[0]) && !isWs(t[|t| - 1]))
  }

  /** `String.Trim()` (with `IsDotNetWhiteSpace`) and JavaScript's `trim()` (with `IsJsWhiteSpace`). */
  function Trim(s: string, isWs: char -> bool): (t: string)
    ensures |t| <= |s|
  {
    var i := LeadingCount(s, isWs);
    s[i..|s| - TrailingCount(s[i..], isWs)]
  }

  /** `Trim` removes exactly the surrounding whitespace, and leaves nothing only of a blank string. */
  lemma TrimSpec(s: string, isWs: char -> bool)
    ensures IsTrimOf(Trim(s, isWs), s, isWs)
    ensures Trim(s, isWs) == [] <==> AllWhiteSpace(s, isWs)
  {
    LeadingCountSpec(s, isWs);
    TrimMiddle(s, isWs);
    TrimTail(s, isWs);
    TrimEmpty(s, isWs);
  }

  /** The trimmed text sits right after the leading run, and starts and ends with a character that is not `isWs`. */
  lemma TrimMiddle(s: string, isWs: char -> bool)
    ensures var i, t := LeadingCount(s, isWs), Trim(s, isWs);
      && i + |t| <= |s| && s[i..i + |t|] == t
      && (t != [] ==> !isWs(t[0]) && !isWs(t[|t| - 1]))
  {
    var i := LeadingCount(s, isWs);
    var r := s[i..];
    LeadingCountSpec(s, isWs);
    TrimEnds(r, TrailingCount(r, isWs), isWs);
  }

  /** Everything after the trimmed text is whitespace. */
  lemma TrimTail(s: string, isWs: char -> bool)
    ensures var i, t := LeadingCount(s, isWs), Trim(s, isWs);
      i + |t| <= |s| && AllWhiteSpace(s[i + |t|..], isWs)
  {
    var i := LeadingCount(s, isWs);
    var r := s[i..];
    var n := TrailingCount(r, isWs);
    TrailingCountSpec(r, isWs);
    assert s[i + (|r| - n)..] == r[|r| - n..];
  }

  /** Dropping a trailing run of `n` characters leaves a string ending in no `isWs` character. */
  lemma TrimEnds(r: string, n: nat, isWs: char -> bool)
    requires n <= |r| && (r != [] ==> !isWs(r[0]))
    requires n == TrailingCount(r, isWs)
    ensures var t := r[..|r| - n]; t != [] ==> !isWs(t[0]) && !isWs(t[|t| - 1])
  {
    TrailingCountSpec(r, isWs);
  }

  lemma TrimEmpty(s: string, isWs: char -> bool)
    ensures Trim(s, isWs) == [] <==> AllWhiteSpace(s, isWs)
  {
    var i := LeadingCount(s, isWs);
    LeadingCountSpec(s, isWs);
    if AllWhiteSpace(s, isWs) {
      assert i == |s|;
    } else {
      var r := s[i..];
      var n := TrailingCount(r, isWs);
      TrailingCountSpec(r, isWs);
      var k :| 0 <= k < |s| && !isWs(s[k]);
      assert k >= i;
      assert r[k - i] == s[k];
      assert k - i < |r| - n;
    }
  }

  /** Trimming a string that is not blank leaves a string that is not blank. */
  lemma TrimNotBlank(s: string, isWs: char -> bool)
    requires !AllWhiteSpace(s, isWs)
    ensures Trim(s, isWs) != [] && !isWs(Trim(s, isWs)[0])
    ensures !AllWhiteSpace(Trim(s, isWs), isWs)
  {
    TrimSpec(s, isWs);
  }

  /** Every character left by trimming comes from the original string. */
  lemma TrimKeeps(s: string, isWs: char -> bool, c: char)
    requires c in Trim(s, isWs)
    ensures c in s
  {
    var t := Trim(s, isWs);
    var k :| 0 <= k < |t| && t[k] == c;
    assert t[k] == s[LeadingCount(s, isWs) + k];
  }

  /** A string that is its own trim has no whitespace at either end. */
  lemma TrimFixedPoint(s: string, isWs: char -> bool)
    requires s != [] && !isWs(s[0]) && !isWs(s[|s| - 1])
    ensures Trim(s, isWs) == s
  {
    assert s[0..|s|] == s;
  }

  /** The number of occurrences of `c` in `s`. */
  function CountOf(s: string, c: char): (n: nat)
    ensures n == 0 <==> c !in s
    ensures n <= |s|
  {
    if s == [] then 0 else (if s[0] == c then 1 else 0) + CountOf(s[1..], c)
  }

  /** The parts joined again with `sep` between them. */
  function Join(parts: seq<string>, sep: char): string
  {
    if |parts| == 0 then [] else if |parts| == 1 then parts[0]
    else parts[0] + [sep] + Join(parts[1..], sep)
  }

  /**
   * `String.Split(char)` of .NET: the pieces between the occurrences of `sep`,
   * empty pieces included, so there is always one more piece than separators.
   */
  function Split(s: string, sep: char): (parts: seq<string>)
    ensures |parts| == CountOf(s, sep) + 1
    ensures forall k :: 0 <= k < |parts| ==> sep !in parts[k]
    ensures Join(parts, sep) == s
  {
    if s == [] then [[]]
    else
      var rest := Split(s[1..], sep);
      if s[0] == sep then
        SplitAtHead(s, sep, rest);
        [[]] + rest
      else
        SplitInHead(s, sep, rest);
        [[s[0]] + rest[0]] + rest[1..]
  }

  /** The pieces of a string starting with the separator: an empty piece, then the rest's pieces. */
  lemma SplitAtHead(s: string, sep: char, rest: seq<string>)
    requires s != [] && s[0] == sep
    requires |rest| == CountOf(s[1..], sep) + 1
    requires forall k :: 0 <= k < |rest| ==> sep !in rest[k]
    requires Join(rest, sep) == s[1..]
    ensures var parts := [[]] + rest;
      && |parts| == CountOf(s, sep) + 1
      && (forall k :: 0 <= k < |parts| ==> sep !in parts[k])
      && Join(parts, sep) == s
  {
    var parts := [[]] + rest;
    assert parts[1..] == rest;
    assert s == [sep] + s[1..];
  }

  /** The pieces of a string starting with another character: that character joins the first piece. */
  lemma SplitInHead(s: string, sep: char, rest: seq<string>)
    requires s != [] && s[0] != sep
    requires |rest| == CountOf(s[1..], sep) + 1
    requires forall k :: 0 <= k < |rest| ==> sep !in rest[k]
    requires Join(rest, sep) == s[1..]
    ensures var parts := [[s[0]] + rest[0]] + rest[1..];
      && |parts| == CountOf(s, sep) + 1
      && (forall k :: 0 <= k < |parts| ==> sep !in parts[k])
      && Join(parts, sep) == s
  {
    var parts := [[s[0]] + rest[0]] + rest[1..];
    assert forall k :: 1 <= k < |parts| ==> parts[k] == rest[k];
    assert s == [s[0]] + s[1..];
    JoinConsFirst(rest, s[0], sep);
  }

  lemma JoinConsFirst(parts: seq<string>, c: char, sep: char)
    requires |parts| > 0
    ensures Join([[c] + parts[0]] + parts[1..], sep) == [c] + Join(parts, sep)
  {
    var ps := [[c] + parts[0]] + parts[1..];
    if |parts| > 1 {
      assert ps[1..] == parts[1..];
    }
  }

  /** A string that splits into two pieces is those pieces around one separator. */
  lemma SplitTwo(s: string, sep: char)
    requires |Split(s, sep)| == 2
    ensures s == Split(s, sep)[0] + [sep] + Split(s, sep)[1]
  {
    var parts := Split(s, sep);
    assert parts[1..] == [parts[1]];
  }

  /** A string with exactly one separator splits into the two pieces around it. */
  lemma {:induction false} SplitAtSeparator(a: string, b: string, sep: char)
    requires sep !in a && sep !in b
    ensures Split(a + [sep] + b, sep) == [a, b]
  {
    var s := a + [sep] + b;
    if a == [] {
      assert s == [sep] + b && s[1..] == b;
      assert |Split(b, sep)| == 1;
    } else {
      assert s[1..] == a[1..] + [sep] + b;
      SplitAtSeparator(a[1..], b, sep);
      assert [a[0]] + a[1..] == a;
    }
  }

  /** The ASCII character classes `[A-Z]`, `[a-z]`, `[0-9]` and the special set `@$!%*?&`. */
  predicate IsAsciiUpper(c: char) { 'A' <= c <= 'Z' }
  predicate IsAsciiLower(c: char) { 'a' <= c <= 'z' }
  predicate IsAsciiDigit(c: char) { '0' <= c <= '9' }

  const SpecialChars: string := "@$!%*?&"

  predicate IsSpecial(c: char) { c in SpecialChars }

  /** Some character of `s` satisfies `cls`. */
  predicate HasCharWhere(s: string, cls: char -> bool) {
    exists k :: 0 <= k < |s| && cls(s[k])
  }
}
