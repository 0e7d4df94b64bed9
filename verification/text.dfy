/** Character classes and string primitives with the meaning JavaScript gives them:
    the regex classes `\s` and `.`, `String.prototype.trim`, `toUpperCase` (ASCII),
    `split`, `join` and the `i` flag of a regex literal. */
module Text {

  type String = seq<char>

  /** ECMAScript WhiteSpace and LineTerminator code points: what `\s` matches and `trim()` removes. */
  predicate IsSpace(c: char) {
    || c == ' ' || c == '\t' || c == '\n' || c == '\r' || c == '\U{000B}' || c == '\U{000C}'
    || c == '\U{00A0}' || c == '\U{1680}' || ('\U{2000}' <= c <= '\U{200A}')
    || c == '\U{2028}' || c == '\U{2029}' || c == '\U{202F}' || c == '\U{205F}'
    || c == '\U{3000}' || c == '\U{FEFF}'
  }

  /** The characters the regex `.` does not match. */
  predicate IsLineTerminator(c: char) {
    c == '\n' || c == '\r' || c == '\U{2028}' || c == '\U{2029}'
  }

  /** `toUpperCase` on one character, restricted to ASCII letters. */
  function ToUpper(c: char): (u: char)
    ensures 'a' <= c <= 'z' ==> 'A' <= u <= 'Z' && u as int == c as int - 32
    ensures !('a' <= c <= 'z') ==> u == c
  {
    if 'a' <= c <= 'z' then (c as int - 32) as char else c
  }

  /** `s.charAt(0).toUpperCase() + s.slice(1)` */
  function Capitalize(s: String): (r: String)
    ensures |r| == |s|
    ensures |s| > 0 ==> r[0] == ToUpper(s[0]) && r[1..] == s[1..]
    ensures forall k :: 0 < k < |s| ==> r[k] == s[k]
  {
    if |s| == 0 then s else [ToUpper(s[0])] + s[1..]
  }

  /** `lit` occurs in `s` at position `at`, exactly. */
  predicate LiteralAt(s: String, at: nat, lit: String) {
    at + |lit| <= |s| && s[at..at + |lit|] == lit
  }

  /** `lit` occurs in `s` at position `at` under the regex `i` flag (ASCII case folding). */
  predicate LiteralAtIgnoreCase(s: String, at: nat, lit: String) {
    at + |lit| <= |s| && forall k :: 0 <= k < |lit| ==> ToUpper(s[at + k]) == ToUpper(lit[k])
  }

  /** End of the longest run of characters satisfying `P` that starts at `i`:
      what a greedy `[class]*` consumes. */
  function RunEnd(s: String, i: nat, P: char -> bool): (e: nat)
    requires i <= |s|
    ensures i <= e <= |s|
    ensures forall k :: i <= k < e ==> P(s[k])
    ensures e < |s| ==> !P(s[e])
    decreases |s| - i
  {
    if i < |s| && P(s[i]) then RunEnd(s, i + 1, P) else i
  }

  /** A run that ends at a character outside the class (or at the end) is the one `RunEnd`
      finds. */
  lemma {:induction false} RunEndUnique(s: String, i: nat, P: char -> bool, e: nat)
    requires i <= e <= |s|
    requires forall k :: i <= k < e ==> P(s[k])
    requires e < |s| ==> !P(s[e])
    ensures RunEnd(s, i, P) == e
    decreases e - i
  {
    if i < e {
      RunEndUnique(s, i + 1, P, e);
    }
  }

  /** The run of `\s*` starting at `i` ends here. */
  function SkipSpaces(s: String, i: nat): (e: nat)
    requires i <= |s|
    ensures i <= e <= |s|
    ensures forall k :: i <= k < e ==> IsSpace(s[k])
    ensures e < |s| ==> !IsSpace(s[e])
  {
    RunEnd(s, i, IsSpace)
  }

  /** `v` is the longest run of characters satisfying `P` that starts at `n` in `s`: what a
      greedy `[...]+` capture takes there. */
  predicate MaximalRun(s: String, n: nat, v: String, P: char -> bool) {
    && LiteralAt(s, n, v)
    && (forall c :: c in v ==> P(c))
    && (n + |v| == |s| || !P(s[n + |v|]))
  }

  /** A maximal run is the one `RunEnd` finds. */
  lemma MaximalRunEnd(s: String, n: nat, v: String, P: char -> bool)
    requires MaximalRun(s, n, v, P)
    ensures RunEnd(s, n, P) == n + |v| && s[n..n + |v|] == v
  {
    forall k | n <= k < n + |v| ensures P(s[k]) {
      assert s[k] == v[k - n];
    }
    RunEndUnique(s, n, P, n + |v|);
  }

  predicate NotNewline(c: char) { c != '\n' }

  /** The run of `[^\n]*` starting at `i` ends here: at the next `\n` or at the end. */
  function LineEnd(s: String, i: nat): (e: nat)
    requires i <= |s|
    ensures i <= e <= |s|
    ensures forall k :: i <= k < e ==> s[k] != '\n'
    ensures e < |s| ==> s[e] == '\n'
  {
    RunEnd(s, i, NotNewline)
  }

  predicate IsNewline(c: char) { c == '\n' }

  /** The run of `\n*` starting at `i` ends here. */
  function NewlinesEnd(s: String, i: nat): (e: nat)
    requires i <= |s|
    ensures i <= e <= |s|
    ensures forall k :: i <= k < e ==> s[k] == '\n'
    ensures e < |s| ==> s[e] != '\n'
  {
    RunEnd(s, i, IsNewline)
  }

  /** `s` has no whitespace at either end: the shape of every `trim()` result. */
  predicate IsTrimmed(s: String) {
    |s| == 0 || (!IsSpace(s[0]) && !IsSpace(s[|s| - 1]))
  }

  /** The start of the run of `\s*` that ends at `j`, searched no further left than `i`. */
  function SpacesBefore(s: String, i: nat, j: nat): (b: nat)
    requires i <= j <= |s|
    ensures i <= b <= j
    ensures forall k :: b <= k < j ==> IsSpace(s[k])
    ensures b > i ==> !IsSpace(s[b - 1])
    decreases j
  {
    if j > i && IsSpace(s[j - 1]) then SpacesBefore(s, i, j - 1) else j
  }

  /** `s.trim()`: the slice of `s` left after dropping whitespace at both ends. */
  function Trim(s: String): (r: String)
    ensures IsTrimmed(r)
    ensures |r| <= |s|
    ensures var a := SkipSpaces(s, 0);
            && a + |r| <= |s| && r == s[a..a + |r|]
            && (forall k :: 0 <= k < a ==> IsSpace(s[k]))
            && (forall k :: a + |r| <= k < |s| ==> IsSpace(s[k]))
  {
    var a := SkipSpaces(s, 0);
    var b := SpacesBefore(s, a, |s|);
    s[a..b]
  }

  /** Trimming is idempotent: a trimmed string is its own trim. */
  lemma TrimTrimmed(s: String)
    requires IsTrimmed(s)
    ensures Trim(s) == s
  {
  }

  /** `xs.map((x) => x.trim())` */
  function TrimAll(xs: seq<String>): (r: seq<String>)
    ensures |r| == |xs|
    ensures forall k :: 0 <= k < |r| ==> r[k] == Trim(xs[k])
  {
    seq(|xs|, k requires 0 <= k < |xs| => Trim(xs[k]))
  }

  /** `s.split(sep)` where `sep` is a one-character class: the maximal separator-free pieces,
      empty pieces kept, so there is always at least one. */
  function Split(s: String, isSep: char -> bool): (parts: seq<String>)
    ensures |parts| >= 1
    ensures forall k, c :: 0 <= k < |parts| && c in parts[k] ==> !isSep(c)
    decreases |s|
  {
    var i := FirstSep(s, isSep);
    if i == |s| then [s] else [s[..i]] + Split(s[i + 1..], isSep)
  }

  /** Where the first separator is, or the length when there is none. */
  function FirstSep(s: String, isSep: char -> bool): (i: nat)
    ensures i <= |s|
    ensures forall k :: 0 <= k < i ==> !isSep(s[k])
    ensures i < |s| ==> isSep(s[i])
  {
    RunEnd(s, 0, c => !isSep(c))
  }

  /** `[a].concat(xs).join(sep)` for a non-empty `xs`. */
  lemma JoinCons(a: String, xs: seq<String>, sep: String)
    requires |xs| >= 1
    ensures Join([a] + xs, sep) == a + sep + Join(xs, sep)
  {
    assert ([a] + xs)[1..] == xs;
  }

  /** `parts.join(sep)` */
  function Join(parts: seq<String>, sep: String): String {
    if |parts| == 0 then []
    else if |parts| == 1 then parts[0]
    else parts[0] + sep + Join(parts[1..], sep)
  }

  /** Splitting on a single character and joining with that character gives the text back:
      no character is lost or invented by `Split`. */
  lemma {:induction false} SplitJoin(s: String, isSep: char -> bool, d: char)
    requires forall c :: isSep(c) <==> c == d
    ensures Join(Split(s, isSep), [d]) == s
    decreases |s|
  {
    var i := FirstSep(s, isSep);
    if i < |s| {
      var rest := s[i + 1..];
      SplitJoin(rest, isSep, d);
      assert Split(s, isSep) == [s[..i]] + Split(rest, isSep);
      assert s == s[..i] + [d] + rest;
    }
  }
}
