/** The regular expressions of lib/project-parser.ts, each as a scanner. A function `XAt(s, i)`
    says what the pattern matches when a match is attempted at start position `i`, with the
    choice JavaScript's backtracking matcher makes there; `String.prototype.match` (no `g` flag)
    then takes the leftmost start at which the attempt succeeds (`Search.FindFirst`). */
module Patterns {
  import opened Wrappers
  import opened Text
  import opened Search

  predicate AllSpace(s: String, a: nat, b: nat)
    requires a <= b <= |s|
  {
    forall k :: a <= k < b ==> IsSpace(s[k])
  }

  // ---------------------------------------------------------------------------------------
  // `X+([^\n]+)`: a greedy run of a class followed by the rest of a line.

  /** `p` is a place where the run `s[q..p]` of `P` can stop so that `[^\n]+` matches next. */
  predicate RunThenLineSplit(s: String, q: nat, P: char -> bool, p: nat) {
    q < p < |s| && (forall k :: q <= k < p ==> P(s[k])) && s[p] != '\n'
  }

  /** `X+([^\n]+)` with `X` the class `P`, attempted at `q`: where the capture starts. The greedy
      `X+` backs off from its longest run until a non-newline character follows, so the result
      is the LARGEST viable split. */
  function RunThenLine(s: String, q: nat, P: char -> bool): (r: Option<nat>)
    requires q <= |s|
    ensures r.Some? ==> RunThenLineSplit(s, q, P, r.value)
    ensures r.Some? ==> forall p: nat :: r.value < p ==> !RunThenLineSplit(s, q, P, p)
    ensures r.None? ==> forall p: nat :: !RunThenLineSplit(s, q, P, p)
  {
    var e := RunEnd(s, q, P);
    var ok := (p: nat) => p < |s| && s[p] != '\n';
    var r := LastWhere(q + 1, e, ok);
    forall p: nat | RunThenLineSplit(s, q, P, p) ensures p <= e && ok(p) {
    }
    forall p: nat | q + 1 <= p <= e && ok(p) ensures RunThenLineSplit(s, q, P, p) {
    }
    r
  }

  /** The text a `([^\n]+)` capture starting at `p` takes: the rest of that line. */
  function LineFrom(s: String, p: nat): (line: String)
    requires p <= |s|
    ensures forall c :: c in line ==> c != '\n'
    ensures LiteralAt(s, p, line)
    ensures p + |line| == |s| || s[p + |line|] == '\n'
    ensures MaximalRun(s, p, line, NotNewline)
  {
    s[p..LineEnd(s, p)]
  }

  // ---------------------------------------------------------------------------------------
  // Project name: /"name"\s*:\s*["']([^"']+)["']/i, /#\s+([^\n]+)/ and /([^-]+)/

  predicate IsQuote(c: char) { c == '"' || c == '\'' }

  predicate NotQuote(c: char) { !IsQuote(c) }

  /** The shape of a manifest name field starting at `i`: `"name"`, spaces, `:`, spaces, a
      quote at `k`, the name `s[k+1..m]` and a closing quote at `m`. */
  predicate ManifestNameShape(s: String, i: nat, k: nat, m: nat) {
    && LiteralAtIgnoreCase(s, i, "\"name\"")
    && i + 6 < k && k + 1 < m < |s|
    && (exists j :: i + 6 <= j < k && AllSpace(s, i + 6, j) && s[j] == ':' && AllSpace(s, j + 1, k))
    && IsQuote(s[k]) && IsQuote(s[m])
    && forall t :: k < t < m ==> NotQuote(s[t])
  }

  /** `/"name"\s*:\s*["']([^"']+)["']/i` attempted at `i`: the captured name. */
  function ManifestNameAt(s: String, i: nat): (r: Option<String>)
    ensures r.Some? ==> |r.value| > 0 && forall c :: c in r.value ==> NotQuote(c)
    ensures r.Some? ==> exists k: nat, m: nat :: ManifestNameShape(s, i, k, m) && r.value == s[k + 1..m]
  {
    if LiteralAtIgnoreCase(s, i, "\"name\"") then
      var j := SkipSpaces(s, i + 6);
      if j < |s| && s[j] == ':' then
        var k := SkipSpaces(s, j + 1);
        if k < |s| && IsQuote(s[k]) then
          var m := RunEnd(s, k + 1, NotQuote);
          if k + 1 < m < |s| then
            assert ManifestNameShape(s, i, k, m);
            Some(s[k + 1..m])
          else None
        else None
      else None
    else None
  }

  /** The manifest-name pattern matches at `i` exactly when the text there has its shape, and
      then it captures the quoted name. */
  lemma ManifestNameAtExact(s: String, i: nat, k: nat, m: nat)
    requires ManifestNameShape(s, i, k, m)
    ensures ManifestNameAt(s, i) == Some(s[k + 1..m])
  {
    var j :| i + 6 <= j < k && AllSpace(s, i + 6, j) && s[j] == ':' && AllSpace(s, j + 1, k);
    RunEndUnique(s, i + 6, IsSpace, j);
    RunEndUnique(s, j + 1, IsSpace, k);
    RunEndUnique(s, k + 1, NotQuote, m);
    ManifestNameAtRuns(s, i, k, m);
  }

  lemma ManifestNameAtRuns(s: String, i: nat, k: nat, m: nat)
    requires ManifestNameShape(s, i, k, m)
    requires SkipSpaces(s, i + 6) < |s| && s[SkipSpaces(s, i + 6)] == ':'
    requires SkipSpaces(s, SkipSpaces(s, i + 6) + 1) == k
    requires RunEnd(s, k + 1, NotQuote) == m
    ensures ManifestNameAt(s, i) == Some(s[k + 1..m])
  {
  }

  /** `#\s+` at `i` can stop at `p`, where `([^\n]+)` begins. */
  predicate HeadingSplit(s: String, i: nat, p: nat) {
    i < |s| && s[i] == '#' && RunThenLineSplit(s, i + 1, IsSpace, p)
  }

  /** `/#\s+([^\n]+)/` attempted at `i`: where the title capture starts. Any `#` followed by
      whitespace qualifies, so `## Setup` yields a title too. */
  function HeadingAt(s: String, i: nat): (r: Option<nat>)
    ensures r.Some? ==> HeadingSplit(s, i, r.value)
    ensures r.Some? ==> forall p :: r.value < p ==> !HeadingSplit(s, i, p)
    ensures r.None? ==> forall p :: !HeadingSplit(s, i, p)
  {
    if i < |s| && s[i] == '#' then RunThenLine(s, i + 1, IsSpace) else None
  }

  predicate IsHyphen(c: char) { c == '-' }

  predicate NotHyphen(c: char) { c != '-' }

  /** `filename.match(/([^-]+)/)`: the first maximal run of non-hyphen characters, absent
      exactly when the filename consists of hyphens only. */
  function FilenameStem(f: String): (r: Option<String>)
    ensures r.None? <==> forall k :: 0 <= k < |f| ==> f[k] == '-'
    ensures r.Some? ==> |r.value| > 0 && '-' !in r.value
    ensures r.Some? ==> exists a :: StemAt(f, a, r.value)
  {
    var a := RunEnd(f, 0, IsHyphen);
    if a == |f| then None
    else
      var b := RunEnd(f, a, NotHyphen);
      assert StemAt(f, a, f[a..b]);
      Some(f[a..b])
  }

  /** `v` is the run of non-hyphens at `a`, preceded by hyphens only. */
  predicate StemAt(f: String, a: nat, v: String) {
    && a + |v| <= |f| && f[a..a + |v|] == v
    && (forall k :: 0 <= k < a ==> f[k] == '-')
    && (a + |v| == |f| || f[a + |v|] == '-')
  }

  // ---------------------------------------------------------------------------------------
  // GitHub URL: /github\.com[\/:]([^\s\)]+)/i

  predicate IsPathChar(c: char) { !IsSpace(c) && c != ')' }

  /** `github.com` (any case), then `/` or `:`, then at least one path character, at `i`. */
  predicate GitHubMention(s: String, i: nat) {
    LiteralAtIgnoreCase(s, i, "github.com") && i + 11 < |s|
    && (s[i + 10] == '/' || s[i + 10] == ':') && IsPathChar(s[i + 11])
  }

  /** `/github\.com[\/:]([^\s\)]+)/i` attempted at `i`: the path after the host. It matches
      exactly at a GitHub mention, and it captures the whole run of path characters. */
  function GitHubAt(s: String, i: nat): (r: Option<String>)
    ensures r.Some? <==> GitHubMention(s, i)
    ensures r.Some? ==> |r.value| > 0 && MaximalRun(s, i + 11, r.value, IsPathChar)
  {
    if LiteralAtIgnoreCase(s, i, "github.com") && i + 10 < |s| && (s[i + 10] == '/' || s[i + 10] == ':') then
      var m := RunEnd(s, i + 11, IsPathChar);
      if m > i + 11 then Some(s[i + 11..m]) else None
    else None
  }

  // ---------------------------------------------------------------------------------------
  // Technologies: /"dependencies"\s*:\s*\{([^}]+)\}/s, /"([^"]+)":\s*"[^"]+"/g, /^@[^/]+\//,
  // and /(?:tech|stack|built with|technologies?)[\s:]+([^\n]+)/i

  predicate NotCloseBrace(c: char) { c != '}' }

  /** The shape of a dependency block starting at `i`: `name`, spaces, `:`, spaces, `{` at
      `k`, a body `s[k+1..m]` without `}` and the closing `}` at `m`. */
  predicate BlockShape(s: String, i: nat, name: String, k: nat, m: nat) {
    && LiteralAt(s, i, name)
    && i + |name| < k && k + 1 < m < |s|
    && (exists j :: i + |name| <= j < k && AllSpace(s, i + |name|, j) && s[j] == ':' && AllSpace(s, j + 1, k))
    && s[k] == '{' && s[m] == '}'
    && forall t :: k < t < m ==> NotCloseBrace(s[t])
  }

  /** `/"<name>"\s*:\s*\{([^}]+)\}/s` attempted at `i`, `name` given with its quotes: the body
      of the block up to the first `}`. */
  function BlockAt(s: String, i: nat, name: String): (r: Option<String>)
    ensures r.Some? ==> |r.value| > 0 && '}' !in r.value
    ensures r.Some? ==> exists k: nat, m: nat :: BlockShape(s, i, name, k, m) && r.value == s[k + 1..m]
  {
    if LiteralAt(s, i, name) then
      var j := SkipSpaces(s, i + |name|);
      if j < |s| && s[j] == ':' then
        var k := SkipSpaces(s, j + 1);
        if k < |s| && s[k] == '{' then
          var m := RunEnd(s, k + 1, NotCloseBrace);
          if k + 1 < m < |s| then
            assert BlockShape(s, i, name, k, m);
            Some(s[k + 1..m])
          else None
        else None
      else None
    else None
  }

  /** The block pattern matches at `i` exactly when the text there has its shape, and then it
      captures the body. */
  lemma BlockAtExact(s: String, i: nat, name: String, k: nat, m: nat)
    requires BlockShape(s, i, name, k, m)
    ensures BlockAt(s, i, name) == Some(s[k + 1..m])
  {
    var j :| i + |name| <= j < k && AllSpace(s, i + |name|, j) && s[j] == ':' && AllSpace(s, j + 1, k);
    BlockAtColon(s, i, name, j, k, m);
  }

  /** The same, with the position `j` of the colon given. */
  lemma BlockAtColon(s: String, i: nat, name: String, j: nat, k: nat, m: nat)
    requires LiteralAt(s, i, name) && i + |name| <= j < k && k + 1 < m < |s|
    requires s[j] == ':' && s[k] == '{' && s[m] == '}'
    requires AllSpace(s, i + |name|, j) && AllSpace(s, j + 1, k)
    requires forall t :: k < t < m ==> NotCloseBrace(s[t])
    ensures BlockAt(s, i, name) == Some(s[k + 1..m])
  {
    RunEndUnique(s, i + |name|, IsSpace, j);
    RunEndUnique(s, j + 1, IsSpace, k);
    RunEndUnique(s, k + 1, NotCloseBrace, m);
    BlockAtRuns(s, i, name, j, k, m);
  }

  lemma BlockAtRuns(s: String, i: nat, name: String, j: nat, k: nat, m: nat)
    requires LiteralAt(s, i, name) && i + |name| <= j < k && k + 1 < m < |s|
    requires SkipSpaces(s, i + |name|) == j && s[j] == ':'
    requires SkipSpaces(s, j + 1) == k && s[k] == '{'
    requires RunEnd(s, k + 1, NotCloseBrace) == m
    ensures BlockAt(s, i, name) == Some(s[k + 1..m])
  {
  }

  predicate NotDoubleQuote(c: char) { c != '"' }

  /** `/"([^"]+)":\s*"[^"]+"/` attempted at `p` of a block body: the key and the position just
      after the matched entry. */
  function EntryAt(b: String, p: nat): (r: Option<(String, nat)>)
    ensures r.Some? ==> p < r.value.1 <= |b|
    ensures r.Some? ==> |r.value.0| > 0 && '"' !in r.value.0
    ensures r.Some? ==> exists m: nat, j: nat, m2: nat :: EntryShape(b, p, m, j, m2) && r.value == (b[p + 1..m], m2 + 1)
  {
    if p < |b| && b[p] == '"' then
      var m := RunEnd(b, p + 1, NotDoubleQuote);
      if p + 1 < m && m + 1 < |b| && b[m + 1] == ':' then
        var j := SkipSpaces(b, m + 2);
        if j < |b| && b[j] == '"' then
          var m2 := RunEnd(b, j + 1, NotDoubleQuote);
          if j + 1 < m2 < |b| then
            assert EntryShape(b, p, m, j, m2);
            Some((b[p + 1..m], m2 + 1))
          else None
        else None
      else None
    else None
  }

  /** The shape of an entry starting at `p`: the quoted key `b[p+1..m]`, `:`, spaces, and a
      quoted non-empty value `b[j+1..m2]`. */
  predicate EntryShape(b: String, p: nat, m: nat, j: nat, m2: nat) {
    && p + 1 < m && m + 2 <= j && j + 1 < m2 < |b|
    && b[p] == '"' && (forall t :: p < t < m ==> NotDoubleQuote(b[t])) && b[m] == '"' && b[m + 1] == ':'
    && AllSpace(b, m + 2, j)
    && b[j] == '"' && (forall t :: j < t < m2 ==> NotDoubleQuote(b[t])) && b[m2] == '"'
  }

  /** The entry pattern matches at `p` exactly when the text there has its shape, and then it
      captures the key and the match ends after the value's closing quote. */
  lemma EntryAtExact(b: String, p: nat, m: nat, j: nat, m2: nat)
    requires EntryShape(b, p, m, j, m2)
    ensures EntryAt(b, p) == Some((b[p + 1..m], m2 + 1))
  {
    assert RunEnd(b, p + 1, NotDoubleQuote) == m;
    assert SkipSpaces(b, m + 2) == j;
    assert RunEnd(b, j + 1, NotDoubleQuote) == m2;
  }

  /** `body.match(/"([^"]+)":\s*"[^"]+"/g)` from position `p`, each match reduced to its key
      (`match.match(/"([^"]+)":/)[1]`): a global scan, which takes the leftmost entry and
      resumes after it. */
  function EntryKeys(b: String, p: nat): (keys: seq<String>)
    requires p <= |b|
    ensures forall k :: k in keys ==> |k| > 0 && '"' !in k
    ensures keys == [] <==> forall q :: p <= q < |b| ==> EntryAt(b, q).None?
  {
    assert forall q: nat :: p <= q < |b| && EntryAt(b, q).Some? ==> q < EntryAt(b, q).value.1 <= |b|;
    ScanAll(|b|, EntryAttempt(b), p)
  }

  /** Every entry is found, in order: the first key is that of the leftmost entry `q` at or
      after `p`, and the rest are the keys found from the end of that entry on. */
  lemma EntryKeysLeftmost(b: String, p: nat, q: nat)
    requires p <= q < |b| && EntryAt(b, q).Some?
    requires forall q' :: p <= q' < q ==> EntryAt(b, q').None?
    ensures EntryKeys(b, p) == [EntryAt(b, q).value.0] + EntryKeys(b, EntryAt(b, q).value.1)
  {
    var at := EntryAttempt(b);
    assert forall q: nat :: p <= q < |b| && at(q).Some? ==> q < at(q).value.1 <= |b|;
    ScanAllStep(|b|, at, p, q);
  }

  /** The entry pattern as an attempt function for a global scan. */
  function EntryAttempt(b: String): (at: nat -> Option<(String, nat)>)
    ensures forall q: nat :: at(q) == EntryAt(b, q)
  {
    (q: nat) => EntryAt(b, q)
  }

  predicate NotSlash(c: char) { c != '/' }

  /** `dep.replace(/^@[^/]+\//, "")`: drop an `@scope/` prefix with a non-empty scope. */
  function StripScope(dep: String): (r: String)
    ensures |r| <= |dep| && r == dep[|dep| - |r|..]
    ensures HasScope(dep) ==> |r| < |dep| - 2 && dep[|dep| - |r| - 1] == '/'
                              && forall k :: 0 < k < |dep| - |r| - 1 ==> dep[k] != '/'
    ensures !HasScope(dep) ==> r == dep
  {
    if |dep| > 1 && dep[0] == '@' && dep[1] != '/' then
      var m := RunEnd(dep, 1, NotSlash);
      if m < |dep| then dep[m + 1..] else dep
    else dep
  }

  /** `dep` starts with `@`, a non-empty scope and a `/`. */
  predicate HasScope(dep: String) {
    |dep| > 1 && dep[0] == '@' && dep[1] != '/' && '/' in dep
  }

  predicate IsSpaceOrColon(c: char) { IsSpace(c) || c == ':' }

  /** `(?:tech|stack|built with|technologies?)[\s:]+([^\n]+)` with the `i` flag, attempted at
      `i`: where the captured list starts. The alternatives are tried in source order, so a
      keyword that is followed by no `[\s:]` run gives way to the next one. */
  function TechLineAt(s: String, i: nat): (r: Option<nat>)
    ensures r.Some? ==> i < r.value < |s| && s[r.value] != '\n'
    ensures r.Some? ==> exists j :: 0 <= j < |TechKeywords| && Keyword(s, i, TechKeywords[j]) == r
                                    && forall j' :: 0 <= j' < j ==> Keyword(s, i, TechKeywords[j']).None?
    ensures r.None? ==> forall j :: 0 <= j < |TechKeywords| ==> Keyword(s, i, TechKeywords[j]).None?
  {
    FirstKeyword(s, i, TechKeywords)
  }

  /** The alternatives of `(?:tech|stack|built with|technologies?)`, in the order they are
      tried; the greedy `s?` tries the plural first. */
  const TechKeywords: seq<String> := ["tech", "stack", "built with", "technologies", "technologie"]

  /** The first keyword of `kws` with which the pattern matches at `i`, and its capture start. */
  function FirstKeyword(s: String, i: nat, kws: seq<String>): (r: Option<nat>)
    ensures r.Some? ==> i < r.value < |s| && s[r.value] != '\n'
    ensures r.Some? ==> exists j :: 0 <= j < |kws| && Keyword(s, i, kws[j]) == r
                                    && forall j' :: 0 <= j' < j ==> Keyword(s, i, kws[j']).None?
    ensures r.None? ==> forall j :: 0 <= j < |kws| ==> Keyword(s, i, kws[j]).None?
    decreases |kws|
  {
    if |kws| == 0 then None
    else
      var r := Keyword(s, i, kws[0]).Or(FirstKeyword(s, i, kws[1..]));
      assert forall j :: 0 < j < |kws| ==> kws[j] == kws[1..][j - 1];
      FirstKeywordShift(s, i, kws, FirstKeyword(s, i, kws[1..]));
      r
  }

  /** A keyword found first among `kws[1..]` is found first among `kws` once `kws[0]` fails. */
  lemma FirstKeywordShift(s: String, i: nat, kws: seq<String>, r: Option<nat>)
    requires |kws| > 0
    requires r.Some? ==> exists j :: 0 <= j < |kws[1..]| && Keyword(s, i, kws[1..][j]) == r
                                     && forall j' :: 0 <= j' < j ==> Keyword(s, i, kws[1..][j']).None?
    ensures Keyword(s, i, kws[0]).None? && r.Some?
            ==> exists j :: 0 <= j < |kws| && Keyword(s, i, kws[j]) == r
                            && forall j' :: 0 <= j' < j ==> Keyword(s, i, kws[j']).None?
  {
    if Keyword(s, i, kws[0]).None? && r.Some? {
      var j :| 0 <= j < |kws[1..]| && Keyword(s, i, kws[1..][j]) == r
               && forall j' :: 0 <= j' < j ==> Keyword(s, i, kws[1..][j']).None?;
      assert Keyword(s, i, kws[j + 1]) == r;
      forall j' | 0 <= j' < j + 1 ensures Keyword(s, i, kws[j']).None? {
        if j' > 0 { assert kws[j'] == kws[1..][j' - 1]; }
      }
    }
  }

  /** `<kw>[\s:]+([^\n]+)` (keyword in any case) attempted at `i`: where the capture starts. The
      greedy `[\s:]+` backs off from its longest run, so this is the LARGEST viable split. */
  function Keyword(s: String, i: nat, kw: String): (r: Option<nat>)
    ensures r.Some? ==> KeywordSplit(s, i, kw, r.value)
    ensures r.Some? ==> forall p: nat :: r.value < p ==> !KeywordSplit(s, i, kw, p)
    ensures r.None? ==> forall p: nat :: !KeywordSplit(s, i, kw, p)
  {
    if LiteralAtIgnoreCase(s, i, kw) then RunThenLine(s, i + |kw|, IsSpaceOrColon) else None
  }

  /** The keyword `kw` (any case) is at `i` and `[\s:]+` can run from its end to `p`, where
      `([^\n]+)` begins. */
  predicate KeywordSplit(s: String, i: nat, kw: String, p: nat) {
    LiteralAtIgnoreCase(s, i, kw) && RunThenLineSplit(s, i + |kw|, IsSpaceOrColon, p)
  }

  // ---------------------------------------------------------------------------------------
  // Features: /##?\s*features?[\s\S]*?(?=##|$)/i, /##?\s*core features?[\s\S]*?(?=##|$)/i and
  // the bullet scan /[-*]\s*(.+)/g with /[-*]\s*/ removed from each match.

  /** `(?=##|$)` searched lazily from `k`: the first `##` at or after `k`, else the end. */
  function SectionEnd(s: String, k: nat): (j: nat)
    requires k <= |s|
    ensures k <= j <= |s|
    ensures j < |s| ==> LiteralAt(s, j, "##")
    ensures forall q :: k <= q < j ==> !LiteralAt(s, q, "##")
    decreases |s| - k
  {
    if k == |s| then |s|
    else if LiteralAt(s, k, "##") then k
    else SectionEnd(s, k + 1)
  }

  /** Where the keyword starts after `##?\s*` at `i` (a second `#` is taken when present). */
  function AfterHashes(s: String, i: nat): (k: nat)
    requires i < |s|
    ensures var h := if i + 1 < |s| && s[i + 1] == '#' then i + 2 else i + 1;
            && h <= k <= |s| && AllSpace(s, h, k) && (k == |s| || !IsSpace(s[k]))
  {
    SkipSpaces(s, if i + 1 < |s| && s[i + 1] == '#' then i + 2 else i + 1)
  }

  /** `/##?\s*<kw>s?[\s\S]*?(?=##|$)/i` attempted at `i`: the end of the section that starts at
      `i`, which runs up to the next `##` or the end of the text. */
  function SectionAt(s: String, i: nat, kw: String): (r: Option<nat>)
    ensures r.Some? <==> i < |s| && s[i] == '#' && LiteralAtIgnoreCase(s, AfterHashes(s, i), kw)
    ensures r.Some? ==> var e := AfterKeyword(s, AfterHashes(s, i) + |kw|);
                        && e <= r.value <= |s|
                        && (r.value < |s| ==> LiteralAt(s, r.value, "##"))
                        && forall q :: e <= q < r.value ==> !LiteralAt(s, q, "##")
  {
    if i < |s| && s[i] == '#' then
      var k := AfterHashes(s, i);
      if LiteralAtIgnoreCase(s, k, kw) then
        Some(SectionEnd(s, AfterKeyword(s, k + |kw|)))
      else None
    else None
  }

  /** After the keyword ending at `e`: past the optional `s` (any case). */
  function AfterKeyword(s: String, e: nat): (e': nat)
    requires e <= |s|
    ensures e' == if e < |s| && ToUpper(s[e]) == 'S' then e + 1 else e
  {
    if e < |s| && ToUpper(s[e]) == 'S' then e + 1 else e
  }

  predicate IsBulletMark(c: char) { c == '-' || c == '*' }

  predicate NotLineTerminator(c: char) { !IsLineTerminator(c) }

  /** `[-*]\s*` at `q` can stop at `b`, where `(.+)` begins. */
  predicate BulletSplit(t: String, q: nat, b: nat) {
    q < b < |t| && IsBulletMark(t[q]) && AllSpace(t, q + 1, b) && NotLineTerminator(t[b])
  }

  /** `/[-*]\s*(.+)/` attempted at `q` of a section `t`: the match with its leading `[-*]\s*`
      removed, and where the match ends. The greedy `\s*` takes every whitespace character it
      can; when only whitespace follows the mark it backs off so that `.+` takes the last
      character that is not a line terminator, and the removal then leaves an empty text. */
  function BulletAt(t: String, q: nat): (r: Option<(String, nat)>)
    ensures r.Some? <==> exists b :: BulletSplit(t, q, b)
    ensures r.Some? ==> q < r.value.1 <= |t| && |r.value.0| <= r.value.1
    ensures r.Some? ==> forall c :: c in r.value.0 ==> NotLineTerminator(c)
    ensures r.Some? ==> LiteralAt(t, r.value.1 - |r.value.0|, r.value.0)
                        && (r.value.1 == |t| || IsLineTerminator(t[r.value.1]))
                        && (r.value.0 == [] || !IsSpace(r.value.0[0]))
  {
    if q < |t| && IsBulletMark(t[q]) then
      var e := SkipSpaces(t, q + 1);
      if e < |t| then
        var end := RunEnd(t, e, NotLineTerminator);
        assert BulletSplit(t, q, e);
        Some((t[e..end], end))
      else
        var ok := (b: nat) => b < |t| && NotLineTerminator(t[b]);
        match LastWhere(q + 1, |t| - 1, ok)
        case Some(b) =>
          assert BulletSplit(t, q, b);
          Some(([], RunEnd(t, b, NotLineTerminator)))
        case None =>
          assert forall b: nat :: !BulletSplit(t, q, b) by {
            forall b: nat ensures !BulletSplit(t, q, b) {
              if q + 1 <= b <= |t| - 1 { assert !ok(b); }
            }
          }
          None
    else None
  }

  /** The bullet pattern as an attempt function for a global scan. */
  function BulletAttempt(t: String): (at: nat -> Option<(String, nat)>)
    ensures forall q: nat :: at(q) == BulletAt(t, q)
  {
    (q: nat) => BulletAt(t, q)
  }

  /** The bullet texts of a section `t` from position `p`: `t.match(/[-*]\s*(.+)/g)`, each match
      with its leading mark and whitespace removed. */
  function BulletTexts(t: String, p: nat): (items: seq<String>)
    requires p <= |t|
    ensures forall x :: x in items ==> forall c :: c in x ==> NotLineTerminator(c)
    ensures items == [] <==> forall q :: p <= q < |t| ==> BulletAt(t, q).None?
  {
    var at := BulletAttempt(t);
    assert forall q: nat :: p <= q < |t| && at(q).Some? ==> q < at(q).value.1 <= |t|;
    var items := ScanAll(|t|, at, p);
    assert forall x :: x in items ==> forall c :: c in x ==> NotLineTerminator(c) by {
      forall x | x in items ensures forall c :: c in x ==> NotLineTerminator(c) {
        var q :| p <= q < |t| && at(q).Some? && at(q).value.0 == x;
        assert BulletAt(t, q).value.0 == x;
      }
    }
    items
  }

  /** Every bullet is found, in order: the first text is that of the leftmost bullet `q` at or
      after `p`, and the rest are found from the end of that bullet's match on. */
  lemma BulletTextsLeftmost(t: String, p: nat, q: nat)
    requires p <= q < |t| && BulletAt(t, q).Some?
    requires forall q' :: p <= q' < q ==> BulletAt(t, q').None?
    ensures BulletTexts(t, p) == [BulletAt(t, q).value.0] + BulletTexts(t, BulletAt(t, q).value.1)
  {
    var at := BulletAttempt(t);
    assert forall q: nat :: p <= q < |t| && at(q).Some? ==> q < at(q).value.1 <= |t|;
    ScanAllStep(|t|, at, p, q);
  }

  // ---------------------------------------------------------------------------------------
  // Description: /##?\s*overview[\s\S]*?\n+([^\n#]+)/i, /#\s+[^\n]+\n+([^\n#]+)/i and
  // /#\s+[^\n]+\n+\n+([^\n]+)/i

  predicate NotNewlineOrHash(c: char) { c != '\n' && c != '#' }

  /** The `[^\n#]+` capture starting at `n`. */
  function UntilHash(s: String, n: nat): (r: String)
    requires n <= |s|
    ensures forall c :: c in r ==> NotNewlineOrHash(c)
    ensures LiteralAt(s, n, r)
    ensures n + |r| == |s| || !NotNewlineOrHash(s[n + |r|])
    ensures MaximalRun(s, n, r, NotNewlineOrHash)
  {
    s[n..RunEnd(s, n, NotNewlineOrHash)]
  }

  /** `\n+` can run from `a` to `n`, where `[^\n#]+` begins. */
  predicate GapSplit(s: String, a: nat, n: nat) {
    a < n < |s| && (forall k :: a <= k < n ==> s[k] == '\n') && NotNewlineOrHash(s[n])
  }

  /** `\n+([^\n#]+)` attempted at `a`: where the capture starts. Backing off the `\n+` would
      leave a newline for the capture, so the only viable split is the whole newline run. */
  function GapAt(s: String, a: nat): (r: Option<nat>)
    ensures r.Some? ==> GapSplit(s, a, r.value)
    ensures r.Some? ==> forall n :: GapSplit(s, a, n) ==> n == r.value
    ensures r.None? ==> forall n :: !GapSplit(s, a, n)
  {
    if a < |s| && s[a] == '\n' then
      var n := NewlinesEnd(s, a);
      if n < |s| && s[n] != '#' then Some(n) else None
    else None
  }

  /** `/##?\s*overview[\s\S]*?\n+([^\n#]+)/i` can match at `i` with its newline run
      starting at `a` and its capture at `n`. */
  predicate OverviewSplit(s: String, i: nat, a: nat, n: nat) {
    && i < |s| && s[i] == '#'
    && LiteralAtIgnoreCase(s, AfterHashes(s, i), "overview")
    && AfterHashes(s, i) + 8 <= a
    && GapSplit(s, a, n)
  }

  /** `/##?\s*overview[\s\S]*?\n+([^\n#]+)/i` attempted at `i`: where the capture starts. The
      lazy gap makes it the first newline run after the keyword that is followed by text
      (`OverviewAtFirstGap`). */
  function OverviewAt(s: String, i: nat): (r: Option<nat>)
    ensures r.Some? ==> r.value < |s| && NotNewlineOrHash(s[r.value])
    ensures r.None? <==> forall a: nat, n: nat :: !OverviewSplit(s, i, a, n)
  {
    if i < |s| && s[i] == '#' then
      var k := AfterHashes(s, i);
      if LiteralAtIgnoreCase(s, k, "overview") then
        var at := (a: nat) => GapAt(s, a);
        match FindFirst(|s|, at, k + 8)
        case Some((a, n)) => assert OverviewSplit(s, i, a, n); Some(n)
        case None =>
          assert forall a: nat, n: nat :: !OverviewSplit(s, i, a, n) by {
            forall a: nat, n: nat ensures !OverviewSplit(s, i, a, n) {
              if k + 8 <= a < |s| { assert at(a).None?; }
            }
          }
          None
      else None
    else None
  }

  /** The capture follows the FIRST newline run after the keyword that text follows. */
  lemma OverviewAtFirstGap(s: String, i: nat, a: nat, n: nat)
    requires OverviewSplit(s, i, a, n)
    requires forall b: nat, m: nat :: b < a ==> !OverviewSplit(s, i, b, m)
    ensures OverviewAt(s, i) == Some(n)
  {
    var k := AfterHashes(s, i);
    var at := (a: nat) => GapAt(s, a);
    forall b: nat | k + 8 <= b < a ensures at(b).None? {
      if at(b).Some? { assert OverviewSplit(s, i, b, at(b).value); }
    }
    assert at(a) == Some(n);
    FindFirstAt(|s|, at, k + 8, a);
    assert FindFirst(|s|, at, k + 8) == Some((a, n));
  }

  /** After a title line whose capture starts at `p`: the end of the newline run following it. */
  function AfterTitleLine(s: String, p: nat): (n: nat)
    requires p <= |s|
    ensures p <= n <= |s|
  {
    var l := LineEnd(s, p);
    NewlinesEnd(s, l)
  }

  /** `[^\n]+\n+` can start at `p` and `([^\n#]+)` can follow it. */
  predicate LineThenText(s: String, p: nat) {
    && p < |s| && s[p] != '\n'
    && LineEnd(s, p) < |s|
    && AfterTitleLine(s, p) < |s| && s[AfterTitleLine(s, p)] != '#'
  }

  /** `[^\n]+\n+\n+` can start at `p` and `([^\n]+)` can follow it. */
  predicate LineThenParagraph(s: String, p: nat) {
    && p < |s| && s[p] != '\n'
    && LineEnd(s, p) < |s|
    && AfterTitleLine(s, p) >= LineEnd(s, p) + 2
    && AfterTitleLine(s, p) < |s|
  }

  /** A way to split `#\s+` at `i` so that the rest of the pattern, `ok`, can follow. */
  predicate TitleSplit(s: String, i: nat, ok: nat -> bool, p: nat) {
    i < |s| && s[i] == '#' && i + 2 <= p <= |s| && AllSpace(s, i + 1, p) && ok(p)
  }

  /** `#\s+` followed by a rest `ok`, attempted at `i`: where the `\s+` stops. The greedy `\s+`
      backs off from its longest run, so the result is the LARGEST viable split. */
  function TitleThen(s: String, i: nat, ok: nat -> bool): (r: Option<nat>)
    ensures r.Some? ==> TitleSplit(s, i, ok, r.value)
    ensures r.Some? ==> forall p :: r.value < p ==> !TitleSplit(s, i, ok, p)
    ensures r.None? ==> forall p :: !TitleSplit(s, i, ok, p)
  {
    if i < |s| && s[i] == '#' then
      var e := SkipSpaces(s, i + 1);
      var r := LastWhere(i + 2, e, ok);
      forall p: nat | TitleSplit(s, i, ok, p) ensures p <= e {
      }
      r
    else None
  }

  /** `#\s+` can run from `i` to `p`. */
  predicate TitleLead(s: String, i: nat, p: nat) {
    i < |s| && s[i] == '#' && i + 2 <= p <= |s| && AllSpace(s, i + 1, p)
  }

  /** `/#\s+[^\n]+\n+([^\n#]+)/` attempted at `i`: where the capture starts. It fails exactly
      when no split of `#\s+` lets the rest follow; otherwise the largest split decides
      (`TitleTextAtLargest`). */
  function TitleTextAt(s: String, i: nat): (r: Option<nat>)
    ensures r.Some? ==> r.value < |s| && NotNewlineOrHash(s[r.value])
    ensures r.None? <==> forall p: nat :: TitleLead(s, i, p) ==> !LineThenText(s, p)
  {
    var ok := (p: nat) => LineThenText(s, p);
    match TitleThen(s, i, ok)
    case Some(p) => assert TitleLead(s, i, p); Some(AfterTitleLine(s, p))
    case None =>
      assert forall p: nat :: TitleLead(s, i, p) ==> !LineThenText(s, p) by {
        forall p: nat | TitleLead(s, i, p) ensures !LineThenText(s, p) { assert !TitleSplit(s, i, ok, p); }
      }
      None
  }

  /** The `\s+` of the title pattern keeps the longest run the rest can follow. */
  lemma TitleTextAtLargest(s: String, i: nat, p: nat)
    requires TitleLead(s, i, p) && LineThenText(s, p)
    requires forall q: nat :: p < q && TitleLead(s, i, q) ==> !LineThenText(s, q)
    ensures TitleTextAt(s, i) == Some(AfterTitleLine(s, p))
  {
    var ok := (p: nat) => LineThenText(s, p);
    assert TitleSplit(s, i, ok, p);
    var r := TitleThen(s, i, ok);
    assert r.Some?;
    assert TitleSplit(s, i, ok, r.value);
    assert r.value == p;
  }

  /** `/#\s+[^\n]+\n+\n+([^\n]+)/` attempted at `i`: where the capture starts. It fails exactly
      when no split of `#\s+` lets the rest follow; otherwise the largest split decides
      (`TitleParagraphAtLargest`). */
  function TitleParagraphAt(s: String, i: nat): (r: Option<nat>)
    ensures r.Some? ==> r.value < |s| && s[r.value] != '\n'
    ensures r.None? <==> forall p: nat :: TitleLead(s, i, p) ==> !LineThenParagraph(s, p)
  {
    var ok := (p: nat) => LineThenParagraph(s, p);
    match TitleThen(s, i, ok)
    case Some(p) => assert TitleLead(s, i, p); Some(AfterTitleLine(s, p))
    case None =>
      assert forall p: nat :: TitleLead(s, i, p) ==> !LineThenParagraph(s, p) by {
        forall p: nat | TitleLead(s, i, p) ensures !LineThenParagraph(s, p) { assert !TitleSplit(s, i, ok, p); }
      }
      None
  }

  /** The `\s+` of the paragraph pattern keeps the longest run the rest can follow. */
  lemma TitleParagraphAtLargest(s: String, i: nat, p: nat)
    requires TitleLead(s, i, p) && LineThenParagraph(s, p)
    requires forall q: nat :: p < q && TitleLead(s, i, q) ==> !LineThenParagraph(s, q)
    ensures TitleParagraphAt(s, i) == Some(AfterTitleLine(s, p))
  {
    var ok := (p: nat) => LineThenParagraph(s, p);
    assert TitleSplit(s, i, ok, p);
    var r := TitleThen(s, i, ok);
    assert r.Some?;
    assert TitleSplit(s, i, ok, r.value);
    assert r.value == p;
  }
}
