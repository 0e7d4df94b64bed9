/** lib/project-parser.ts: derive a project record from a backend text dump and a frontend
    text dump (READMEs and manifests pasted together). Every step is total: a signal that is
    not found becomes "", [] or a fixed default. */
module ProjectParser {
  import opened Wrappers
  import opened Text
  import opened Seqs
  import opened Search
  import opened Patterns
  import opened Records

  datatype TechStack = TechStack(frontend: String, backend: String, deployment: String, other: String)

  datatype ParsedProjectData = ParsedProjectData(
    title: String,
    description: String,
    longDescription: String,
    tags: seq<String>,
    github: String,
    demo: String,
    features: seq<String>,
    challenges: seq<String>,
    overview: String,
    systemDesign: String,
    additionalDetails: String,
    techStack: TechStack)

  // ---------------------------------------------------------------------------------------
  // Project name

  /** The name captured by the leftmost manifest `"name": "..."` field: none when the field
      occurs nowhere (the leftmost one is `ManifestNameLeftmost`). */
  function ManifestName(s: String): (r: Option<String>)
    ensures r.Some? ==> |r.value| > 0
    ensures r.None? <==> forall i: nat :: i < |s| ==> ManifestNameAt(s, i).None?
  {
    var at := (i: nat) => ManifestNameAt(s, i);
    match FindFirst(|s|, at, 0)
    case Some((_, v)) => Some(v)
    case None =>
      assert forall i: nat :: i < |s| ==> ManifestNameAt(s, i).None? by {
        forall i: nat | i < |s| ensures ManifestNameAt(s, i).None? { assert at(i).None?; }
      }
      None
  }

  /** The name field that counts is the leftmost one. */
  lemma ManifestNameLeftmost(s: String, i: nat)
    requires i < |s| && ManifestNameAt(s, i).Some?
    requires forall j: nat :: j < i ==> ManifestNameAt(s, j).None?
    ensures ManifestName(s) == ManifestNameAt(s, i)
  {
    var at := (i: nat) => ManifestNameAt(s, i);
    FindFirstAt(|s|, at, 0, i);
  }

  /** The line captured by the leftmost `#`-plus-whitespace heading (`HeadingTitleLeftmost`):
      none when there is no heading. */
  function HeadingTitle(s: String): (r: Option<String>)
    ensures r.Some? ==> |r.value| > 0 && '\n' !in r.value
    ensures r.None? <==> forall i: nat :: i < |s| ==> HeadingAt(s, i).None?
  {
    var at := (i: nat) => HeadingAt(s, i);
    match FindFirst(|s|, at, 0)
    case Some((_, p)) => Some(LineFrom(s, p))
    case None =>
      assert forall i: nat :: i < |s| ==> HeadingAt(s, i).None? by {
        forall i: nat | i < |s| ensures HeadingAt(s, i).None? { assert at(i).None?; }
      }
      None
  }

  /** The heading that counts is the leftmost one, and its whole line is the title. */
  lemma HeadingTitleLeftmost(s: String, i: nat)
    requires i < |s| && HeadingAt(s, i).Some?
    requires forall j: nat :: j < i ==> HeadingAt(s, j).None?
    ensures HeadingTitle(s) == Some(LineFrom(s, HeadingAt(s, i).value))
  {
    var at := (i: nat) => HeadingAt(s, i);
    FindFirstAt(|s|, at, 0, i);
  }

  const UntitledProject: String := "Untitled Project"

  /** `extractProjectName`: the manifest name, else a short heading, else the filename's
      leading run, else a fixed default. */
  function ExtractProjectName(content: String, filename: String): (name: String)
    ensures ManifestName(content).Some? ==> name == Capitalize(Trim(ManifestName(content).value))
    ensures ManifestName(content).None? && HeadingTitle(content).Some? && |Trim(HeadingTitle(content).value)| < 50
            ==> name == Trim(HeadingTitle(content).value) && IsTrimmed(name) && |name| < 50 && '\n' !in name
    ensures ManifestName(content).None? && (HeadingTitle(content).None? || |Trim(HeadingTitle(content).value)| >= 50)
            ==> if exists k :: 0 <= k < |filename| && filename[k] != '-'
                then |name| > 0 && '-' !in name && name == Capitalize(FilenameStem(filename).value)
                else name == UntitledProject
  {
    if ManifestName(content).Some? then Capitalize(Trim(ManifestName(content).value))
    else if HeadingTitle(content).Some? && |Trim(HeadingTitle(content).value)| < 50 then
      Trim(HeadingTitle(content).value)
    else match FilenameStem(filename)
      case Some(stem) => Capitalize(stem)
      case None => UntitledProject
  }

  /** With no manifest name and no heading, a file named `campor-backend.txt` names the
      project "Campor". */
  lemma NameFromFilename()
    ensures ExtractProjectName([], "campor-backend.txt") == "Campor"
  {
    var f := "campor-backend.txt";
    assert RunEnd(f, 0, IsHyphen) == 0;
    RunEndUnique(f, 0, NotHyphen, 6);
    assert f[0..6] == "campor";
  }

  // ---------------------------------------------------------------------------------------
  // GitHub URL

  const GitHubPrefix: String := "https://github.com/"

  /** The run of path characters (neither whitespace nor `)`) starting at `p`. */
  function PathRun(s: String, p: nat): String
    requires p <= |s|
  {
    s[p..RunEnd(s, p, IsPathChar)]
  }

  /** `path.replace(/\.git$/, "")` */
  function StripGitSuffix(path: String): (r: String)
    ensures |path| >= 4 && path[|path| - 4..] == ".git" ==> r + ".git" == path
    ensures !(|path| >= 4 && path[|path| - 4..] == ".git") ==> r == path
  {
    if |path| >= 4 && path[|path| - 4..] == ".git" then path[..|path| - 4] else path
  }

  /** A GitHub mention at `i` and none before it. */
  predicate LeftmostMention(s: String, i: nat) {
    GitHubMention(s, i) && forall j: nat :: j < i ==> !GitHubMention(s, j)
  }

  /** `content.match(...)`: the leftmost GitHub mention and its path, or none. */
  function GitHubSearch(s: String): (r: Option<(nat, String)>)
    ensures r.None? ==> forall i: nat :: !GitHubMention(s, i)
    ensures r.Some? ==> LeftmostMention(s, r.value.0) && r.value.0 + 11 <= |s|
                        && r.value.1 == PathRun(s, r.value.0 + 11)
  {
    var r := FindFirst(|s|, (i: nat) => GitHubAt(s, i), 0);
    if r.Some? then GitHubFound(s); r else GitHubNotFound(s); r
  }

  lemma GitHubFound(s: String)
    requires FindFirst(|s|, (i: nat) => GitHubAt(s, i), 0).Some?
    ensures var r := FindFirst(|s|, (i: nat) => GitHubAt(s, i), 0).value;
            LeftmostMention(s, r.0) && r.0 + 11 <= |s| && r.1 == PathRun(s, r.0 + 11)
  {
    var at := (i: nat) => GitHubAt(s, i);
    var r := FindFirst(|s|, at, 0);
    var i, path := r.value.0, r.value.1;
    forall j: nat | j < i ensures !GitHubMention(s, j) { assert at(j).None?; }
    assert GitHubAt(s, i) == Some(path);
    PathAt(s, i, path);
  }

  /** The path the pattern captures at a mention is the run of path characters after it. */
  lemma PathAt(s: String, i: nat, path: String)
    requires GitHubAt(s, i) == Some(path)
    ensures i + 11 <= |s| && path == PathRun(s, i + 11)
  {
    MaximalRunEnd(s, i + 11, path, IsPathChar);
  }

  lemma GitHubNotFound(s: String)
    requires FindFirst(|s|, (i: nat) => GitHubAt(s, i), 0).None?
    ensures forall i: nat :: !GitHubMention(s, i)
  {
    var at := (i: nat) => GitHubAt(s, i);
    forall i: nat ensures !GitHubMention(s, i) {
      if i < |s| { assert at(i).None?; }
    }
  }

  /** There is only one leftmost mention. */
  lemma LeftmostUnique(s: String, i: nat, k: nat)
    requires LeftmostMention(s, i) && LeftmostMention(s, k)
    ensures i == k
  {
  }

  /** `extractGitHubUrl`: empty exactly when the text mentions no GitHub path; otherwise the
      canonical https URL of the leftmost mention, without a trailing `.git`. */
  function ExtractGitHubUrl(s: String): (url: String)
    ensures url == [] <==> forall i: nat :: !GitHubMention(s, i)
    ensures forall i: nat :: LeftmostMention(s, i) ==> url == GitHubPrefix + StripGitSuffix(PathRun(s, i + 11))
  {
    match GitHubSearch(s)
    case Some((k, path)) =>
      forall i: nat | LeftmostMention(s, i) ensures i == k {
        LeftmostUnique(s, i, k);
      }
      GitHubPrefix + StripGitSuffix(path)
    case None => []
  }

  // ---------------------------------------------------------------------------------------
  // Technologies

  predicate IsWordSeparator(c: char) { c == '-' || c == '_' }

  predicate IsListSeparator(c: char) { c == ',' || c == '&' || c == '|' }

  /** Names kept in the technology set: non-empty and shorter than 30 characters. */
  predicate IsTechName(t: String) { 0 < |t| < 30 }

  /** `parts.map((part) => part.charAt(0).toUpperCase() + part.slice(1))` */
  function CapitalizeAll(parts: seq<String>): (r: seq<String>)
    ensures |r| == |parts|
    ensures forall k :: 0 <= k < |r| ==> r[k] == Capitalize(parts[k])
  {
    seq(|parts|, k requires 0 <= k < |parts| => Capitalize(parts[k]))
  }

  /** `r` is `d` in display case: as long as `d`, every separator a space, the first letter of
      each word upper-cased, and every other character unchanged. */
  predicate DisplayCase(d: String, r: String) {
    && |r| == |d|
    && (forall k :: 0 <= k < |d| && IsWordSeparator(d[k]) ==> r[k] == ' ')
    && (forall k :: 0 <= k < |d| && !IsWordSeparator(d[k]) && (k == 0 || IsWordSeparator(d[k - 1]))
          ==> r[k] == ToUpper(d[k]))
    && (forall k :: 0 < k < |d| && !IsWordSeparator(d[k]) && !IsWordSeparator(d[k - 1]) ==> r[k] == d[k])
  }

  /** A dependency key as a display name: scope dropped, split on `-`/`_`, each word
      capitalised, words joined by spaces; character by character, the unscoped key in
      display case. */
  function FormatDependency(dep: String): (r: String)
    ensures DisplayCase(StripScope(dep), r)
  {
    var d := StripScope(dep);
    WordCapsJoin(d);
    WordCapsDisplay(d);
    Join(CapitalizeAll(Split(d, IsWordSeparator)), " ")
  }

  /** The display form of a key, one character at a time (the reference for
      `FormatDependency`). */
  function WordCaps(s: String): (r: String)
    ensures |r| == |s|
  {
    seq(|s|, k requires 0 <= k < |s| => DisplayChar(s, k))
  }

  /** The character at `k` of `s` in display case. */
  function DisplayChar(s: String, k: nat): char
    requires k < |s|
  {
    if IsWordSeparator(s[k]) then ' '
    else if k == 0 || IsWordSeparator(s[k - 1]) then ToUpper(s[k])
    else s[k]
  }

  lemma WordCapsDisplay(s: String)
    ensures DisplayCase(s, WordCaps(s))
  {
  }

  /** Splitting on `-`/`_`, capitalising the words and joining them with spaces changes the
      text one character at a time, as `WordCaps` says. */
  lemma {:induction false} WordCapsJoin(s: String)
    ensures Join(CapitalizeAll(Split(s, IsWordSeparator)), " ") == WordCaps(s)
    decreases |s|
  {
    var i := FirstSep(s, IsWordSeparator);
    if i == |s| {
      assert CapitalizeAll([s]) == [Capitalize(s)];
      WordCapsWhole(s);
    } else {
      var head, rest := s[..i], s[i + 1..];
      var parts := Split(rest, IsWordSeparator);
      assert CapitalizeAll([head] + parts) == [Capitalize(head)] + CapitalizeAll(parts);
      JoinCons(Capitalize(head), CapitalizeAll(parts), " ");
      WordCapsJoin(rest);
      WordCapsSplit(s, i);
    }
  }

  /** A single word is just capitalised. */
  lemma WordCapsWhole(s: String)
    requires forall k :: 0 <= k < |s| ==> !IsWordSeparator(s[k])
    ensures WordCaps(s) == Capitalize(s)
  {
    var w, c := WordCaps(s), Capitalize(s);
    forall k | 0 <= k < |s|
      ensures w[k] == c[k]
    {
      if k > 0 {
        assert !IsWordSeparator(s[k - 1]);
      }
    }
  }

  /** At the first separator the text falls into a capitalised word, a space, and the rest. */
  lemma WordCapsSplit(s: String, i: nat)
    requires i < |s| && IsWordSeparator(s[i])
    requires forall k :: 0 <= k < i ==> !IsWordSeparator(s[k])
    ensures WordCaps(s) == Capitalize(s[..i]) + " " + WordCaps(s[i + 1..])
  {
    var w, head, rest := WordCaps(s), s[..i], s[i + 1..];
    var v := WordCaps(rest);
    var u := Capitalize(head) + " " + v;
    forall k | 0 <= k < |w|
      ensures w[k] == u[k]
    {
      if k < i {
        assert u[k] == Capitalize(head)[k];
        if k > 0 {
          assert !IsWordSeparator(s[k - 1]);
          assert head[k] == s[k];
        }
      } else if k == i {
        assert u[k] == ' ';
      } else {
        var j := k - i - 1;
        assert u[k] == v[j];
        assert rest[j] == s[k];
        if j > 0 {
          assert rest[j - 1] == s[k - 1];
        }
      }
    }
    assert w == u;
  }

  /** A scoped key loses its scope and each word is capitalised: `@foo/bar-baz` becomes
      `Bar Baz`. */
  lemma FormatScopedExample()
    ensures FormatDependency("@foo/bar-baz") == "Bar Baz"
  {
    StripScopeExample();
    WordCapsJoin("bar-baz");
    WordCapsExample();
  }

  lemma StripScopeExample()
    ensures StripScope("@foo/bar-baz") == "bar-baz"
  {
    RunEndUnique("@foo/bar-baz", 1, NotSlash, 4);
  }

  lemma WordCapsExample()
    ensures WordCaps("bar-baz") == "Bar Baz"
  {
    var w := WordCaps("bar-baz");
    assert w[0] == 'B' && w[1] == 'a' && w[2] == 'r' && w[3] == ' ';
    assert w[4] == 'B' && w[5] == 'a' && w[6] == 'z';
  }

  function FormatAll(keys: seq<String>): (r: seq<String>)
    ensures |r| == |keys|
    ensures forall k :: 0 <= k < |r| ==> r[k] == FormatDependency(keys[k])
  {
    seq(|keys|, k requires 0 <= k < |keys| => FormatDependency(keys[k]))
  }

  /** The display names of the keys of the leftmost `name` block (`"dependencies"` or
      `"devDependencies"`, with quotes) that pass the length filter, in key order. */
  function DependencyNames(s: String, name: String): (r: seq<String>)
    ensures forall t :: t in r ==> IsTechName(t)
    ensures (forall i: nat :: i < |s| ==> BlockAt(s, i, name).None?) ==> r == []
  {
    var at := (i: nat) => BlockAt(s, i, name);
    match FindFirst(|s|, at, 0)
    case Some((_, body)) => Filter(FormatAll(EntryKeys(body, 0)), IsTechName)
    case None => []
  }

  /** Only the leftmost block is read: its keys, formatted, that pass the length filter. */
  lemma DependencyNamesLeftmost(s: String, name: String, i: nat)
    requires i < |s| && BlockAt(s, i, name).Some?
    requires forall j: nat :: j < i ==> BlockAt(s, j, name).None?
    ensures DependencyNames(s, name) == Filter(FormatAll(EntryKeys(BlockAt(s, i, name).value, 0)), IsTechName)
  {
    var at := (i: nat) => BlockAt(s, i, name);
    FindFirstAt(|s|, at, 0, i);
  }

  /** The items of the leftmost free-text technology line (`Tech: a, b & c`), trimmed and
      passed through the length filter. */
  function FreeTextTechs(s: String): (r: seq<String>)
    ensures forall t :: t in r ==> IsTechName(t) && IsTrimmed(t)
    ensures (forall i: nat :: i < |s| ==> TechLineAt(s, i).None?) ==> r == []
  {
    var at := (i: nat) => TechLineAt(s, i);
    match FindFirst(|s|, at, 0)
    case Some((_, p)) => Filter(TrimAll(Split(LineFrom(s, p), IsListSeparator)), IsTechName)
    case None => []
  }

  /** Only the leftmost technology line is read: the rest of that line, split at `,`, `&`
      and `|`, trimmed and length-filtered. */
  lemma FreeTextTechsLeftmost(s: String, i: nat)
    requires i < |s| && TechLineAt(s, i).Some?
    requires forall j: nat :: j < i ==> TechLineAt(s, j).None?
    ensures FreeTextTechs(s) == Filter(TrimAll(Split(LineFrom(s, TechLineAt(s, i).value), IsListSeparator)), IsTechName)
  {
    var at := (i: nat) => TechLineAt(s, i);
    FindFirstAt(|s|, at, 0, i);
  }

  /** Every name the extractor offers to its set, in the order it offers them. */
  function TechCandidates(s: String): (r: seq<String>)
    ensures forall t :: t in r ==> IsTechName(t)
  {
    DependencyNames(s, "\"dependencies\"") + DependencyNames(s, "\"devDependencies\"") + FreeTextTechs(s)
  }

  /** `extractTechnologies`: the insertion-ordered set of candidate names, capped at 30. */
  function ExtractTechnologies(s: String): (techs: seq<String>)
    ensures NoDup(techs)
    ensures |techs| <= 30
    ensures forall t :: t in techs ==> IsTechName(t) && t in TechCandidates(s)
    ensures |techs| < 30 ==> forall t :: t in TechCandidates(s) ==> t in techs
    ensures forall t :: t in TechCandidates(s) && t !in techs
                        ==> |techs| == 30
                            && forall u :: u in techs ==> IndexOf(TechCandidates(s), u) < IndexOf(TechCandidates(s), t)
  {
    var c := TechCandidates(s);
    TakeDedup(c, 30);
    TakeDedupFirst(c, 30);
    Take(Dedup(c), 30)
  }

  /** The technologies come in the order the candidates first appear: dependency keys, then
      devDependency keys, then free-text items. */
  lemma TechnologiesInFirstAppearanceOrder(s: String)
    ensures var techs, cands := ExtractTechnologies(s), TechCandidates(s);
            forall i, j :: 0 <= i < j < |techs| ==> IndexOf(cands, techs[i]) < IndexOf(cands, techs[j])
  {
    TakeDedupOrder(TechCandidates(s), 30);
  }

  // ---------------------------------------------------------------------------------------
  // Features

  /** Feature texts kept: longer than 10 and shorter than 200 characters. */
  predicate IsFeatureText(f: String) { 10 < |f| < 200 }

  /** The kept bullet texts of the leftmost section headed by `kw` (`feature` or
      `core feature`, optionally followed by `s`). */
  function SectionFeatures(s: String, kw: String): (r: seq<String>)
    ensures forall f :: f in r ==> IsFeatureText(f) && IsTrimmed(f)
    ensures (forall i: nat :: i < |s| ==> SectionAt(s, i, kw).None?) ==> r == []
  {
    var at := (i: nat) => SectionAt(s, i, kw);
    match FindFirst(|s|, at, 0)
    case Some((i, j)) => Filter(TrimAll(BulletTexts(s[i..j], 0)), IsFeatureText)
    case None => []
  }

  /** Only the leftmost section is read: the bullets between its heading and the next `##`,
      trimmed, keeping exactly those of feature length, each as often as it occurs. */
  lemma SectionFeaturesLeftmost(s: String, kw: String, i: nat)
    requires i < |s| && SectionAt(s, i, kw).Some?
    requires forall j: nat :: j < i ==> SectionAt(s, j, kw).None?
    ensures var items := TrimAll(BulletTexts(s[i..SectionAt(s, i, kw).value], 0));
            forall f :: multiset(SectionFeatures(s, kw))[f] == if IsFeatureText(f) then multiset(items)[f] else 0
  {
    var at := (i: nat) => SectionAt(s, i, kw);
    FindFirstAt(|s|, at, 0, i);
  }

  /** `extractFeatures`: every kept bullet of the Features section (duplicates included), then
      the Core Features bullets not already listed, capped at 20. */
  function ExtractFeatures(s: String): (features: seq<String>)
    ensures |features| <= 20
    ensures forall f :: f in features ==> IsFeatureText(f) && IsTrimmed(f)
    ensures forall f :: f in features ==> f in SectionFeatures(s, "feature") || f in SectionFeatures(s, "core feature")
    ensures |features| < 20 ==> forall f :: f in SectionFeatures(s, "core feature") ==> f in features
    ensures features == Take(SectionFeatures(s, "feature")
                             + Filter(Dedup(SectionFeatures(s, "core feature")), NotIn(SectionFeatures(s, "feature"))), 20)
  {
    var first, core := SectionFeatures(s, "feature"), SectionFeatures(s, "core feature");
    AddAllUniqueIsFilter(first, core);
    Take(AddAllUnique(first, core), 20)
  }

  // ---------------------------------------------------------------------------------------
  // Description

  /** Where the capture of the leftmost Overview section pattern starts. */
  function OverviewStart(s: String): (n: Option<nat>)
    ensures n.Some? ==> n.value < |s| && NotNewlineOrHash(s[n.value])
    ensures n.None? <==> forall i: nat :: i < |s| ==> OverviewAt(s, i).None?
  {
    var at := (i: nat) => OverviewAt(s, i);
    match FindFirst(|s|, at, 0)
    case Some((_, n)) => Some(n)
    case None =>
      assert forall i: nat :: i < |s| ==> OverviewAt(s, i).None? by {
        forall i: nat | i < |s| ensures OverviewAt(s, i).None? { assert at(i).None?; }
      }
      None
  }

  /** The leftmost match of the Overview section pattern decides. */
  lemma OverviewStartLeftmost(s: String, i: nat)
    requires i < |s| && OverviewAt(s, i).Some?
    requires forall j: nat :: j < i ==> OverviewAt(s, j).None?
    ensures OverviewStart(s) == OverviewAt(s, i)
  {
    var at := (i: nat) => OverviewAt(s, i);
    FindFirstAt(|s|, at, 0, i);
  }

  /** Where the capture of the leftmost "text line after a title" pattern starts. */
  function TitleTextStart(s: String): (n: Option<nat>)
    ensures n.Some? ==> n.value < |s| && NotNewlineOrHash(s[n.value])
    ensures n.None? <==> forall i: nat :: i < |s| ==> TitleTextAt(s, i).None?
  {
    var at := (i: nat) => TitleTextAt(s, i);
    match FindFirst(|s|, at, 0)
    case Some((_, n)) => Some(n)
    case None =>
      assert forall i: nat :: i < |s| ==> TitleTextAt(s, i).None? by {
        forall i: nat | i < |s| ensures TitleTextAt(s, i).None? { assert at(i).None?; }
      }
      None
  }

  /** The leftmost match of the "text line after a title" pattern decides. */
  lemma TitleTextStartLeftmost(s: String, i: nat)
    requires i < |s| && TitleTextAt(s, i).Some?
    requires forall j: nat :: j < i ==> TitleTextAt(s, j).None?
    ensures TitleTextStart(s) == TitleTextAt(s, i)
  {
    var at := (i: nat) => TitleTextAt(s, i);
    FindFirstAt(|s|, at, 0, i);
  }

  /** Where the capture of the leftmost "paragraph after a blank line after a title" pattern
      starts. */
  function TitleParagraphStart(s: String): (n: Option<nat>)
    ensures n.Some? ==> n.value < |s| && s[n.value] != '\n'
    ensures n.None? <==> forall i: nat :: i < |s| ==> TitleParagraphAt(s, i).None?
  {
    var at := (i: nat) => TitleParagraphAt(s, i);
    match FindFirst(|s|, at, 0)
    case Some((_, n)) => Some(n)
    case None =>
      assert forall i: nat :: i < |s| ==> TitleParagraphAt(s, i).None? by {
        forall i: nat | i < |s| ensures TitleParagraphAt(s, i).None? { assert at(i).None?; }
      }
      None
  }

  /** The leftmost match of the "paragraph after a blank line after a title" pattern decides. */
  lemma TitleParagraphStartLeftmost(s: String, i: nat)
    requires i < |s| && TitleParagraphAt(s, i).Some?
    requires forall j: nat :: j < i ==> TitleParagraphAt(s, j).None?
    ensures TitleParagraphStart(s) == TitleParagraphAt(s, i)
  {
    var at := (i: nat) => TitleParagraphAt(s, i);
    FindFirstAt(|s|, at, 0, i);
  }

  /** Capture of the leftmost Overview section pattern. */
  function OverviewCandidate(s: String): (r: Option<String>)
    ensures r.Some? ==> '\n' !in r.value && '#' !in r.value
    ensures r.Some? <==> OverviewStart(s).Some?
    ensures r.Some? ==> LiteralAt(s, OverviewStart(s).value, r.value) && |r.value| > 0
    ensures r.Some? ==> MaximalRun(s, OverviewStart(s).value, r.value, NotNewlineOrHash)
  {
    var n := OverviewStart(s);
    if n.Some? then Some(UntilHash(s, n.value)) else None
  }

  /** Capture of the leftmost "text line after a title" pattern. */
  function TitleTextCandidate(s: String): (r: Option<String>)
    ensures r.Some? ==> '\n' !in r.value && '#' !in r.value
    ensures r.Some? <==> TitleTextStart(s).Some?
    ensures r.Some? ==> LiteralAt(s, TitleTextStart(s).value, r.value) && |r.value| > 0
    ensures r.Some? ==> MaximalRun(s, TitleTextStart(s).value, r.value, NotNewlineOrHash)
  {
    var n := TitleTextStart(s);
    if n.Some? then Some(UntilHash(s, n.value)) else None
  }

  /** Capture of the leftmost "paragraph after a blank line after a title" pattern. */
  function TitleParagraphCandidate(s: String): (r: Option<String>)
    ensures r.Some? ==> '\n' !in r.value
    ensures r.Some? <==> TitleParagraphStart(s).Some?
    ensures r.Some? ==> LiteralAt(s, TitleParagraphStart(s).value, r.value) && |r.value| > 0
    ensures r.Some? ==> MaximalRun(s, TitleParagraphStart(s).value, r.value, NotNewline)
  {
    var n := TitleParagraphStart(s);
    if n.Some? then Some(LineFrom(s, n.value)) else None
  }

  /** A candidate is used when its trimmed text is longer than 20 characters. */
  predicate Usable(c: Option<String>) {
    c.Some? && |Trim(c.value)| > 20
  }

  /** `desc.trim().substring(0, 300)` */
  function Shorten(c: String): (d: String)
    requires |Trim(c)| > 20
    ensures 20 < |d| <= 300
    ensures |d| == if |Trim(c)| < 300 then |Trim(c)| else 300
    ensures d == Trim(c)[..|d|]
    ensures forall ch :: ch in d ==> ch in c
  {
    var t := Trim(c);
    var a := SkipSpaces(c, 0);
    assert forall k :: 0 <= k < |t| ==> t[k] == c[a + k];
    Take(t, 300)
  }

  /** `extractDescription`: the first usable candidate of the Overview section, the line after
      the first title and the paragraph after it, trimmed and cut to 300 characters. */
  function ExtractDescription(s: String): (d: String)
    ensures d == [] || 20 < |d| <= 300
    ensures '\n' !in d
    ensures d == [] <==> (!Usable(OverviewCandidate(s)) && !Usable(TitleTextCandidate(s))
                          && !Usable(TitleParagraphCandidate(s)))
    ensures Usable(OverviewCandidate(s)) ==> d == Shorten(OverviewCandidate(s).value)
    ensures !Usable(OverviewCandidate(s)) && Usable(TitleTextCandidate(s))
            ==> d == Shorten(TitleTextCandidate(s).value)
    ensures !Usable(OverviewCandidate(s)) && !Usable(TitleTextCandidate(s)) && Usable(TitleParagraphCandidate(s))
            ==> d == Shorten(TitleParagraphCandidate(s).value)
  {
    var o, t, p := OverviewCandidate(s), TitleTextCandidate(s), TitleParagraphCandidate(s);
    if Usable(o) then Shorten(o.value)
    else if Usable(t) then Shorten(t.value)
    else if Usable(p) then Shorten(p.value)
    else []
  }

  /** No line of `s` is longer than 20 characters. */
  predicate NoLongLine(s: String) {
    forall i, j :: 0 <= i <= j <= |s| && j - i > 20 ==> '\n' in s[i..j]
  }

  /** Every candidate lies within one line, so text whose lines are all short has no
      description, however the lines are arranged. */
  lemma ShortLinesNoDescription(s: String)
    requires NoLongLine(s)
    ensures ExtractDescription(s) == []
  {
    forall c: Option<String>, n: nat | c.Some? && '\n' !in c.value && LiteralAt(s, n, c.value)
      ensures !Usable(c)
    {
      assert s[n..n + |c.value|] == c.value;
    }
  }

  /** A title followed by a short sentence yields no description: "A cool app." is not longer
      than 20 characters. */
  lemma ShortSentenceNoDescription()
    ensures ExtractDescription("# MyProj\n\nA cool app.") == []
  {
    var s := "# MyProj\n\nA cool app.";
    assert |s| == 21 && s[8] == '\n';
    forall i, j | 0 <= i <= j <= |s| && j - i > 20 ensures '\n' in s[i..j] {
      assert s[i..j][8 - i] == s[8];
    }
    ShortLinesNoDescription(s);
  }

  /** The Features section's bullets lead the list in their own order, duplicates kept; every
      later item is new. */
  lemma FeaturesOrder(s: String)
    ensures var first, features := SectionFeatures(s, "feature"), ExtractFeatures(s);
            Take(first, 20) == features[..if |first| <= 20 then |first| else 20]
            && forall i, j :: 0 <= i < j < |features| && |first| <= j ==> features[i] != features[j]
  {
    TakeAddAllUnique(SectionFeatures(s, "feature"), SectionFeatures(s, "core feature"), 20);
  }

  /** The Core Features items that follow keep their bullet order: an item that comes earlier
      in the list first appears earlier in its section. */
  lemma CoreFeaturesInOrder(s: String)
    ensures InFirstAppearanceOrder(ExtractFeatures(s), |SectionFeatures(s, "feature")|, SectionFeatures(s, "core feature"))
  {
    var first, core := SectionFeatures(s, "feature"), SectionFeatures(s, "core feature");
    var rest := Filter(Dedup(core), NotIn(first));
    CoreFeaturesOrder(first, core, rest, ExtractFeatures(s));
  }

  /** The items after `first` in a capped insertion of `core` come from `core`, in the order
      they first appear there. */
  lemma CoreFeaturesOrder(first: seq<String>, core: seq<String>, rest: seq<String>, features: seq<String>)
    requires rest == Filter(Dedup(core), NotIn(first))
    requires features == Take(first + rest, 20)
    ensures InFirstAppearanceOrder(features, |first|, core)
  {
    FilterDedupOrder(core, NotIn(first), rest);
    assert forall k :: |first| <= k < |features| ==> features[k] == (first + rest)[k] == rest[k - |first|];
  }

  // ---------------------------------------------------------------------------------------
  // System design

  const DesignIntro: String :=
    "## Architecture Overview\n\n"
    + "This project uses a modern full-stack architecture with clear separation between frontend and backend.\n\n"

  const FrontendHeader: String := "### Frontend Architecture\n\n"
  const BackendHeader: String := "### Backend Architecture\n\n"

  const DeploymentSection: String :=
    "### Deployment\n\n"
    + "- Frontend deployed on Vercel or similar platform\n"
    + "- Backend deployed on cloud platform (Azure, AWS, etc.)\n"
    + "- Database hosted on managed service\n"

  const FrontendLead: String := "The frontend is built using "
  const BackendLead: String := "The backend is built using "
  const KeyTechnologiesLabel: String := "- **Key Technologies**: "
  const FrontendPractices: String := "- **State Management**: Context API or similar\n" + "- **Styling**: Tailwind CSS or similar\n\n"
  const BackendPractices: String := "- **Framework**: Express.js or similar\n" + "- **Database**: PostgreSQL or similar\n"

  /** `The <side> is built using <first three technologies>.` and a blank line. */
  function Citation(lead: String, techs: seq<String>): String {
    lead + Join(Take(techs, 3), ", ") + ".\n\n"
  }

  /** `- **Key Technologies**: <first five technologies>` */
  function KeyTechnologies(techs: seq<String>): String {
    KeyTechnologiesLabel + Join(Take(techs, 5), ", ")
  }

  /** The frontend paragraph: empty when no frontend technology was found, and otherwise
      opened by its header (what follows the header is stated by `SectionsCite`). */
  function FrontendSection(techs: seq<String>): (r: String)
    ensures |techs| == 0 <==> r == []
    ensures |techs| > 0 ==> LiteralAt(r, 0, FrontendHeader)
  {
    if |techs| == 0 then []
    else
      assert (FrontendHeader + FrontendText(techs))[..|FrontendHeader|] == FrontendHeader;
      FrontendHeader + FrontendText(techs)
  }

  /** The frontend paragraph after its header. */
  function FrontendText(techs: seq<String>): String {
    Citation(FrontendLead, techs) + KeyTechnologies(techs) + "\n" + FrontendPractices
  }

  /** The backend paragraph: empty when no backend technology was found, and otherwise opened
      by its header (what follows the header is stated by `SectionsCite`). */
  function BackendSection(techs: seq<String>): (r: String)
    ensures |techs| == 0 <==> r == []
    ensures |techs| > 0 ==> LiteralAt(r, 0, BackendHeader)
  {
    if |techs| == 0 then []
    else
      assert (BackendHeader + BackendText(techs))[..|BackendHeader|] == BackendHeader;
      BackendHeader + BackendText(techs)
  }

  /** The backend paragraph after its header. */
  function BackendText(techs: seq<String>): String {
    Citation(BackendLead, techs) + BackendPractices + KeyTechnologies(techs) + "\n\n"
  }

  /** After its header, each non-empty paragraph cites its first three technologies in a
      sentence, and lists its first five on the `Key Technologies` line: right after the
      sentence in the frontend paragraph, after the two fixed framework and database lines in
      the backend one. */
  lemma SectionsCite(techs: seq<String>)
    ensures |techs| > 0 ==> LiteralAt(FrontendSection(techs), |FrontendHeader|, Citation(FrontendLead, techs))
    ensures |techs| > 0 ==> LiteralAt(FrontendSection(techs), |FrontendHeader| + |Citation(FrontendLead, techs)|,
                                      KeyTechnologies(techs))
    ensures |techs| > 0 ==> LiteralAt(BackendSection(techs), |BackendHeader|, Citation(BackendLead, techs))
    ensures |techs| > 0 ==> LiteralAt(BackendSection(techs),
                                      |BackendHeader| + |Citation(BackendLead, techs)| + |BackendPractices|,
                                      KeyTechnologies(techs))
  {
    if |techs| > 0 {
      var k := KeyTechnologies(techs);
      Pieces(FrontendHeader, Citation(FrontendLead, techs), k, "\n", FrontendPractices);
      Pieces(BackendHeader, Citation(BackendLead, techs), BackendPractices, k, "\n\n");
    }
  }

  /** The pieces of `a + (b + c + d + e)` sit where their lengths put them. */
  lemma Pieces(a: String, b: String, c: String, d: String, e: String)
    ensures LiteralAt(a + (b + c + d + e), |a|, b)
    ensures LiteralAt(a + (b + c + d + e), |a| + |b|, c)
    ensures LiteralAt(a + (b + c + d + e), |a| + |b| + |c|, d)
  {
    var w := a + (b + c + d + e);
    assert w[|a|..|a| + |b|] == b;
    assert w[|a| + |b|..|a| + |b| + |c|] == c;
    assert w[|a| + |b| + |c|..|a| + |b| + |c| + |d|] == d;
  }

  /** `generateSystemDesign`: a fixed introduction, a frontend paragraph when the frontend text
      names technologies, a backend paragraph when the backend text does, and a fixed
      deployment paragraph. */
  function GenerateSystemDesign(backend: String, frontend: String): (design: String)
    ensures design == Design(ExtractTechnologies(frontend), ExtractTechnologies(backend))
    ensures LiteralAt(design, |DesignIntro|, FrontendHeader) <==> TechCandidates(frontend) != []
    ensures LiteralAt(design, BackendStart(ExtractTechnologies(frontend)), BackendHeader)
            <==> TechCandidates(backend) != []
    ensures TechCandidates(frontend) == [] && TechCandidates(backend) == []
            ==> design == DesignIntro + DeploymentSection
  {
    var ft, bt := ExtractTechnologies(frontend), ExtractTechnologies(backend);
    TechnologiesFound(frontend);
    TechnologiesFound(backend);
    Design(ft, bt)
  }

  /** Some technology is extracted exactly when some candidate name is offered. */
  lemma TechnologiesFound(s: String)
    ensures |ExtractTechnologies(s)| > 0 <==> TechCandidates(s) != []
  {
  }

  /** The design text for the technologies found in the frontend (`ft`) and backend (`bt`)
      texts. What follows the introduction tells which paragraphs are there, and each paragraph
      cites its technologies right after its header. */
  function Design(ft: seq<String>, bt: seq<String>): (design: String)
    ensures |DesignIntro| + |DeploymentSection| <= |design|
    ensures design[..|DesignIntro|] == DesignIntro
    ensures design[|design| - |DeploymentSection|..] == DeploymentSection
    ensures LiteralAt(design, |DesignIntro|, FrontendHeader) <==> |ft| > 0
    ensures LiteralAt(design, BackendStart(ft), BackendHeader) <==> |bt| > 0
    ensures |ft| == 0 ==> (LiteralAt(design, |DesignIntro|, BackendHeader) <==> |bt| > 0)
    ensures |ft| == 0 && |bt| == 0 ==> design == DesignIntro + DeploymentSection
  {
    var f, b := FrontendSection(ft), BackendSection(bt);
    HeadersDiffer();
    Layout(DesignIntro, f, FrontendHeader, b, BackendHeader, DeploymentSection);
    BackendFollows(DesignIntro, f, b, BackendHeader, DeploymentSection, BackendStart(ft));
    DesignIntro + f + b + DeploymentSection
  }

  /** Each paragraph sits whole in the design text: the frontend one right after the
      introduction, the backend one right after that. With `SectionsCite` this places the
      citations of the first three and first five technologies. */
  lemma DesignPlacesSections(ft: seq<String>, bt: seq<String>)
    ensures LiteralAt(Design(ft, bt), |DesignIntro|, FrontendSection(ft))
    ensures LiteralAt(Design(ft, bt), BackendStart(ft), BackendSection(bt))
  {
    var f, b := FrontendSection(ft), BackendSection(bt);
    assert Design(ft, bt) == DesignIntro + f + b + DeploymentSection;
    assert BackendStart(ft) == |DesignIntro| + |f|;
    Middle(DesignIntro, f, b, DeploymentSection);
  }

  /** The middle pieces of `a + b + c + d` sit where their lengths put them. */
  lemma Middle(a: String, b: String, c: String, d: String)
    ensures LiteralAt(a + b + c + d, |a|, b)
    ensures LiteralAt(a + b + c + d, |a| + |b|, c)
  {
    var w := a + b + c + d;
    assert w[|a|..|a| + |b|] == b;
    assert w[|a| + |b|..|a| + |b| + |c|] == c;
  }

  /** Where the backend paragraph, if any, starts in the design text. */
  function BackendStart(ft: seq<String>): nat {
    |DesignIntro| + |FrontendSection(ft)|
  }

  /** Reading the text after an optional first paragraph `f`: it starts with the header of the
      second paragraph exactly when that paragraph is present. */
  lemma BackendFollows(intro: String, f: String, b: String, bh: String, d: String, at: nat)
    requires at == |intro| + |f|
    requires |bh| > 4 && |d| > 4 && bh[4] != d[4]
    requires b == [] || LiteralAt(b, 0, bh)
    ensures LiteralAt(intro + f + b + d, at, bh) <==> b != []
    ensures f == [] ==> (LiteralAt(intro + f + b + d, |intro|, bh) <==> b != [])
  {
    var design := intro + f + b + d;
    assert design[at..] == b + d;
    if b != [] {
      assert design[at..at + |bh|] == b[..|bh|];
    } else {
      assert design[at + 4] == d[4];
    }
  }

  /** The three paragraph headers differ at their fifth character. */
  lemma HeadersDiffer()
    ensures |FrontendHeader| > 4 && FrontendHeader[4] == 'F'
    ensures |BackendHeader| > 4 && BackendHeader[4] == 'B'
    ensures |DeploymentSection| > 4 && DeploymentSection[4] == 'D'
  {
  }

  /** Reading an introduction, two optional paragraphs and a closing paragraph back: the text
      after the introduction starts with the first paragraph's header exactly when that
      paragraph is present, since the headers differ at their fifth character. */
  lemma Layout(intro: String, f: String, fh: String, b: String, bh: String, d: String)
    requires |fh| > 4 && |bh| > 4 && |d| > 4 && fh[4] != bh[4] && fh[4] != d[4]
    requires f == [] || LiteralAt(f, 0, fh)
    requires b == [] || LiteralAt(b, 0, bh)
    ensures |intro| + |d| <= |intro + f + b + d|
    ensures (intro + f + b + d)[..|intro|] == intro
    ensures (intro + f + b + d)[|intro + f + b + d| - |d|..] == d
    ensures LiteralAt(intro + f + b + d, |intro|, fh) <==> f != []
    ensures f == [] && b == [] ==> intro + f + b + d == intro + d
  {
    var design := intro + f + b + d;
    assert design[|intro|..] == f + b + d;
    assert design[|design| - |d|..] == d;
    if f != [] {
      assert design[|intro|..|intro| + |fh|] == f[..|fh|];
    } else if b != [] {
      assert design[|intro| + 4] == b[4];
    } else {
      assert design[|intro| + 4] == d[4];
    }
  }

  // ---------------------------------------------------------------------------------------
  // Whole parse

  const Challenges: seq<String> := [
    "Integrating multiple third-party services and APIs",
    "Ensuring data consistency across distributed systems",
    "Optimizing performance for real-time features",
    "Implementing secure authentication and authorization",
    "Managing complex state across frontend and backend"
  ]

  const DescriptionFallbackTail: String := " - A modern full-stack application"
  const LongDescriptionMiddle: String :=
    " is a full-stack application that combines modern frontend and backend technologies to deliver a comprehensive solution. "
  const OverviewTail: String := " leverages cutting-edge technologies to provide a robust and scalable solution."
  const DetailsHead: String := "This project demonstrates proficiency in full-stack development, combining "
  const DetailsTail: String := " and other modern technologies to create a production-ready application."
  const DeploymentStack: String := "Vercel (Frontend), Cloud Platform (Backend)"
  const OtherStack: String := "Various third-party integrations"

  /** The text every whole-project extractor reads: backend, a blank line, frontend. */
  function Combined(backend: String, frontend: String): (c: String)
    ensures |c| == |backend| + 2 + |frontend|
    ensures c[..|backend|] == backend && c[|backend| + 2..] == frontend
    ensures c[|backend|..|backend| + 2] == "\n\n"
  {
    backend + "\n\n" + frontend
  }

  /** Technologies of both halves, backend first, in first-appearance order. */
  function AllTags(backend: String, frontend: String): seq<String> {
    var both := ExtractTechnologies(backend) + ExtractTechnologies(frontend);
    FirstOccurrences(both, |both|)
  }

  /** `description || \`${projectName} - A modern full-stack application\``: never empty. */
  function DescriptionOrFallback(d: String, name: String): (r: String)
    ensures r != []
    ensures d != [] ==> r == d
    ensures d == [] ==> r == name + DescriptionFallbackTail
  {
    Records.Or(d, name + DescriptionFallbackTail)
  }

  /** The extracted features, or one "Built with" line naming the first three tags: never empty. */
  function FeaturesOrFallback(features: seq<String>, tags: seq<String>): (r: seq<String>)
    ensures |r| > 0
    ensures |features| > 0 ==> r == features
    ensures |features| == 0 ==> r == ["Built with " + Join(Take(tags, 3), ", ")]
  {
    if |features| > 0 then features else ["Built with " + Join(Take(tags, 3), ", ")]
  }

  /** `parseProjectFiles`. The frontend file name is accepted but never read. */
  function ParseProjectFiles(backend: String, frontend: String, backendFilename: String := "backend.txt",
                             frontendFilename: String := "frontend.txt"): (p: ParsedProjectData)
    ensures p.title == ExtractProjectName(Combined(backend, frontend), backendFilename)
    ensures p.description == DescriptionOrFallback(ExtractDescription(Combined(backend, frontend)), p.title)
    ensures p.features == FeaturesOrFallback(ExtractFeatures(Combined(backend, frontend)), AllTags(backend, frontend))
    ensures p.tags == Take(AllTags(backend, frontend), 20)
    ensures LiteralAt(p.longDescription, 0, p.title) && LiteralAt(p.overview, 0, p.title)
    ensures p.github == ExtractGitHubUrl(Combined(backend, frontend)) && p.demo == []
    ensures p.challenges == Challenges
    ensures p.systemDesign == GenerateSystemDesign(backend, frontend)
  {
    var combined := Combined(backend, frontend);
    var name := ExtractProjectName(combined, backendFilename);
    var tags := AllTags(backend, frontend);
    var description := ExtractDescription(combined);
    var long := name + LongDescriptionMiddle + description;
    StartsWith(name, LongDescriptionMiddle, description);
    assert (name + OverviewTail)[..|name|] == name;
    ParsedProjectData(
      title := name,
      description := DescriptionOrFallback(description, name),
      longDescription := long,
      tags := Take(tags, 20),
      github := ExtractGitHubUrl(combined),
      demo := [],
      features := FeaturesOrFallback(ExtractFeatures(combined), tags),
      challenges := Challenges,
      overview := name + OverviewTail,
      systemDesign := GenerateSystemDesign(backend, frontend),
      additionalDetails := DetailsHead + Join(Take(tags, 5), ", ") + DetailsTail,
      techStack := TechStack(
        frontend := Join(Take(ExtractTechnologies(frontend), 10), ", "),
        backend := Join(Take(ExtractTechnologies(backend), 10), ", "),
        deployment := DeploymentStack,
        other := OtherStack))
  }

  /** The generated texts of a parsed project: the long description ends with the extracted
      description, and the overview is the title and a fixed tail. */
  lemma ParsedTexts(backend: String, frontend: String, backendFilename: String)
    ensures ParseProjectFiles(backend, frontend, backendFilename).longDescription
              == ParseProjectFiles(backend, frontend, backendFilename).title + LongDescriptionMiddle
                 + ExtractDescription(Combined(backend, frontend))
    ensures ParseProjectFiles(backend, frontend, backendFilename).overview
              == ParseProjectFiles(backend, frontend, backendFilename).title + OverviewTail
  {
  }

  /** The additional details cite the first five tags. */
  lemma ParsedDetails(backend: String, frontend: String, backendFilename: String)
    ensures ParseProjectFiles(backend, frontend, backendFilename).additionalDetails
              == DetailsHead + Join(Take(AllTags(backend, frontend), 5), ", ") + DetailsTail
  {
  }

  /** The technology stack lists the first ten technologies of each half. */
  lemma ParsedTechStack(backend: String, frontend: String, backendFilename: String)
    ensures ParseProjectFiles(backend, frontend, backendFilename).techStack
              == TechStack(Join(Take(ExtractTechnologies(frontend), 10), ", "),
                           Join(Take(ExtractTechnologies(backend), 10), ", "),
                           DeploymentStack, OtherStack)
  {
  }

  /** `a + b + c` starts with `a`. */
  lemma StartsWith(a: String, b: String, c: String)
    ensures LiteralAt(a + b + c, 0, a)
  {
    assert (a + b + c)[..|a|] == a;
  }

  /** The parsed tags: at most 20, no repetitions, each a technology of one of the halves, the
      backend ones first; and the parsed description and feature list are never empty. */
  lemma ParsedProjectShape(backend: String, frontend: String, backendFilename: String)
    ensures |ParseProjectFiles(backend, frontend, backendFilename).tags| <= 20
    ensures NoDup(ParseProjectFiles(backend, frontend, backendFilename).tags)
    ensures forall t :: t in ParseProjectFiles(backend, frontend, backendFilename).tags ==>
                          t in ExtractTechnologies(backend) || t in ExtractTechnologies(frontend)
    ensures ParseProjectFiles(backend, frontend, backendFilename).description != []
    ensures |ParseProjectFiles(backend, frontend, backendFilename).features| > 0
  {
    CappedTags(backend, frontend);
  }

  lemma CappedTags(backend: String, frontend: String)
    ensures var tags := Take(AllTags(backend, frontend), 20);
            && NoDup(tags)
            && forall t :: t in tags ==> t in ExtractTechnologies(backend) || t in ExtractTechnologies(frontend)
  {
    var tags := AllTags(backend, frontend);
    TagsAreDedup(backend, frontend);
    TakeNoDup(tags, 20);
    assert forall t :: t in Take(tags, 20) ==> t in tags;
  }

  /** The `indexOf` filter over the two technology lists is set insertion: the tags are the
      distinct technologies of both halves, backend ones first, each at its first appearance. */
  lemma TagsAreDedup(backend: String, frontend: String)
    ensures var both := ExtractTechnologies(backend) + ExtractTechnologies(frontend);
            AllTags(backend, frontend) == Dedup(both)
  {
    var both := ExtractTechnologies(backend) + ExtractTechnologies(frontend);
    FirstOccurrencesIsDedup(both, |both|);
    assert both[..|both|] == both;
  }

  /** Every backend technology is a tag, ahead of every frontend-only one. */
  lemma BackendTagsFirst(backend: String, frontend: String)
    ensures var bt := ExtractTechnologies(backend);
            |bt| <= |AllTags(backend, frontend)| && AllTags(backend, frontend)[..|bt|] == bt
  {
    var bt, ft := ExtractTechnologies(backend), ExtractTechnologies(frontend);
    TagsAreDedup(backend, frontend);
    assert NoDup(bt);
    DedupOfNoDupPrefix(bt, ft);
    assert AllTags(backend, frontend) == Dedup(bt + ft);
  }

  lemma {:induction false} DedupOfNoDupPrefix(xs: seq<String>, ys: seq<String>)
    requires NoDup(xs)
    ensures |xs| <= |Dedup(xs + ys)| && Dedup(xs + ys)[..|xs|] == xs
    decreases |ys|
  {
    if |ys| == 0 {
      assert xs + ys == xs;
      DedupOfNoDup(xs);
    } else {
      assert DropLast(xs + ys) == xs + DropLast(ys);
      DedupOfNoDupPrefix(xs, DropLast(ys));
    }
  }

  /** A list without repetitions is its own deduplication. */
  lemma {:induction false} DedupOfNoDup(xs: seq<String>)
    requires NoDup(xs)
    ensures Dedup(xs) == xs
    decreases |xs|
  {
    if |xs| > 0 {
      var xs' := DropLast(xs);
      assert xs == xs' + [Last(xs)];
      DedupOfNoDup(xs');
      assert Last(xs) !in xs';
    }
  }

  // ---------------------------------------------------------------------------------------
  // Database format

  /** The caller-supplied columns of `convertToDatabaseFormat`; `[]` stands for a field that is
      absent, which `||` treats the same as an empty one. */
  datatype Overrides = Overrides(
    title: String,
    description: String,
    longDescription: String,
    image: String,
    category: String,
    position: String,
    github: String,
    demo: String,
    overview: String,
    systemDesign: String,
    additionalDetails: String)

  const NoOverrides := Overrides([], [], [], [], [], [], [], [], [], [], [])

  /** `convertToDatabaseFormat`: each overridable column takes the override when it is non-empty
      and the parsed value otherwise; the columns the parser knows nothing about are null. */
  function ConvertToDatabaseFormat(p: ParsedProjectData, o: Overrides := NoOverrides): (row: ProjectRow)
    ensures row.title == (if o.title != [] then o.title else p.title)
    ensures row.description == (if o.description != [] then o.description else p.description)
    ensures row.longDescription == Some(if o.longDescription != [] then o.longDescription else p.longDescription)
    ensures row.github == (if o.github != [] then o.github else p.github)
    ensures row.overview == (if o.overview != [] then o.overview else p.overview)
    ensures row.systemDesign == Some(if o.systemDesign != [] then o.systemDesign else p.systemDesign)
    ensures row.additionalDetails == Some(if o.additionalDetails != [] then o.additionalDetails else p.additionalDetails)
    ensures row.image == o.image
    ensures row.category == (if o.category != [] then o.category else "personal")
    ensures row.position.None? <==> o.position == []
    ensures row.position.Some? ==> row.position.value == o.position
    ensures row.demo.None? <==> o.demo == [] && p.demo == []
    ensures row.demo.Some? ==> row.demo.value == (if o.demo != [] then o.demo else p.demo)
    ensures row.tags == p.tags && row.features == p.features && row.challenges == p.challenges
    ensures row.databaseDesign.None? && row.systemDesignImage.None? && row.databaseDesignImage.None?
    ensures row.projectDate.None? && row.teamSize.None? && row.duration.None?
    ensures row.teamMembers == Some([]) && !row.isPublished
  {
    ProjectRow(
      title := Records.Or(o.title, p.title),
      description := Records.Or(o.description, p.description),
      longDescription := Some(Records.Or(o.longDescription, p.longDescription)),
      image := o.image,
      category := Records.Or(o.category, "personal"),
      position := NullIfEmpty(o.position),
      github := Records.Or(o.github, p.github),
      demo := NullIfEmpty(Records.Or(o.demo, p.demo)),
      overview := Records.Or(o.overview, p.overview),
      systemDesign := Some(Records.Or(o.systemDesign, p.systemDesign)),
      databaseDesign := None,
      systemDesignImage := None,
      databaseDesignImage := None,
      additionalDetails := Some(Records.Or(o.additionalDetails, p.additionalDetails)),
      projectDate := None,
      teamSize := None,
      duration := None,
      tags := p.tags,
      features := p.features,
      challenges := p.challenges,
      teamMembers := Some([]),
      isPublished := false)
  }

  /** Without overrides the row carries the parsed text unchanged, as an unpublished personal
      project without an image. */
  lemma ConvertWithoutOverrides(p: ParsedProjectData)
    ensures var row := ConvertToDatabaseFormat(p);
            && row.title == p.title && row.description == p.description
            && row.longDescription == Some(p.longDescription) && row.github == p.github
            && row.overview == p.overview && row.systemDesign == Some(p.systemDesign)
            && row.additionalDetails == Some(p.additionalDetails)
            && row.image == [] && row.category == "personal" && row.position.None?
            && row.demo == NullIfEmpty(p.demo)
  {
  }

  /** Parsing and converting without overrides gives an unpublished personal row whose title,
      GitHub link, tags and challenges are the parser's, and whose demo link is null. */
  lemma ParsedRow(backend: String, frontend: String)
    ensures var p := ParseProjectFiles(backend, frontend);
            var row := ConvertToDatabaseFormat(p);
            && row.title == p.title && row.demo.None?
            && row.github == ExtractGitHubUrl(Combined(backend, frontend))
            && row.tags == p.tags && row.challenges == Challenges && row.teamMembers == Some([])
  {
  }
}
