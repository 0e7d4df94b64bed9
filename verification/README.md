# Portfolio project importer and admin forms, in Dafny

This project models the data-handling core of a portfolio web site:

- **The project parser.** It takes a backend text dump and a frontend text dump, which are READMEs and `package.json` files pasted together. From them it derives a project record: name, GitHub URL, technologies, features, description, a generated system-design text, and a database row.
- **The admin JSON importer.** It checks an uploaded `.json` project record and converts it to a `projects` row.
- **The contact-form server action.** It checks the three fields and the email address, then stores the message.
- **The two admin editors (project and experience).** The model covers their list editors, their submit checks, and the mapping of empty values to null.

Every regular expression of the parser is a scanner. `XAt(s, i)` says what the pattern matches when an attempt starts at position `i`, choosing among greedy and lazy quantifiers the way JavaScript's backtracking matcher does. `Search.FindFirst` then takes the leftmost start, which is what `String.prototype.match` returns. `Search.LastWhere` gives the largest split a greedy quantifier can back off to.

The modules are:

- `Text`: whitespace as ECMAScript defines it, `trim`, `split`, `join`.
- `Seqs`: `slice`, `Set` insertion order, the `indexOf` deduplication idiom, and `filter`.
- `Search`, `Patterns` and `ProjectParser`: the parser.
- `Records`: the table rows and the `x || null` idioms.
- `Json` and `ProjectGenerator`: the JSON importer.
- `Contact`: the contact action.
- `FormLists`, `ProjectForm` and `ExperienceForm`: the editors.

Inputs that come from outside the code are parameters:

- `JSON.parse` is a function that returns a value or an error message.
- The outcome of the `messages` insert is an input.

## Quirks kept from the source

The model follows the code in each of these cases:

- **Short candidates are skipped.** Each description candidate is used only when it is longer than 20 characters after trimming (`lib/project-parser.ts:156`, `:163`, `:170`). A heading followed by one short sentence, `# MyProj\n\nA cool app.`, therefore gives the description `""`. `ProjectParser.ShortSentenceNoDescription` proves that case, and `ProjectParser.ShortLinesNoDescription` proves it for any text whose lines are all short.
- **Feature items may repeat.** Bullets of the first "Features" section are pushed without a membership test (`lib/project-parser.ts:126`). Only "Core Features" bullets are checked against the list so far (`:138`). `ProjectParser.SectionFeaturesLeftmost` and `ProjectParser.FeaturesOrder` keep the repeats.
- **`frontendFilename` is never read.** `parseProjectFiles` declares the parameter (`lib/project-parser.ts:217`), but only `backendFilename` reaches `extractProjectName` (`:220`).
- **The category is not validated without overrides.** `convertToDatabaseFormat` writes `overrides.category || "personal"` (`lib/project-parser.ts:284`). It never checks the value against the two categories the importer accepts.
- **A `##` heading is a title too.** The title pattern `/#\s+([^\n]+)/` (`lib/project-parser.ts:37`) matches at any `#` followed by whitespace, so the second `#` of `## Setup` starts a title.

## Model

| member | source | states |
|---|---|---|
| Text.Trim | lib/project-parser.ts:32 | the result is trimmed, is a slice of the input, and everything cut from either end is whitespace |
| Text.MaximalRunEnd | lib/project-parser.ts:57 | a run that stops at a character outside its class is the longest run |
| Text.TrimTrimmed | lib/project-parser.ts:105 | trimming a trimmed string changes nothing |
| Text.Capitalize | lib/project-parser.ts:33 | same length, first character upper-cased, the rest unchanged |
| Text.Split | lib/project-parser.ts:86 | at least one piece, and no piece contains a separator |
| Text.SplitJoin | lib/project-parser.ts:104 | splitting on one character and joining with it gives the text back |
| Seqs.Take | lib/project-parser.ts:110 | `slice(0, n)` is the prefix of length min(n, length) |
| Seqs.AddUnique | lib/project-parser.ts:90 | `Set.add` keeps the old order, appends only a new element, and keeps the set duplicate-free |
| Seqs.AddAllUnique | lib/project-parser.ts:138-139 | inserting a list keeps the start list as prefix, and everything after the prefix is distinct |
| Seqs.TakeAddAllUnique | lib/project-parser.ts:138-145 | capping an insertion keeps the capped start list as prefix, and every later element is new |
| Seqs.Dedup | lib/project-parser.ts:110 | `Array.from(new Set(xs))` has no duplicates and the same members as `xs` |
| Seqs.TakeDedup | lib/project-parser.ts:110 | the first n distinct elements are distinct and from the input, and cover it when fewer than n are distinct |
| Seqs.DedupOrder | lib/project-parser.ts:110 | deduplicated elements appear in order of their first occurrence in the input |
| Seqs.TakeDedupOrder | lib/project-parser.ts:110 | capping keeps the first-appearance order |
| Seqs.FirstOccurrencesIsDedup | lib/project-parser.ts:222-225 | the `indexOf(x) === i` filter computes the same list as `Set` insertion |
| Seqs.Filter | lib/project-parser.ts:106 | keeps exactly the elements satisfying the predicate, each as often as it occurs in the input |
| Seqs.FilterAppend | lib/project-parser.ts:106 | filtering works piecewise over a concatenation, so the kept elements keep their order |
| Seqs.FilterInOrder | lib/project-parser.ts:138-141 | filtering a list in first-appearance order of a source keeps that order |
| Seqs.FilterDedupOrder | lib/project-parser.ts:138-141 | the kept elements of a deduplicated list come from the input, in order of first appearance |
| Seqs.NotIn | lib/project-parser.ts:138 | the test `!features.includes(f)` holds exactly for elements not in the list |
| Seqs.AddAllUniqueIsFilter | lib/project-parser.ts:135-142 | pushing each element not yet listed appends exactly the distinct elements the start list lacks, in order of first appearance |
| Seqs.TakeDedupFirst | lib/project-parser.ts:110 | a candidate is left out of `slice(0, n)` of the set only when the cap is reached, and then it first appears after every kept one |
| Seqs.RemoveAll | components/admin/project-form.tsx:114-119 | `filter(x => x !== v)` removes every copy of `v` and keeps every other element's count |
| Seqs.RemoveAllAppend | components/admin/project-form.tsx:117 | removal distributes over concatenation |
| Search.FindFirst | lib/project-parser.ts:30 | `match` returns the leftmost start where the pattern succeeds, or nothing if it succeeds nowhere |
| Search.FindFirstAt | lib/project-parser.ts:30 | a position where the pattern succeeds, with no earlier success, is the one `match` returns |
| Search.ScanAll | lib/project-parser.ts:76 | a global scan is empty exactly when no attempt succeeds, and every value comes from a successful attempt |
| Search.ScanAllStep | lib/project-parser.ts:76-78 | a global scan takes the leftmost match first and resumes where it ended |
| Search.LastWhere | lib/project-parser.ts:37 | the largest viable position in a range, or none exists |
| Patterns.RunThenLine | lib/project-parser.ts:37 | a greedy run followed by `([^\n]+)` stops at the largest split after which a non-newline follows |
| Patterns.LineFrom | lib/project-parser.ts:37 | a `([^\n]+)` capture is the whole rest of its line |
| Patterns.ManifestNameAt | lib/project-parser.ts:30 | a match has the `"name" : "..."` shape (any case), and the capture is the quoted name: non-empty and quote-free |
| Patterns.ManifestNameAtExact | lib/project-parser.ts:30 | conversely, whenever the text has that shape the pattern matches there and captures the quoted name |
| Patterns.HeadingAt | lib/project-parser.ts:37 | `#\s+([^\n]+)` picks the largest whitespace split, and fails exactly when no split works |
| Patterns.FilenameStem | lib/project-parser.ts:44 | `([^-]+)` is absent exactly for all-hyphen names; otherwise it is the first hyphen-free run |
| Patterns.GitHubAt | lib/project-parser.ts:57 | matches exactly when `github.com` (any case), `/` or `:`, and a path character are present; captures the maximal path run |
| Patterns.BlockAt | lib/project-parser.ts:71-72 | a match has the `"<name>" : { ... }` shape and captures the body up to the first `}` |
| Patterns.BlockAtExact | lib/project-parser.ts:71-72 | conversely, whenever the text has the block shape the pattern matches there and captures the body |
| Patterns.EntryAt | lib/project-parser.ts:76 | a match has the `"key": "value"` shape with a non-empty value, captures the key and ends after the closing quote of the value |
| Patterns.EntryAtExact | lib/project-parser.ts:76 | conversely, whenever the text has the entry shape the pattern matches there, captures the key and ends after the value |
| Patterns.EntryKeys | lib/project-parser.ts:76-79 | every key of the global scan is non-empty and quote-free; the scan is empty exactly when no entry matches |
| Patterns.EntryKeysLeftmost | lib/project-parser.ts:76-79 | every entry is found in order: the first key is that of the leftmost entry, the rest are found after it |
| Patterns.StripScope | lib/project-parser.ts:83 | `@scope/` is removed exactly when there is a non-empty scope and a slash, and nothing else changes |
| Patterns.TechLineAt | lib/project-parser.ts:101 | the alternatives are tried in source order: the result is that of the first keyword that matches, and there is none exactly when every keyword fails |
| Patterns.FirstKeyword | lib/project-parser.ts:101 | the first alternative of a list that matches decides, and there is none exactly when all fail |
| Patterns.Keyword | lib/project-parser.ts:101 | `<kw>[\s:]+([^\n]+)` takes the largest split of `[\s:]+` after which a non-newline follows, and fails exactly when no split works |
| Patterns.SectionEnd | lib/project-parser.ts:120 | the lazy section ends at the first `##` at or after the keyword, or at the end |
| Patterns.AfterHashes | lib/project-parser.ts:120 | `##?\s*` takes a second `#` when there is one, then every whitespace character |
| Patterns.SectionAt | lib/project-parser.ts:120 | matches exactly at a `#`, an optional second `#`, spaces and the keyword (any case); the section then runs to the first `##` after the keyword, or to the end |
| Patterns.BulletTexts | lib/project-parser.ts:122-125 | no bullet text crosses a line terminator; the scan is empty exactly when no bullet matches |
| Patterns.BulletAt | lib/project-parser.ts:122-125 | a bullet matches exactly when a mark can be followed by spaces and a non-terminator; the text is the rest of its line after the spaces, or empty when only spaces follow |
| Patterns.BulletTextsLeftmost | lib/project-parser.ts:122-125 | every bullet is found in order: the first text is that of the leftmost bullet, the rest are found after it |
| Patterns.GapAt | lib/project-parser.ts:153 | `\n+([^\n#]+)` matches exactly when a newline run is followed by a character that is neither newline nor `#`, and the capture starts right after the whole run |
| Patterns.UntilHash | lib/project-parser.ts:153 | a `([^\n#]+)` capture is the whole run of characters that are neither newline nor `#` |
| Patterns.OverviewAt | lib/project-parser.ts:153 | fails exactly when no newline run after the Overview keyword is followed by text; a capture starts on a character that is neither newline nor `#` |
| Patterns.OverviewAtFirstGap | lib/project-parser.ts:153 | the lazy gap makes the capture follow the first newline run after the keyword that text follows |
| Patterns.TitleThen | lib/project-parser.ts:160 | `#\s+` followed by the rest stops at the largest viable split, and fails exactly when none exists |
| Patterns.TitleTextAt | lib/project-parser.ts:160 | fails exactly when no split of `#\s+` lets a line, newlines and text follow; a capture starts on text |
| Patterns.TitleTextAtLargest | lib/project-parser.ts:160 | when the pattern can match, the largest viable split of `#\s+` decides where the capture starts |
| Patterns.TitleParagraphAt | lib/project-parser.ts:167 | fails exactly when no split of `#\s+` lets a line and a blank line follow; a capture starts on a non-newline |
| Patterns.TitleParagraphAtLargest | lib/project-parser.ts:167 | when the pattern can match, the largest viable split of `#\s+` decides where the capture starts |
| ProjectParser.ManifestName | lib/project-parser.ts:30-31 | a found name is non-empty; there is none exactly when the pattern matches nowhere |
| ProjectParser.ManifestNameLeftmost | lib/project-parser.ts:30 | the name field that counts is the leftmost one |
| ProjectParser.HeadingTitle | lib/project-parser.ts:37-38 | a found title is a non-empty single line; there is none exactly when no heading matches |
| ProjectParser.HeadingTitleLeftmost | lib/project-parser.ts:37-38 | the heading that counts is the leftmost one, and its whole line is the title |
| ProjectParser.ExtractProjectName | lib/project-parser.ts:28-51 | priority: the capitalised trimmed manifest name, then a trimmed heading shorter than 50, then the capitalised first hyphen-free run of the filename, then "Untitled Project" |
| ProjectParser.NameFromFilename | lib/project-parser.ts:43-48 | `campor-backend.txt` with no other signal gives "Campor" |
| ProjectParser.GitHubSearch | lib/project-parser.ts:57 | finds the leftmost GitHub mention with its full path run, or reports that there is none anywhere |
| ProjectParser.StripGitSuffix | lib/project-parser.ts:59 | removes `.git` exactly when the path ends with it |
| ProjectParser.ExtractGitHubUrl | lib/project-parser.ts:56-62 | empty exactly when no GitHub path is mentioned; otherwise the https URL of the leftmost mention without `.git` |
| ProjectParser.CapitalizeAll | lib/project-parser.ts:87 | each part capitalised, count kept |
| ProjectParser.FormatDependency | lib/project-parser.ts:83-88 | the unscoped key character by character: as long, separators become spaces, each word start upper-cased, every other character kept |
| ProjectParser.WordCapsJoin | lib/project-parser.ts:85-88 | split, capitalise and join with spaces equals the character-wise display form |
| ProjectParser.FormatScopedExample | lib/project-parser.ts:83-88 | `@foo/bar-baz` becomes `Bar Baz` |
| ProjectParser.FormatAll | lib/project-parser.ts:85-88 | each key formatted, count kept |
| ProjectParser.DependencyNames | lib/project-parser.ts:71-98 | every name is between 1 and 29 characters; a text with no such block gives none |
| ProjectParser.DependencyNamesLeftmost | lib/project-parser.ts:71-98 | only the leftmost block is read: its keys in order, formatted, that pass the length filter |
| ProjectParser.FreeTextTechs | lib/project-parser.ts:101-108 | every item is trimmed and between 1 and 29 characters; a text with no technology line gives none |
| ProjectParser.FreeTextTechsLeftmost | lib/project-parser.ts:101-108 | only the leftmost technology line is read: the rest of that line split at `,` `&` `\|`, trimmed and length-filtered |
| ProjectParser.ExtractTechnologies | lib/project-parser.ts:67-111 | at most 30 distinct names, each a candidate of valid length; every candidate is present unless the cap is reached, and a candidate left out first appears after all 30 kept ones, so the first 30 distinct candidates are kept |
| ProjectParser.TechnologiesFound | lib/project-parser.ts:67-111 | some technology is extracted exactly when some candidate name is offered |
| ProjectParser.TechnologiesInFirstAppearanceOrder | lib/project-parser.ts:68-110 | technologies come in the order the candidates first appear |
| ProjectParser.SectionFeatures | lib/project-parser.ts:120-128 | every kept bullet is trimmed and 11 to 199 characters long; a text without the section gives none |
| ProjectParser.SectionFeaturesLeftmost | lib/project-parser.ts:120-128 | only the leftmost section is read: each bullet of feature length is kept as often as it occurs |
| ProjectParser.ExtractFeatures | lib/project-parser.ts:116-146 | at most 20 trimmed items of valid length, drawn from the two sections; every core item is present unless the cap is reached; the list is the first 20 of the Features items followed by the distinct Core Features items they lack, in bullet order |
| ProjectParser.OverviewStart | lib/project-parser.ts:153 | the Overview capture start, absent exactly when the pattern matches nowhere |
| ProjectParser.OverviewStartLeftmost | lib/project-parser.ts:153 | the leftmost match of the Overview pattern decides |
| ProjectParser.TitleTextStart | lib/project-parser.ts:160 | the title-text capture start, absent exactly when the pattern matches nowhere |
| ProjectParser.TitleTextStartLeftmost | lib/project-parser.ts:160 | the leftmost match of the title-text pattern decides |
| ProjectParser.TitleParagraphStart | lib/project-parser.ts:167 | the paragraph capture start, absent exactly when the pattern matches nowhere |
| ProjectParser.TitleParagraphStartLeftmost | lib/project-parser.ts:167 | the leftmost match of the paragraph pattern decides |
| ProjectParser.FeaturesOrder | lib/project-parser.ts:116-146 | the Features section leads in its own order (repeats kept); every later item is new |
| ProjectParser.CoreFeaturesInOrder | lib/project-parser.ts:133-145 | the items after the Features ones are Core Features bullets, in the order they first appear in that section |
| ProjectParser.CoreFeaturesOrder | lib/project-parser.ts:133-145 | after the start list, a capped insertion lists core items in their first-appearance order |
| ProjectParser.OverviewCandidate | lib/project-parser.ts:153-155 | present exactly when the Overview pattern matches; the capture is the whole run of non-newline, non-`#` characters at the capture start |
| ProjectParser.TitleTextCandidate | lib/project-parser.ts:160-162 | present exactly when the title pattern matches; the capture is the whole run of non-newline, non-`#` characters at the capture start |
| ProjectParser.TitleParagraphCandidate | lib/project-parser.ts:167-169 | present exactly when the paragraph pattern matches; the capture is the rest of the line at the capture start |
| ProjectParser.Shorten | lib/project-parser.ts:156 | the first min(300, length) characters of the trimmed candidate |
| ProjectParser.ExtractDescription | lib/project-parser.ts:151-174 | `""`, or 21 to 300 characters with no newline; `""` exactly when no candidate is usable; candidates are tried in priority order |
| ProjectParser.ShortLinesNoDescription | lib/project-parser.ts:151-174 | text whose lines are all at most 20 characters has no description |
| ProjectParser.ShortSentenceNoDescription | lib/project-parser.ts:160-173 | `# MyProj\n\nA cool app.` has description `""` |
| ProjectParser.FrontendSection | lib/project-parser.ts:186-192 | the frontend paragraph is empty exactly when there are no technologies; otherwise it starts with its header |
| ProjectParser.BackendSection | lib/project-parser.ts:194-200 | the backend paragraph is empty exactly when there are no technologies; otherwise it starts with its header |
| ProjectParser.SectionsCite | lib/project-parser.ts:186-200 | right after its header each paragraph cites its first three technologies, and its Key Technologies line lists the first five |
| ProjectParser.Design | lib/project-parser.ts:183-207 | starts with the introduction and ends with the deployment paragraph; the frontend header follows the introduction exactly when frontend technologies exist, and the backend header follows the frontend paragraph exactly when backend technologies exist |
| ProjectParser.DesignPlacesSections | lib/project-parser.ts:186-200 | the frontend paragraph sits right after the introduction and the backend paragraph right after it |
| ProjectParser.BackendFollows | lib/project-parser.ts:194-202 | after the frontend paragraph comes the backend header exactly when there is a backend paragraph |
| ProjectParser.GenerateSystemDesign | lib/project-parser.ts:179-207 | the frontend paragraph follows the introduction exactly when the frontend text offers a technology name; the backend paragraph follows the frontend one exactly when the backend text does; with neither, the text is the introduction and deployment alone |
| ProjectParser.HeadersDiffer | lib/project-parser.ts:187-202 | the three paragraph headers differ at their fifth character |
| ProjectParser.Layout | lib/project-parser.ts:182-207 | introduction, optional paragraphs and closing paragraph can be read back from the concatenation |
| ProjectParser.Combined | lib/project-parser.ts:219 | the combined text is the backend, `"\n\n"`, then the frontend |
| ProjectParser.DescriptionOrFallback | lib/project-parser.ts:247 | never empty; the extracted description when there is one, the template otherwise |
| ProjectParser.FeaturesOrFallback | lib/project-parser.ts:252 | never empty; the extracted features when there are any, one "Built with" line otherwise |
| ProjectParser.ParseProjectFiles | lib/project-parser.ts:213-270 | title, description, features, tags, link, demo, challenges and design come from the combined text and the tags; long description and overview start with the title |
| ProjectParser.ParsedTexts | lib/project-parser.ts:231-237 | the long description is the title, the fixed middle and the extracted description; the overview is the title and the fixed tail |
| ProjectParser.ParsedDetails | lib/project-parser.ts:242-243 | the additional details cite the first five tags |
| ProjectParser.ParsedTechStack | lib/project-parser.ts:263-268 | the stack lists the first ten technologies of each half and the two fixed texts |
| ProjectParser.ParsedProjectShape | lib/project-parser.ts:222-252 | at most 20 distinct tags, each a technology of one half; non-empty description and features |
| ProjectParser.CappedTags | lib/project-parser.ts:249 | the first 20 tags are distinct technologies of one half or the other |
| ProjectParser.TagsAreDedup | lib/project-parser.ts:222-225 | the tags are the deduplication of backend then frontend technologies |
| ProjectParser.BackendTagsFirst | lib/project-parser.ts:222-225 | every backend technology is a tag, ahead of every frontend-only one |
| ProjectParser.DedupOfNoDupPrefix | lib/project-parser.ts:222-225 | deduplicating a duplicate-free list followed by more keeps that list as prefix |
| ProjectParser.DedupOfNoDup | lib/project-parser.ts:225 | a duplicate-free list is its own deduplication |
| ProjectParser.ConvertToDatabaseFormat | lib/project-parser.ts:275-303 | each of the seven text columns takes a non-empty override, else the parsed value; image is the override; category defaults to personal; position and demo are null exactly when empty and otherwise hold their value; the other columns are fixed |
| ProjectParser.ConvertWithoutOverrides | lib/project-parser.ts:279-291 | without overrides the row carries the parsed text unchanged |
| ProjectParser.ParsedRow | lib/project-parser.ts:275-303 | a parsed-then-converted row keeps the parser's title, link, tags and challenges, with a null demo |
| Records.NullIfEmpty | components/admin/project-form.tsx:248 | `s \|\| null` is null exactly for the empty string |
| Records.NullIfZero | components/admin/project-form.tsx:256 | `n \|\| null` is null exactly for 0 |
| Records.NullIfNoItems | components/admin/project-form.tsx:257 | an empty list becomes null, any other list is kept |
| Records.Or | lib/project-parser.ts:247 | `a \|\| b` is `a` unless it is empty |
| Json.Get | components/admin/project-generator.tsx:113 | a property is defined exactly when an object has the key |
| Json.OrNull | components/admin/project-generator.tsx:78 | `v \|\| null` keeps exactly the truthy values |
| Json.OrDefault | components/admin/project-generator.tsx:98 | `v ?? d` replaces only undefined and null |
| Json.OrNullWithinOrDefault | components/admin/project-generator.tsx:78-98 | `\|\|` keeps every truthy value `??` keeps, and nulls whatever `??` nulls |
| ProjectGenerator.FirstMissing | components/admin/project-generator.tsx:110-115 | the first required field that is falsy, with every earlier one truthy |
| ProjectGenerator.ValidateProjectData | components/admin/project-generator.tsx:105-122 | valid exactly for objects with the six required fields truthy and a known category; scalars give "Invalid JSON format"; any object or array with a falsy required field gets the message naming the first one; every error message is non-empty |
| ProjectGenerator.ParseArrayField | components/admin/project-generator.tsx:57-70 | falsy values give `[]`, arrays are kept |
| ProjectGenerator.ParseArrayFieldStringified | components/admin/project-generator.tsx:60-64 | a stringified array reads as the array itself |
| ProjectGenerator.ParseArrayFieldNotArray | components/admin/project-generator.tsx:62-67 | a string that does not parse to an array reads as `[]` |
| ProjectGenerator.ConvertToDbFormat | components/admin/project-generator.tsx:75-100 | required fields copied; each of the eleven optional columns holds its value when truthy and is null otherwise; the four lists go through `parseArrayField`; publication defaults to false |
| ProjectGenerator.ValidatedRow | components/admin/project-generator.tsx:105-122 | a validated record converts to a row with truthy required columns and a known category |
| ProjectGenerator.RecordFields | components/admin/project-generator.tsx:110-121 | a validated record has each required field, truthy, and a category of personal or hackathon |
| ProjectGenerator.UploadedRecord | components/admin/project-generator.tsx:147-154 | the first element of a non-empty array, or the value itself; absent only for `[]` |
| ProjectGenerator.HandleFileUpload | components/admin/project-generator.tsx:124-190 | wrong type exactly for names not ending in `.json`; loaded only for validated records; the empty array and parse errors give their messages; a record that fails validation shows the validator's own message (never the fallback, which is never needed); every rejection has a message |
| ProjectGenerator.UploadLoadsRecords | components/admin/project-generator.tsx:142-173 | an upload loads exactly when it is a `.json` file whose record validates |
| Contact.EmailPatternIsShape | app/actions/contact.ts:20 | the regex matches exactly the strings with no whitespace, one `@` that is not first, and a `.` with characters on both sides after it |
| Contact.NoAtNoMatch | app/actions/contact.ts:20 | an address without `@` is rejected |
| Contact.CheckEmail | app/actions/contact.ts:20-21 | the one-pass check accepts exactly the strings the regex matches |
| Contact.SubmitContactForm | app/actions/contact.ts:12-47 | empty fields, then a bad address, are rejected without a write; otherwise an unread row is written and the outcome of the write decides the message |
| FormLists.AddItem | components/admin/project-form.tsx:104-112 | appends the trimmed draft exactly when it is non-empty and new, then clears the box; otherwise nothing changes |
| FormLists.RemoveItem | components/admin/project-form.tsx:114-119 | the item is gone and every other item's count is kept |
| FormLists.RemoveUndoesAdd | components/admin/project-form.tsx:104-119 | removing what was just added restores the list |
| FormLists.AddIdempotent | components/admin/project-form.tsx:105 | adding the same text twice adds it once |
| FormLists.EditorKeepsWellFormed | components/admin/project-form.tsx:104-170 | lists built by the editor stay duplicate-free, with no blank and no untrimmed items |
| ProjectForm.WithList | components/admin/project-form.tsx:106-109 | replacing one list leaves the other lists alone |
| ProjectForm.Add | components/admin/project-form.tsx:104-163 | adding to one list leaves the other lists and the text fields alone |
| ProjectForm.Remove | components/admin/project-form.tsx:114-170 | removing from one list leaves the other lists alone |
| ProjectForm.RemoveUndoesAddToForm | components/admin/project-form.tsx:104-170 | removing what was just added restores the whole form |
| ProjectForm.Submit | components/admin/project-form.tsx:229-259 | accepted exactly when the required fields, features, challenges and overview are present; the errors come in source order; the row has no empty optional value |
| ProjectForm.EmptyFormRejected | components/admin/project-form.tsx:229-231 | a fresh form is rejected for missing required fields |
| ProjectForm.Load | components/admin/project-form.tsx:70-83 | lists load unchanged; a null team size loads as 0 |
| ProjectForm.LoadSubmitRoundTrip | components/admin/project-form.tsx:245-259 | loading a normal row and submitting it writes the same row |
| ProjectForm.SubmitLoadRoundTrip | components/admin/project-form.tsx:70-83 | submitting an acceptable form and loading the row gives the form back |
| ExperienceForm.WithList | components/admin/experience-form.tsx:97-100 | replacing one list leaves the other lists alone |
| ExperienceForm.Add | components/admin/experience-form.tsx:95-188 | adding to one list leaves the other lists and the other fields alone |
| ExperienceForm.Remove | components/admin/experience-form.tsx:105-195 | removing from one list leaves the other lists alone |
| ExperienceForm.RemoveUndoesAddToForm | components/admin/experience-form.tsx:95-195 | removing what was just added restores the whole form |
| ExperienceForm.Submit | components/admin/experience-form.tsx:239-270 | accepted exactly when the six required fields and a description item are present; the errors come in source order; the row has no empty optional value |
| ExperienceForm.EmptyFormRejected | components/admin/experience-form.tsx:239-248 | a fresh form is rejected for missing required fields |
| ExperienceForm.Load | components/admin/experience-form.tsx:60-79 | the description loads unchanged; null team size and skills load as 0 and `[]` |
| ExperienceForm.LoadSubmitRoundTrip | components/admin/experience-form.tsx:254-270 | loading a normal row and submitting it writes the same row |
| ExperienceForm.SubmitLoadRoundTrip | components/admin/experience-form.tsx:60-79 | submitting an acceptable form and loading the row gives the form back |

## Left out

- Database writes and reads, file reading, image and logo uploads, authentication, rendering and toasts are not modelled. The contact insert and `JSON.parse` are parameters, and only their outcomes are modelled.
- `toUpperCase` and the regex `i` flag work on ASCII letters only here. JavaScript also changes the case of non-ASCII letters.
- String lengths are counted in Unicode characters, not UTF-16 code units. The limits 20, 30, 50, 200 and 300 therefore differ from the source for text outside the Basic Multilingual Plane.
- JSON numbers are integers. Floating-point values and `NaN` (which is falsy) are not modelled.
- A JSON object's keys are exactly the fields it holds. Inherited properties (for example `constructor`) are not modelled.
- The date conversion in the editors' `useEffect` (`new Date(...).toISOString().split("T")[0]`) is left out; `Load` copies the stored date text.
- ProjectForm.Load: reads a null `long_description` as `""`. The source's `...project` keeps the null, and a resubmission writes it back as null. The round trips therefore assume a stored long description.
- The editors' `useEffect` copies every extra column of the stored row (`...project`) into the form. `ProjectForm.Load` and `ExperienceForm.Load` model only the declared fields.
- The override record of `convertToDatabaseFormat` has only the fields the function reads. The source builds a fixed object (`lib/project-parser.ts:279-302`), so other override fields, `tags` and `features` included, never reach the row.
- ConvertToDbFormat: is stated only for objects that hold the six required fields. The importer calls it only after `validateProjectData` accepts the record (`components/admin/project-generator.tsx:157-171`), and `ProjectGenerator.ValidatedRow` covers that call.
- `ProjectGenerator.HandleFileUpload` shows the parser's error message. That message text depends on the JavaScript engine, so it is an input.
- `Contact.SubmitContactForm` does not model the console logging in the error paths.
