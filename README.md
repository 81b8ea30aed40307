# portfolio-mcp, modelled in Dafny

portfolio-mcp is a content-management server for a personal site. It keeps
blog posts as `.mdx` files with a YAML-like frontmatter block, and a project
list as a JavaScript module (`const projectsData = [...]`). It edits both in
two places:

- locally, through tool classes (`PostTools`, `ProjectTools`, `GitTools`);
- remotely, through a serverless handler that reads and writes the same
  files in a GitHub repository via its contents API.

This project models the logic at the core of that, and proves properties of it:

- **Frontmatter and slugs** (`text.dfy`, `slug.dfy`, `frontmatter_*.dfy`).
  - `titleToSlug`.
  - The minimal frontmatter parser of the API.
  - Both frontmatter serialisers: the local one escapes `'` and emits two
    loops; the API one dedups keys through a `Set` and does not escape.
  - A restricted round trip: the API's parser reads back what its own
    serialiser wrote.
- **Project list** (`project_list.dfy`, `project_codec.dfy`, `project_read.dfy`).
  - The `Project` record and the in-memory list operations (validate, find,
    append, shallow merge, splice).
  - The two file writers, and the two readers' text transforms (comment
    stripping, extraction of the array literal, quote and trailing-comma
    rewriting). `JSON.parse` is a parameter.
- **Local tools** (`project_tools.dfy`, `post_tools.dfy`). Classes holding:
  - the projects file as an `Option<string>`;
  - the posts directory as a map from file name to text, with `gray-matter`
    as a parameter.
- **Remote API** (`portfolio_api.dfy`).
  - A class holding the GitHub repository as a map from path to content and
    `sha`. A PUT or DELETE is accepted only when it names the current `sha`,
    or names none for a new file.
  - A ghost log of the requests sent.
  - The post operations and the project handler branches on top of it.
- **Git gate** (`git_tools.dfy`).
  - `getStatus` list assembly.
  - The three-way `commitAndPush` decision.
  - The ordered add/commit/push sequence over an abstract repository, whose
    failures come from the environment.

Values from JavaScript objects are modelled as follows:

- A frontmatter object is an ordered `seq<Entry>`, in insertion order. That is
  JavaScript's order for keys that are not integer-like; see "## Left out".
- Values are strings, booleans, arrays, or `Other` (anything else, with its
  truthiness).
- Project fields are `Option<string>`, since records arrive from
  `JSON.parse` or from request bodies.

Two behaviours of the code are worth noting:

- Neither project decoder quotes the object keys the writers emit, so a
  written projects file is not read back by `JSON.parse`.
  `ProjectReread.WrittenNeverReadsBack` proves that both readers fail on every
  non-empty written file, for any `JSON.parse` that rejects a bare key.
- `getStatus` does not deduplicate the changed paths; `GitTools.StatusKeepsDuplicates`
  exhibits a status that lists one path twice.

## Model

| member | source | states |
|---|---|---|
| `Text.Lower` | src/utils.ts:3 | ASCII `toLowerCase`: same length, no upper-case letter left, other characters unchanged, each capital shifted by 32 |
| `Text.Trim` | src/utils.ts:4 | the result has no leading or trailing whitespace, and a trimmed or space-free input is returned unchanged |
| `Text.TrimMiddle` | src/utils.ts:4 | the trimmed text is the input's own middle: only whitespace lies before it and only whitespace after it |
| `Text.EscapeQuotesRoundTrip` | src/utils.ts:29 | escaping `'` as `\'` loses nothing: unescaping gives the original string back |
| `Text.EscapeQuotes` | src/project-tools.ts:91 | a quote-free string is unchanged, and every `'` in the result is preceded by a backslash |
| `Text.SplitJoin` | api/portfolio.ts:54 | `split` inverts `join` on parts that do not contain the separator |
| `Text.Split` | api/portfolio.ts:46 | `split` yields at least one part, no part holds the separator, and joining the parts gives the input back |
| `Text.NatToStringValue` | src/git-tools.ts:42 | the decimal rendering of a count reads back as that count |
| `Slug.TitleToSlugShape` | src/utils.ts:1-8 | every slug character is a lower-case ASCII letter, digit, `_` or `-`; there is no whitespace and never two hyphens in a row |
| `Slug.TitleToSlugIdempotent` | src/utils.ts:2-7 | slugging a slug changes nothing |
| `Slug.SlugIsFixedPoint` | src/utils.ts:2-7 | every string of slug shape is its own slug |
| `Slug.SqueezeHyphensShape` | src/utils.ts:7 | `replace(/-+/g, '-')` leaves no double hyphen, adds no character, and keeps a string that has none |
| `Slug.HyphenateSpacesNoSpace` | src/utils.ts:6 | `replace(/\s+/g, '-')` leaves no whitespace |
| `Slug.RemoveDisallowedKeeps` | src/utils.ts:5 | `replace(/[^\w\s-]/g, '')` keeps only word characters, whitespace and `-`, and keeps a string made only of those |
| `Slug.HelloWorldSlug` | src/utils.ts:1-8 | `titleToSlug("Hello World") == "hello-world"` |
| `Slug.MyFirstPostSlug` | api/portfolio.ts:89-91 | `titleToSlug("My First Post!") == "my-first-post"` |
| `FrontmatterData.Lookup` | api/portfolio.ts:76 | a key is found exactly when it is present; with unique keys the value found is that entry's |
| `FrontmatterData.PutLookup` | api/portfolio.ts:64 | `fm[key] = value` makes the key read as the new value and leaves every other key as it was |
| `FrontmatterData.PutKeys` | api/portfolio.ts:64 | assigning an existing key keeps the key order; a new key goes last |
| `FrontmatterData.PutUnique` | api/portfolio.ts:64 | assignment keeps keys unique |
| `FrontmatterData.MergeLookup` | api/portfolio.ts:134 | in `{ ...base, ...updates }` a key reads as the update's value when updated and as the base's otherwise |
| `FrontmatterData.MergeKeepsOrder` | src/post-tools.ts:70 | the spread keeps the base's keys first, in their order |
| `FrontmatterData.MergeUnique` | src/post-tools.ts:70 | the spread of an object with unique keys has unique keys |
| `FrontmatterParse.ParseFrontmatter` | api/portfolio.ts:41-67 | the line loop computes exactly the parse function |
| `FrontmatterParse.MatchBlockIff` | api/portfolio.ts:42 | the block regex matches exactly when the text starts with `---\n` and has a later `\n---` |
| `FrontmatterParse.MatchBlockFirstFence` | api/portfolio.ts:42 | the lazy group ends at the first closing fence; one newline after it is consumed and the rest is the content |
| `FrontmatterParse.ParseFallback` | api/portfolio.ts:43 | without a block, the frontmatter is empty and the content is the raw input, unchanged |
| `FrontmatterParse.ParseLineAtFirstColon` | api/portfolio.ts:47-50 | a line splits at its first colon, key and value trimmed |
| `FrontmatterParse.ParseLinesSkipsNoColon` | api/portfolio.ts:48 | a line without a colon is skipped |
| `FrontmatterParse.ParseLinesLaterWins` | api/portfolio.ts:64 | a later line for a key overwrites the earlier value in place; other keys are unaffected |
| `FrontmatterParse.ParseLinesUnique` | api/portfolio.ts:45-65 | the parsed frontmatter never holds a key twice |
| `FrontmatterParse.ParseValueBracketed` | api/portfolio.ts:53-55 | bracketed text becomes the list of its comma-separated parts, each trimmed and stripped of one outer quote |
| `FrontmatterParse.ParseValueBooleans` | api/portfolio.ts:57-58 | exactly `true` and `false` become booleans |
| `FrontmatterParse.ParseValueQuoted` | api/portfolio.ts:60-61 | text in matching single or double quotes loses them |
| `FrontmatterParse.ParseValueRaw` | api/portfolio.ts:53-62 | text that is not bracketed, not `true` or `false`, and not in matching single or double quotes stays a raw string |
| `FrontmatterParse.ParseValueUnmatched` | api/portfolio.ts:53-62 | an unclosed bracket, an unclosed quote and mismatched quotes each leave the text raw |
| `FrontmatterParse.EmptyBracketsGiveOneEmptyElement` | api/portfolio.ts:54 | `[]` is read as a one-element list holding `""` |
| `FrontmatterBuild.BuildFrontmatterLocal` | src/utils.ts:18-52 | the two push loops compute the local serialisation |
| `FrontmatterBuild.PushLines` | src/utils.ts:23-34 | the loop over a key list appends exactly the rendered lines of the keys present with a renderable value, in list order |
| `FrontmatterBuild.PushExtraLines` | src/utils.ts:37-48 | the loop over the object's keys appends exactly the rendered lines of the non-preferred keys with a renderable value, in object order |
| `FrontmatterBuild.BuildFrontmatterApi` | api/portfolio.ts:69-87 | the push loop over the deduplicated keys computes the API serialisation |
| `FrontmatterBuild.FencedShape` | src/utils.ts:19 | the output starts with a `---` line and ends with one |
| `FrontmatterBuild.FencedEmpty` | src/utils.ts:50-51 | with no renderable value the output is two fences |
| `FrontmatterBuild.WrittenOrder` | src/utils.ts:22-48 | every key is written at most once, and every preferred key precedes every extra key |
| `FrontmatterBuild.WrittenIff` | src/utils.ts:24-32 | a key is written exactly when it is present with a string, boolean or array value |
| `FrontmatterBuild.WrittenLookup` | src/utils.ts:25-32 | each written key carries its value from the input |
| `FrontmatterBuild.ExtrasIff` | src/utils.ts:37-38 | the second loop handles exactly the keys that are not preferred |
| `FrontmatterBuild.ExtrasDistinct` | src/utils.ts:37 | the extra keys come once each, in input order |
| `FrontmatterBuild.SelectedIff` | src/utils.ts:23-34 | a loop over keys emits exactly the keys present with a renderable value |
| `FrontmatterBuild.SelectedUnique` | src/utils.ts:23-34 | a loop over distinct keys emits each at most once |
| `FrontmatterBuild.DedupPreferredThen` | api/portfolio.ts:72 | the `Set` of preferred keys followed by the object's keys is the preferred keys followed by the extras |
| `FrontmatterBuild.ApiKeysCanonical` | api/portfolio.ts:72 | the API's key order is the preferred keys then the object's other keys |
| `FrontmatterBuild.ApiSelectsWritten` | api/portfolio.ts:74-84 | the API serialiser writes the same entries, in the same order, as the local one |
| `FrontmatterBuild.ApiMatchesLocal` | api/portfolio.ts:77-83 | without quotes in strings and with only string array elements, both serialisers write the same text |
| `FrontmatterBuild.PlainLineAgrees` | api/portfolio.ts:78-82 | the two serialisers render a plain value on the same line |
| `FrontmatterRoundTrip.ApiRoundTrip` | api/portfolio.ts:41-87 | parsing the API serialisation followed by a blank line and a body gives the written entries and the trimmed body, for trimmed colon-free keys, newline-free strings and non-empty arrays of plain strings |
| `FrontmatterRoundTrip.ApiRoundTripLookup` | api/portfolio.ts:118 | after the round trip every key reads as its input value when written, and as absent otherwise |
| `FrontmatterRoundTrip.EmptyFrontmatterNotRecovered` | api/portfolio.ts:42 | for every body that holds no `\n---` and does not open with `---`: an empty frontmatter is written as two adjacent fences, the regex does not match them, and the whole text comes back as content |
| `FrontmatterRoundTrip.RuleInBodyClosesEmptyBlock` | api/portfolio.ts:42-66 | when such a body holds a `\n---` line, that line closes the block instead: the fences and the body's first line are parsed as frontmatter, and the rest is the content |
| `FrontmatterRoundTrip.ParseValueText` | api/portfolio.ts:53-62 | each safe value's rendering parses back to the same value |
| `FrontmatterRoundTrip.ParseRenderedLines` | api/portfolio.ts:46-65 | the rendered lines of unique safe entries parse back to those entries |
| `ProjectList.FindIndex` | src/project-tools.ts:40 | `findIndex` finds the first record with the title, or reports that none has it |
| `ProjectList.ValidateIff` | src/project-tools.ts:21-24 | a project passes validation exactly when title, description, imgSrc and href are truthy |
| `ProjectList.ValidateReportsTitleFirst` | src/project-tools.ts:21 | a missing title is the error reported, before any other field |
| `ProjectList.AddAppends` | src/project-tools.ts:28-32 | a create fails exactly when a record has the title; otherwise the list is the old one with the project last |
| `ProjectList.AddKeepsUnique` | src/project-tools.ts:28-33 | a create keeps titles unique |
| `ProjectList.ApiCreateAllowsDuplicate` | api/portfolio.ts:286 | appending with no check can produce a list with a title twice |
| `ProjectList.UpdateShape` | src/project-tools.ts:40-51 | an update fails exactly when no record has the title; otherwise only the first match changes, to its shallow merge, and the length is kept |
| `ProjectList.UpdateKeepsPlace` | src/project-tools.ts:46-47 | an update that keeps the title leaves the record findable at the same index |
| `ProjectList.UpdateCanBreakUniqueness` | src/project-tools.ts:46 | an update that renames a record to another's title makes titles collide |
| `ProjectList.DeleteShape` | src/project-tools.ts:55-63 | a delete fails exactly when no record has the title; otherwise only the first match goes, the order of the others is kept and the length drops by one |
| `ProjectList.DeleteKeepsUnique` | src/project-tools.ts:62 | a delete keeps titles unique, and the title is then gone |
| `ProjectList.MergeNoChanges` | src/project-tools.ts:46 | spreading an empty update changes nothing |
| `ProjectList.MergeIdempotent` | api/portfolio.ts:295 | applying the same update twice is the same as once |
| `ProjectList.MergeAssociative` | api/portfolio.ts:295 | two updates in a row equal one merged update |
| `ProjectCodec.BuildRecord` | src/project-tools.ts:89-101 | the line-pushing loop computes a record's text, or the local writer's failure on a missing required field |
| `ProjectCodec.WriteProjects` | src/project-tools.ts:86-107 | the map over records computes the file text, or the first record's failure |
| `ProjectCodec.Fields` | api/portfolio.ts:191-198 | a record that is written has at least the four required field lines |
| `ProjectCodec.FieldsFailIff` | src/project-tools.ts:91-94 | only the local writer fails, and exactly on a record missing title, description, imgSrc or href |
| `ProjectCodec.ApiWritesEmptyForMissing` | api/portfolio.ts:191 | the API writer writes `''` for a missing title |
| `ProjectCodec.FieldOrder` | src/project-tools.ts:91-98 | the fields come in the order title, description, imgSrc, href, then github, tech1, tech2, tech3 each only when truthy |
| `ProjectCodec.FieldLinesShape` | api/portfolio.ts:191-199 | each field line is the name and the escaped, single-quoted value; all but the last end in a comma; escaping loses nothing |
| `ProjectCodec.UncommaAgrees` | api/portfolio.ts:199 | `slice(0, -1)` and `replace(/,$/, '')` agree on a field line |
| `ProjectCodec.WritersAgree` | src/project-tools.ts:89-102 | with all required fields present the two writers produce the same record text |
| `ProjectCodec.FilesAgree` | api/portfolio.ts:189-204 | with all required fields present the two writers produce the same file |
| `ProjectCodec.FileTemplate` | api/portfolio.ts:204 | the file starts with `const projectsData = [` and ends with `];`, a blank line and the default export |
| `ProjectCodec.WrittenStartsWithHead` | src/project-tools.ts:89-104 | a non-empty written file opens with the header, `[`, `{` and the unquoted `  title: '` line |
| `ProjectRead.ReadLocal` | src/project-tools.ts:66-84 | `Invalid projects file format` exactly when no array literal is found after stripping comment lines; once one is found, `Failed to parse projects` exactly when `JSON.parse` rejects the rewritten literal, and otherwise its list |
| `ProjectRead.ReadApi` | api/portfolio.ts:165-186 | the same for the API reader, with its own comment strip and rewrites |
| `ProjectRead.LocalStripKeepsSlashes` | src/project-tools.ts:68 | `//` after other text on a line is kept |
| `ProjectRead.LocalStripDropsCommentLine` | src/project-tools.ts:68 | a line whose first non-blank characters are `//` is emptied up to its line terminator |
| `ProjectRead.LocalStripKeepsLine` | src/project-tools.ts:68 | a line that is not a comment line is kept whole |
| `ProjectRead.ApiStripCutsAtSlashes` | api/portfolio.ts:170 | the API strip removes everything from the first `//` to the end of the line |
| `ProjectRead.ApiStripCutsUrl` | api/portfolio.ts:170 | the API strip cuts a URL value short after `https:` |
| `ProjectRead.ApiStripNoComment` | api/portfolio.ts:170 | no `//` is left after the API strip |
| `ProjectRead.ArraySpan` | api/portfolio.ts:173 | the match runs from the header's `[` to the first `];` after it |
| `ProjectRead.FindHeaderFirst` | src/project-tools.ts:69 | the header found is the leftmost one: no earlier position starts a header |
| `ProjectRead.FindHeaderNone` | src/project-tools.ts:69 | when the search finds nothing, no later position starts a header |
| `ProjectRead.ExtractFirstEnd` | src/project-tools.ts:69 | the extracted text is bracketed and holds no earlier `];` |
| `ProjectRead.NoHeaderInvalid` | src/project-tools.ts:70-72 | a file without the `const projectsData = [` header is reported as invalid |
| `ProjectRead.AllDoubleQuotes` | src/project-tools.ts:77 | every `'` becomes `"` and nothing else changes |
| `ProjectRead.DropCommaRemoves` | src/project-tools.ts:78-79 | a comma followed by blanks and the closing bracket is removed, blanks included |
| `ProjectRead.DropCommaPlain` | api/portfolio.ts:180-181 | text without a comma is unchanged |
| `ProjectRead.DoubleCommaSurvives` | api/portfolio.ts:180 | only the last of two commas before `]` is removed |
| `ProjectRead.SingleToDoubleValue` | api/portfolio.ts:178 | a single-quoted value after a colon becomes `: "value"` |
| `ProjectRead.EscapedQuoteEndsValue` | api/portfolio.ts:178 | a quote escaped by the writer ends the value for the API rewrite, leaving `\"` behind |
| `ProjectRead.TabsToSpaces` | api/portfolio.ts:183 | tabs and carriage returns become spaces and nothing else changes |
| `ProjectReread.ExtractHead` | src/project-tools.ts:69 | the array literal found in a written file opens with `[`, `{` and the unquoted title key |
| `ProjectReread.LocalJsonHead` | src/project-tools.ts:76-79 | the local rewrites leave that opening as `[`, `{` and a bare `title` key followed by a colon |
| `ProjectReread.ApiJsonHead` | api/portfolio.ts:176-183 | the API rewrites leave the same bare key |
| `ProjectReread.LocalRejectsWritten` | src/project-tools.ts:66-84 | the local reader fails on any text that opens like a written file, for a `JSON.parse` that rejects a bare key |
| `ProjectReread.ApiRejectsWritten` | api/portfolio.ts:165-186 | the API reader fails on such a text too |
| `ProjectReread.WrittenNeverReadsBack` | src/project-tools.ts:66-107 | neither reader reads back a non-empty file written by either writer |
| `ProjectTools.Tools.ListProjects` | src/project-tools.ts:8-18 | `Projects file not found` exactly without the file; otherwise the decoder's result |
| `ProjectTools.Tools.WriteProjectsFile` | src/project-tools.ts:86-107 | the file becomes the regenerated text, or stays as it was when a record lacks a required field |
| `ProjectTools.Tools.CreateProject` | src/project-tools.ts:20-36 | validation first, then the listing, then the duplicate check; on success the file holds the old list with the project appended |
| `ProjectTools.Tools.UpdateProject` | src/project-tools.ts:38-52 | not found leaves the file alone; otherwise the file holds the list with the first match merged, and that record is returned |
| `ProjectTools.Tools.DeleteProject` | src/project-tools.ts:54-64 | not found leaves the file alone; otherwise the file holds the list without the first match |
| `ProjectTools.CreateWritesAppended` | src/project-tools.ts:28-33 | a validated create writes the old list plus the project, and only an old record can make the write fail |
| `PostTools.Tools.GetPost` | src/post-tools.ts:20-36 | `Post not found` exactly without the file; otherwise its frontmatter and trimmed body |
| `PostTools.Tools.CreatePost` | src/post-tools.ts:38-64 | the field checks in order, the slug, the existence check; then only the new path changes, to the frontmatter, a blank line and the content (`undefined` when none is given, after which `content.trim()` fails) |
| `PostTools.Tools.UpdatePost` | src/post-tools.ts:66-86 | the merged frontmatter and the new or kept body go to the same slug's path, whatever the new title |
| `PostTools.Tools.DeletePost` | src/post-tools.ts:88-97 | `Post not found` without the file; otherwise only that path is removed |
| `PostTools.Tools.WritePost` | src/post-tools.ts:54-57 | the post's path is set to the serialised frontmatter, a blank line and the body; no other path changes |
| `PostTools.Tools.ReadDir` | src/post-tools.ts:12 | the directory listing names every file once |
| `PostTools.Tools.MdxNames` | src/post-tools.ts:12 | the `.mdx` names of the directory, each exactly once, and no other name |
| `PostTools.Tools.ReadAll` | src/post-tools.ts:14-17 | the map reads each `.mdx` name's post, in order, under the name without `.mdx` |
| `PostTools.Tools.ListPosts` | src/post-tools.ts:10-18 | one post per `.mdx` name, read under the name without `.mdx`, none twice |
| `PostTools.ListedSlugs` | src/post-tools.ts:12-16 | distinct `.mdx` names give distinct slugs, and every name's slug is listed |
| `PostTools.CheckRequiredIff` | src/post-tools.ts:40-44 | a create passes the checks exactly when title, date, tags and summary are truthy and draft is defined |
| `PostTools.DraftFalseAccepted` | src/post-tools.ts:43 | `draft: false` passes the draft check |
| `PostTools.FileNameOfTitle` | src/post-tools.ts:46-48 | the stored name is the title's slug plus `.mdx`, and the slug reads back off it |
| `PortfolioApi.Repo.Put` | api/portfolio.ts:206-214 | a PUT is logged, and accepted exactly when it names the current sha, or none for a new path; the file then holds the content with its hash as sha, and a refused PUT changes nothing; every sha stays the hash of its content |
| `PortfolioApi.Repo.Remove` | api/portfolio.ts:154-161 | a DELETE is logged, accepted exactly when it names the current sha, and then removes only that path |
| `PortfolioApi.Repo.ListDir` | api/portfolio.ts:95 | a directory listing names every path directly inside the directory once; a directory with no file below it is absent and the listing fails with `Missing`, like a single-file GET |
| `PortfolioApi.Repo.GetPost` | api/portfolio.ts:108-113 | one GET; the parsed frontmatter, the body (trimmed when a frontmatter block is found, the raw text otherwise) and the file's sha; `Missing` exactly when the file is absent |
| `PortfolioApi.Repo.CreatePost` | api/portfolio.ts:115-130 | a title that is not a string fails before any request; otherwise exactly one PUT without a sha, with the message `Create post: ` and the title, of the frontmatter, a blank line and the content (`undefined` when none is given), refused when the post exists |
| `PortfolioApi.Repo.UpdatePost` | api/portfolio.ts:132-150 | a GET, then a PUT to the same path naming the sha that GET returned, so it is accepted; the file holds the merged frontmatter and the new or kept body |
| `PortfolioApi.Repo.DeletePost` | api/portfolio.ts:152-162 | a GET, then a DELETE naming its sha; only that path goes |
| `PortfolioApi.Repo.ListPosts` | api/portfolio.ts:94-106 | `Missing` exactly when no file lies below the posts directory, after the listing request alone; otherwise one post per `.mdx` file directly inside it, none twice, and no other entry, the requests sent being the listing followed by one GET per returned post, in order |
| `PortfolioApi.Repo.ListProjects` | api/portfolio.ts:165-186 | one GET of the projects file; the API reader's list and the file's sha |
| `PortfolioApi.Repo.WriteProjects` | api/portfolio.ts:188-215 | the regenerated file is PUT with the given sha, accepted exactly when that sha is current |
| `PortfolioApi.Repo.CreateProject` | api/portfolio.ts:284-289 | one GET, then the body is appended with no duplicate check and the file rewritten by one PUT under the sha just read, with the message `Create project: ` and the title |
| `PortfolioApi.Repo.UpdateProject` | api/portfolio.ts:290-298 | one GET; 404 and no write without a match; otherwise only the first match is merged and the file rewritten by one PUT with the message `Update project: ` and the title |
| `PortfolioApi.Repo.DeleteProject` | api/portfolio.ts:299-306 | one GET; 404 and no write without a match; otherwise only the first match is removed and the file rewritten by one PUT with the message `Delete project: ` and the title |
| `PortfolioApi.ApiWriterTotal` | api/portfolio.ts:191-194 | the API writer never fails, since missing fields become `''` |
| `PortfolioApi.EntrySlug` | api/portfolio.ts:99-100 | the slug of a `.mdx` entry maps back to that entry's path |
| `PortfolioApi.StaleShaRefused` | api/portfolio.ts:144 | after an accepted write that changes the content's hash, a write naming the sha read before it is refused, and every sha is still its content's hash |
| `PortfolioApi.SameContentKeepsSha` | api/portfolio.ts:144 | rewriting a file with the content it already holds changes nothing, so the old sha is still accepted |
| `PortfolioApi.CreateOverExistingRefused` | api/portfolio.ts:120-127 | a create over an existing post is refused |
| `GitTools.StatusOf` | src/git-tools.ts:15-22 | the files are created, modified, deleted and the rename targets, in that order, nothing removed; `hasChanges` exactly when the raw list is non-empty |
| `GitTools.StatusKeepsDuplicates` | src/git-tools.ts:16-21 | a path both modified and a rename target is listed twice |
| `GitTools.Git.GetStatus` | src/git-tools.ts:12-24 | the concatenation loop computes the status function |
| `GitTools.Git.CommitAndPush` | src/git-tools.ts:26-60 | no changes: success with no git call; unconfirmed: a dry run naming count and message, nothing changed; confirmed: add, commit, push in order, success only when all three go through; the tree is unchanged after a failed add, the staged status after a failed commit, and clean once committed |
| `GitTools.Git.RepeatDryRun` | src/git-tools.ts:38-44 | two unconfirmed calls give the same dry run and leave the repository unchanged |
| `GitTools.DecideIff` | src/git-tools.ts:29-44 | each of the three outcomes holds exactly in its own case; `confirmed` defaults to false |
| `GitTools.Issued` | src/git-tools.ts:47-50 | the calls issued are a prefix of add, commit, push, all three when nothing fails |
| `GitTools.DryRunMessageMentions` | src/git-tools.ts:42 | the file count and the commit message can both be read back off the dry-run message |

## Left out

- I/O is left out. This covers the filesystem calls, `fetch` and `ghFetch`, base64, HTTP routing, status codes, CORS, the API key check and
  environment configuration. Stores are maps held in the classes. Errors are `Result`
  values in place of exceptions.
- `JSON.parse`, `gray-matter` and the `simple-git` calls are parameters or environment
  inputs. `JSON.parse` and `gray-matter` are function-typed fields. The git failures
  are an explicit argument.
- `todayDate` reads the clock.
- Unicode is out of scope. `toLowerCase`, `\w` and `\s` follow ASCII. The line ends that `$` and `.` see in
  the comment strips do include U+2028 and U+2029, as in JavaScript.
- Async/await is left out: the calls are sequential and there is no concurrency.
- GitHub's `sha` is a hash of the content, passed to the repository as a function parameter; SHA-1 itself is not modelled.
- `PortfolioApi.StaleShaRefused` assumes the new content hashes differently from the old, as distinct contents do except under a SHA-1 collision; `PortfolioApi.SameContentKeepsSha` covers the case of equal contents.
- The order of a directory listing is left open, locally and remotely.
- `path.join` normalisation is not modelled: a slug containing `/` or `..` is used as
  part of the path text only.
- An explicitly `undefined` frontmatter value is modelled as `Other(false)`. The object
  model keeps the key present.
- Non-string project fields are not modelled. Fields of other JSON types, such as numbers, are not
  represented, since `Project` fields are `Option<string>`.
- `listProjects` also returns `raw` in the API; the model does not.
- API `listPosts` entries carry no `sha`; the model's entries keep it.
- The `newTitle` remap in the MCP transport layer is not part of this model. It only builds the
  updates passed to `updateProject`.
- `requireConfirmation` from the configuration is never consulted by the gate. The model has
  no such setting.
- `GitTools.Git.CommitAndPush` models the working tree as clean once the commit has gone
  through. The repository is otherwise abstract, a log of the add, commit and push calls.
  What `git status` reports after `git add .` is a parameter, `staged`, and is not derived from
  the tree before the add, so the model does not compute which untracked files move into
  `created`. A failed add is taken to leave the tree as it was.
- A written projects file does not read back as the same list, so no round trip is claimed. The writers
  emit unquoted keys that `JSON.parse` rejects, and `ProjectReread.WrittenNeverReadsBack` proves the failure.
  The empty list is not covered: its file holds no record and no key.
- `Text.Trim` states only that its result is trimmed and when the input comes back unchanged; the rest of
  JavaScript's `trim`, that the result is the input's own middle, is the separate lemma `Text.TrimMiddle`, kept
  apart so that the callers of `Trim` do not carry an existential.
- `FrontmatterData.Put` keeps insertion order for every key. JavaScript puts integer-like keys (`"1"`, `"42"`)
  first in ascending order, and `fm["__proto__"] = v` sets the prototype rather than storing a key; neither is modelled.
- `FrontmatterData.PutKeys` states the insertion order, so it does not hold for integer-like keys or for `__proto__`, as the `Put` line says.
- `FrontmatterData.MergeKeepsOrder` states the insertion order of the spread; JavaScript's ordering of integer-like keys is not modelled.
