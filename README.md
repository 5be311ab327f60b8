# Lab publisher: a verified model

`scripts/publish-lab.js` runs when a maintainer approves a challenge submitted
through an issue form. It checks that the workflow supplied seven environment
variables, parses the database service account, and extracts seven
`### <Label>` sections from the issue body. It then builds a lab record that
stores only the SHA-256 hash of the flag, and merge-writes the record as
document `issue-<number>` of the `labs` collection.

This project models that front half in Dafny and proves what it does:

- `text.dfy` (`Text`): JavaScript's `\s` / `String.prototype.trim` white-space
  set, `Trim`, and ASCII case folding.
- `extract.dfy` (`Extract`): `extractField`. The meaning of the regular
  expression `###\s+<label>\s*\n+([\s\S]*?)(?=\n###\s|$)` with flag `i` is
  stated declaratively:
  - a match at position `p` is described by the widths of its four variable
    parts (`Split`);
  - the match a backtracking engine reports is the first in its exploration
    order (`Prior`) at the leftmost position that matches at all
    (`LeftmostMatch`).
  A scanner written for this one pattern (`BestFor`, `TryHeading`, `MatchAt`,
  `Find`) is proved to find exactly that match.
- `extract_cases.dfy` (`ExtractExamples`): concrete bodies showing the
  pattern's behaviour and its quirks.
- `validate.dfy` (`Validate`): the environment check (a loop with early exit),
  `ensureValue`, and the ordered extraction of the six required sections.
- `payload.dfy` (`Payload`): the lab record.
- `publish.dfy` (`Publish`): the main sequence, from environment to database
  write.

The host is passed in as values: the clock, date parsing, the hash, `Number()`
and JSON parsing. The exits at lines 19, 30 and 63 each become a `Failure`
naming their cause.

Two points of the script's behaviour are easy to misread:

- **Creation time.** The script falls back to the approval time only when
  `ISSUE_CREATED_AT` is the empty string, and never when that value fails to
  parse as a date. The environment check already rejects an empty value, so
  the fallback can never be reached (`Publish.CreatedAtPresent`,
  `Publish.PublishedRecord`).
- **Where a section ends.** A section ends at the first `\n###` followed by
  white space after its capture starts (`Extract.CaptureStopsAtFirstHeading`). A `###` line without that white space does not end it.

The pattern's quirks are kept:

- **Headings are not anchored.** `#### Flag` matches at offset 1.
- **`\s+` may cross a newline.** In `###\nFlag\nX` the label sits on the line
  after the `###`, and Flag gives `X`.
- **An empty section swallows the next heading.** In an empty section `\s*`
  gives back its last newline to `\n+`, so the lazy capture starts at the next
  heading and runs on through it. For example, `### Flag\n\n### Solution\nDEF`
  gives `### Solution\nDEF` for Flag.
- **When `extractField` returns `""`.** The result is `""` when the label
  matches nowhere. It is also `""` when the leftmost matching heading is
  followed by white space only (`Extract.ExtractFieldEmpty`).

## Model

| member | source | states |
|---|---|---|
| Text.IsSpace | scripts/publish-lab.js:49-55 | the white-space class shared by `\s` and `trim` |
| Text.IsSpaceExactly | scripts/publish-lab.js:49-55 | that class is exactly the twenty-five white-space and line-terminator characters of JavaScript, listed one by one |
| Text.Trim | scripts/publish-lab.js:55 | the result is "" exactly when the input is all white space; otherwise it starts and ends with non-white space and is a slice of the input with only white space cut from both ends |
| Text.TrimUnchanged | scripts/publish-lab.js:90 | a string with no white space at either end is its own trim |
| Text.TrimIdempotent | scripts/publish-lab.js:90 | trimming twice equals trimming once, so `flag.trim()` before hashing changes nothing |
| Extract.ExtractField | scripts/publish-lab.js:48-56 | the extracted text never begins or ends with white space |
| Extract.ExtractFieldTrimmed | scripts/publish-lab.js:55 | trimming an extracted field again changes nothing |
| Extract.MatchAt | scripts/publish-lab.js:49 | the scanner succeeds at a position only where `###` starts, with a `\s+` of at least one character that fits in the body |
| Extract.Find | scripts/publish-lab.js:50 | a reported position lies at or after the starting one, inside the body, and the scanner succeeds there with the reported split |
| Extract.BestForMatches | scripts/publish-lab.js:49 | the completion the scanner builds for a heading with a `\s+` of width k is a match of the pattern |
| Extract.BestForComplete | scripts/publish-lab.js:49 | for any match, the scanner finds a completion with the same `\s+` width that the engine explores no later |
| Extract.TryHeadingSound | scripts/publish-lab.js:49 | trying `\s+` widths from k down finds only matches, with width at most k |
| Extract.TryHeadingFirst | scripts/publish-lab.js:49 | no match with `\s+` width at most k is explored before what the width descent finds |
| Extract.MatchAtSound | scripts/publish-lab.js:49 | what the scanner reports at a position is a match there |
| Extract.MatchAtFirst | scripts/publish-lab.js:49 | any match at a position makes the scanner succeed there, with a result explored no later |
| Extract.MatchAtCorrect | scripts/publish-lab.js:49-50 | the scanner's result at a position is exactly the match the backtracking engine reports there |
| Extract.FindFirst | scripts/publish-lab.js:50 | the scanner succeeds at no start position before the one the search reports |
| Extract.FindNone | scripts/publish-lab.js:50 | when the search finds nothing, the scanner succeeds at no start position; `Extract.LeftmostExists` turns this into "the pattern matches nowhere" |
| Extract.LeftmostExists | scripts/publish-lab.js:50 | when the pattern matches anywhere, the search finds the leftmost match |
| Extract.LeftmostUnique | scripts/publish-lab.js:50 | there is at most one leftmost match |
| Extract.PriorTotal | scripts/publish-lab.js:49 | any two distinct ways to match at one position are ordered by the engine's exploration order |
| Extract.ExtractFieldLeftmost | scripts/publish-lab.js:48-56 | extractField returns the trimmed capture group of the leftmost match |
| Extract.ExtractFieldNoMatch | scripts/publish-lab.js:50-53 | when no heading for the label matches, the result is "" |
| Extract.ExtractFieldEmpty | scripts/publish-lab.js:49-55 | the result is "" exactly when nothing matches, or the leftmost match's label is followed by white space only |
| Extract.ExtractFieldBlankTail | scripts/publish-lab.js:49-55 | for the leftmost match, the result is "" exactly when only white space follows its label |
| Extract.CaptureStopsAtFirstHeading | scripts/publish-lab.js:49 | the capture ends at the end of the body or just before `\n###` followed by white space, and contains no such occurrence |
| Extract.BlankCaptureRunsToEnd | scripts/publish-lab.js:49 | a capture made only of white space always runs to the end of the body |
| Extract.BlankCaptureBlankTail | scripts/publish-lab.js:49 | a capture made only of white space means only white space follows the label |
| Extract.BlankTailBlankCapture | scripts/publish-lab.js:49 | only white space after the label makes the capture white space only |
| Extract.LabelAtIgnoresCase | scripts/publish-lab.js:49 | labels equal up to case occur at the same positions of the body |
| Extract.BestForIgnoresCase | scripts/publish-lab.js:49 | labels equal up to case give the same completion at every heading |
| Extract.TryHeadingIgnoresCase | scripts/publish-lab.js:49 | labels equal up to case give the same result of the width descent |
| Extract.FindIgnoresCase | scripts/publish-lab.js:49-50 | labels equal up to case give the same leftmost match |
| Extract.ExtractFieldIgnoresCase | scripts/publish-lab.js:49-55 | labels equal up to case extract the same text (flag `i`) |
| ExtractExamples.DocFlag | scripts/publish-lab.js:49-55 | `### Flag\nABC\n### Solution\nDEF` gives `ABC` for Flag: the capture stops at the next heading |
| ExtractExamples.DocSolution | scripts/publish-lab.js:49-55 | the same body gives `DEF` for Solution: the match lies past the first heading and runs to the end |
| ExtractExamples.DocSolutionNotEarlier | scripts/publish-lab.js:50 | that body has no match for Solution before offset 13 |
| ExtractExamples.DocLowerCaseFlag | scripts/publish-lab.js:49 | asking for `flag` gives the same `ABC` |
| ExtractExamples.EmptyFlag | scripts/publish-lab.js:49-55 | `### Flag\n\n### Solution\nDEF` gives `### Solution\nDEF` for Flag: an empty section swallows the next heading |
| ExtractExamples.NewlineHeading | scripts/publish-lab.js:49-55 | `###\nFlag\nX` gives `X`: the `\s+` after `###` takes a newline |
| ExtractExamples.DeepHeading | scripts/publish-lab.js:49-55 | `#### Flag\nX` gives `X`: the heading matches at offset 1 |
| Validate.IsSetMeans | scripts/publish-lab.js:17 | a variable passes the check exactly when it is present and holds a non-white-space character |
| Validate.FirstFailing | scripts/publish-lab.js:16-20 | a reported element is in the list and fails the test |
| Validate.FirstFailingSpec | scripts/publish-lab.js:16-20 | nothing is reported exactly when every element passes; otherwise the reported element fails and every element before it passes |
| Validate.FirstUnset | scripts/publish-lab.js:16-20 | a reported name is one of the checked names and is not set |
| Validate.FirstUnsetSpec | scripts/publish-lab.js:16-20 | nothing is reported exactly when every name is set; otherwise the reported name is unset and every name before it in list order is set |
| Validate.CheckEnvironment | scripts/publish-lab.js:6-21 | the loop over the seven required variables reports exactly the first missing or blank one in list order, or nothing |
| Validate.EnsureValue | scripts/publish-lab.js:58-67 | a non-empty value passes unchanged; the empty string fails, naming the field |
| Validate.FirstEmptySection | scripts/publish-lab.js:70-78 | a reported section is one of the checked ones and extracts to "" |
| Validate.FirstEmptySectionSpec | scripts/publish-lab.js:70-78 | nothing is reported exactly when every section is non-empty; otherwise the first empty one in order is reported |
| Validate.FirstEmptyRequired | scripts/publish-lab.js:70-78 | the required sections are checked in the order Submitter Name, Challenge Name, Challenge Type, Challenge Description, Flag, Solution |
| Validate.ExtractSections | scripts/publish-lab.js:70-79 | a failure names a required section that extracts to ""; on success the six required fields are non-empty and Extra Details is its extraction |
| Validate.ExtractSectionsSpec | scripts/publish-lab.js:70-79 | extraction fails exactly when a required section is empty, reporting the first in order; on success each field, Extra Details included, is that section's extraction |
| Validate.ExtractSectionsSucceeds | scripts/publish-lab.js:70-79 | extraction succeeds exactly when all six required sections are non-empty; Extra Details never causes a failure |
| Validate.ExtractSectionsTrimmed | scripts/publish-lab.js:70-79 | after a successful extraction the required fields are non-empty and the flag is already trimmed |
| Payload.DocId | scripts/publish-lab.js:81 | the document id is `issue-` followed by the issue number |
| Payload.DocIdInjective | scripts/publish-lab.js:81 | different issue numbers give different document ids |
| Payload.SubmittedAt | scripts/publish-lab.js:84-86 | the submission time is the approval time when the creation string is empty, and the parsed creation time otherwise |
| Payload.ExtraNotes | scripts/publish-lab.js:99 | extraNotes is null exactly when the Extra Details extraction is "", and is that text otherwise |
| Payload.BuildPayload | scripts/publish-lab.js:92-110 | title, description, challengeType, authorName and solution are the Challenge Name, Challenge Description, Challenge Type, Submitter Name and Solution sections; approvedBy, githubIssueNumber, githubIssueUrl and submittedByGithub are the approver, the converted issue number, the issue URL and the issue author; every record has pointsToUnlock 3, pointsReward 10 and status `published`; approvedAt and lastSyncedAt are both the approval time; flagHash is the hash of the trimmed flag; extraNotes and submittedAt follow the rules above |
| Payload.PayloadHidesFlag | scripts/publish-lab.js:90-97 | the record depends on the flag only through its hash, so no field keeps the plaintext |
| Payload.PayloadClockFields | scripts/publish-lab.js:83-109 | when there is a creation time, the clock reaches only approvedAt and lastSyncedAt |
| Publish.Publish | scripts/publish-lab.js:16-114 | an incomplete environment fails, naming the first missing variable; otherwise a service account that is not JSON fails; otherwise a missing section fails, naming the first one; otherwise the run writes the built record to `labs/issue-<number>` |
| Publish.IssueOf | scripts/publish-lab.js:40-44 | each field of the issue metadata is the value of its environment variable |
| Publish.EnvCompleteMeans | scripts/publish-lab.js:16-21 | the environment passes exactly when all seven variables are present and non-blank |
| Publish.CreatedAtPresent | scripts/publish-lab.js:84-86 | after the environment check the creation string is never empty, so the fallback to the approval time cannot be reached |
| Publish.PublishedRecord | scripts/publish-lab.js:90-110 | a published record stores each section's extraction in its field and the hash of the Flag extraction itself; approvedBy, githubIssueNumber, githubIssueUrl and submittedByGithub come from `APPROVED_BY_LOGIN`, `ISSUE_NUMBER`, `ISSUE_HTML_URL` and `ISSUE_USER_LOGIN`; its submission time always comes from the creation string |

## Left out

- Firebase app initialisation, `getFirestore` and the write with `{ merge: true }` (lines 33-37 and 114) are an external database. `Publish.Publish` returns the write it would perform. Merging into an existing document is not modelled.
- `JSON.parse` of the service account (lines 26-31) is a library call. It is the host predicate `parsesAsJson`. What `cert` does with the parsed value, including rejecting it, is not modelled.
- SHA-256 through Node's `crypto` (lines 89-90) is the host function `sha256Hex`, left uninterpreted.
- `Timestamp.now()`, `new Date(...)` and `Timestamp.fromDate` (lines 83-86) are clock and date libraries. The approval time is a value of an abstract type. `fromDate` is a total host function, so what Firestore does with an unparsable date is not modelled.
- `Number(issueNumber)` (line 106) is JavaScript number conversion. It is the host function `toNumber`.
- Console output, `process.exit` and the `main().catch` wrapper (lines 112-122) are I/O and process control. The exits at lines 19, 30 and 63 are `Failure` values. The exit at line 121, taken when anything in `main` throws (such as the database write), is not modelled.
- Extract.ExtractField: the label is matched as literal text. The script splices it into the pattern unescaped, which means the same thing for the seven labels it uses, since none has a regular-expression metacharacter.
- Extract.ExtractField: case folding is ASCII only. For the ASCII labels the script uses, this is exact under the non-unicode `i` flag, where no non-ASCII character folds to an ASCII one. Non-ASCII labels are not modelled.
- Strings are sequences of Unicode scalar values rather than UTF-16 code units. Nothing in the pattern or in `trim` tells one apart from the other, since every white-space character is in the Basic Multilingual Plane.
- A general regular-expression engine: only the one fixed pattern is modelled.
