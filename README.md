# nova-flow core, modelled in Dafny

This project models the small self-contained pieces of logic in the
nova-flow web application and its Python run server, and proves what they
promise:

- **Session tokens** (`src/lib/jwt.ts`): a compact `header.body.signature`
  token in the shape of RFC 7519. Segments are base64url text (the alphabet
  of section 5 of RFC 4648) with the `=` padding stripped, as in section 2
  of RFC 7515. The signature is an HMAC of `header.body`. Node's `Buffer`
  conversions that the codec relies on (UTF-8, Latin-1 "binary", base64
  encode and lenient decode) are modelled concretely in `NodeBuffer`.
  HMAC-SHA256 and `JSON.stringify`/`JSON.parse` are parameters (a
  `Collaborators` value). The round trip is proved under two stated
  assumptions: digests are 32 bytes, and stringify writes non-empty text
  that parse reads back.
- **Markdown editor** (`src/components/MarkdownEditor.tsx`): the toolbar's
  wrap-the-selection splice, the Tab key and the bullet-continuing Enter
  key. Each is a pure function from text and selection to new text and
  caret.
- **Web terminal** (`src/components/WebCLI.tsx`): the history, history
  index and input cells, as a pure state machine (`OnEnter`, `OnArrowUp`,
  …) and a `Terminal` class with one method per key that is proved to
  follow it and to keep the index invariant.
- **Project registry** (`src/contexts/ProjectsContext.tsx`): a record of
  repositories keyed by the id as a string, with add, remove-first-match
  and find loops.
- **Repository picker** (`src/components/RepositoryConnectCard.tsx`): the
  paging loop with its seen-id de-duplication, the push-date sort, the
  search/visibility filter, the list panel and the footer count.
- **New-model form** (`src/app/new/page.tsx`): the action list edits, the
  file extension allow-list and file removal.
- **Run registry** (`server/nova/process_manager.py`): run ids mapped to
  mutable entries holding a task, a status and metadata. The asyncio task
  is reduced to a `done` flag and a `cancelRequested` flag.

JavaScript built-ins the code calls (`trim`, `substring`, `lastIndexOf`,
`includes`, `endsWith`, `startsWith`, `split`, `toLowerCase`, number to
string) are in `JsString`, with their edge cases: `substring` clamps and
swaps its bounds, and `lastIndexOf` clamps a negative start to 0.

## Model

| member | source | states |
|---|---|---|
| JsString.TrimEmptyIffBlank | src/components/WebCLI.tsx:16 | `input.trim()` is empty exactly when every character is JavaScript white space |
| JsString.Trim | src/components/WebCLI.tsx:16 | `trim()` never lengthens a string, and a non-empty result neither starts nor ends with white space |
| JsString.Lower | src/components/RepositoryConnectCard.tsx:66-67 | `toLowerCase()` keeps the length and lower-cases each ASCII letter in place |
| JsString.Substring | src/components/MarkdownEditor.tsx:28-29 | `substring(a, b)` with `0 <= a <= b <= length` is exactly the slice from `a` to `b`, and never longer than the string otherwise |
| JsString.LastIndexOf | src/components/MarkdownEditor.tsx:63 | `lastIndexOf(c, from)` is -1 or a position holding `c`, at or before the clamped start, with no `c` between it and that start |
| JsString.StartsWith | src/components/WebCLI.tsx:28 | `startsWith(t)` holds exactly when the string is `t` followed by something |
| JsString.EndsWith | src/app/new/page.tsx:44 | `endsWith(t)` holds exactly when the string is something followed by `t` |
| JsString.Includes | src/components/RepositoryConnectCard.tsx:66-67 | `includes(t)` needs `t` no longer than the text and holds whenever the text starts with `t` |
| JsString.IncludesIffOccurs | src/components/RepositoryConnectCard.tsx:66-67 | `includes` holds exactly when the needle occurs at some position of the text |
| JsString.Split | src/lib/jwt.ts:53 | `split(sep)` gives at least one piece and no piece contains the separator |
| JsString.NatToString | src/contexts/ProjectsContext.tsx:46 | `toString()` of a non-negative integer is one or more decimal digits, two or more exactly from 10 on |
| JsString.NatToStringValue | src/contexts/ProjectsContext.tsx:46 | the decimal digits `toString()` writes for a non-negative integer spell that integer |
| JsString.IntToString | src/contexts/ProjectsContext.tsx:46 | `toString()` of a negative integer is `-` followed by the digits of its magnitude; a non-negative one has no sign |
| JsString.IntToStringInjective | src/contexts/ProjectsContext.tsx:46 | distinct ids give distinct `toString()` keys |
| JsString.JoinSplit | src/lib/jwt.ts:53 | splitting on a character and joining back gives the original string |
| JsString.SplitAfterPiece | src/lib/jwt.ts:53 | splitting `a + "." + t`, where `a` has no dot, yields `a` followed by the pieces of `t` |
| NodeBuffer.Utf8RoundTrip | src/lib/jwt.ts:15 | decoding the UTF-8 encoding of any string gives the string back |
| NodeBuffer.Utf8Encode | src/lib/jwt.ts:15 | `Buffer.from(s)` writes between one and four bytes per character |
| NodeBuffer.Utf8Decode | src/lib/jwt.ts:25 | `toString("utf-8")` never yields more characters than there are bytes |
| NodeBuffer.Latin1 | src/lib/jwt.ts:34 | `toString("binary")` gives one character per byte whose code is the byte's value |
| NodeBuffer.Decode | src/lib/jwt.ts:25 | `Buffer.from(s, "base64")` never fails and never yields more bytes than there are characters |
| NodeBuffer.Base64RoundTrip | src/lib/jwt.ts:16 | base64 decoding of the base64 encoding of any bytes gives the bytes back |
| NodeBuffer.Encode | src/lib/jwt.ts:16 | base64 text is a whole number of four-character groups |
| Jwt.Base64UrlEncode | src/lib/jwt.ts:14-20 | the output uses only the URL-safe alphabet and never contains `+`, `/`, `=` or `.` |
| Jwt.PadToQuartet | src/lib/jwt.ts:24 | the loop appends at most three `=` so that the length becomes a multiple of four, keeping the input as prefix |
| Jwt.Base64UrlDecode | src/lib/jwt.ts:22-26 | the result is the UTF-8 text of the padded, standard-alphabet base64 of the segment |
| Jwt.DecodedSegment | src/lib/jwt.ts:22-26 | the decoded text of a segment is never longer than the segment: the added `=` padding contributes nothing |
| Jwt.UrlSegmentRestores | src/lib/jwt.ts:22-25 | turning a URL-safe, unpadded segment back to the standard alphabet and padding it recovers the bytes it encoded |
| Jwt.UrlToStd | src/lib/jwt.ts:23 | the length is kept, each `-` becomes `+` and each `_` becomes `/` in place, and every other character stays as it was |
| Jwt.PadCount | src/lib/jwt.ts:24 | at most three `=` are needed to reach a multiple of four |
| Jwt.Padded | src/lib/jwt.ts:24 | the padded text is the input followed by at most three `=`, a multiple of four long |
| Jwt.Base64UrlRoundTrip | src/lib/jwt.ts:14-26 | `base64UrlDecode(base64UrlEncode(s)) == s` for every well-formed string (a sequence of Unicode scalar values) |
| Jwt.HmacSign | src/lib/jwt.ts:28-36 | the signature is one segment: it contains no `.` |
| Jwt.HeaderSegmentDecodes | src/lib/jwt.ts:39 | the header segment decodes to `{"alg":"HS256","typ":"JWT"}` |
| Jwt.HeaderSegment | src/lib/jwt.ts:39 | the header segment uses only the URL-safe alphabet and holds no `.` |
| Jwt.Claims | src/lib/jwt.ts:41-44 | the signed object has the payload's keys plus `iat`; `iat` is the given time and overrides any payload `iat`; every other key keeps its value |
| Jwt.BodySegmentDecodes | src/lib/jwt.ts:40-45 | the body segment decodes to the JSON text of the claims |
| Jwt.BodySegment | src/lib/jwt.ts:40-45 | the body segment uses only the URL-safe alphabet and holds no `.`, whatever the payload's JSON text |
| Jwt.CreateJwt | src/lib/jwt.ts:38-49 | the token splits on `.` into exactly header, body, and `hmacSign(header + "." + body)` |
| Jwt.ThreeSegments | src/lib/jwt.ts:48 | three dot-free segments joined by dots split back into those three |
| Jwt.VerifyJwt | src/lib/jwt.ts:51-69 | a result is only returned when the first three segments are non-empty and the third equals the recomputed signature, and it is what parse yields for the decoded body; never a null payload |
| Jwt.MissingSegmentRejected | src/lib/jwt.ts:53-57 | fewer than three segments, or an empty one among the first three, gives null |
| Jwt.BadSignatureRejected | src/lib/jwt.ts:59-62 | a third segment different from the recomputed HMAC gives null |
| Jwt.TamperedSignatureRejected | src/lib/jwt.ts:59-62 | dot-free header and body followed by any signature other than their recomputed HMAC give null |
| Jwt.TrailingSegmentsIgnored | src/lib/jwt.ts:53 | only the first three segments are read: dropping later ones does not change the result |
| Jwt.CreateThenVerify | src/lib/jwt.ts:38-69 | verifying a freshly created token with the same secret returns the payload extended with `iat` |
| Jwt.SignedBodyVerifies | src/lib/jwt.ts:59-65 | any non-empty header with a correctly signed body verifies to the body's value |
| Jwt.OtherSecretRejected | src/lib/jwt.ts:59-62 | a token checked with a secret whose signature differs is rejected |
| Jwt.ForgedSignatureRejected | src/lib/jwt.ts:59-62 | a created header and body with any other signature are rejected |
| MarkdownEditor.InsertMarkdownSplices | src/components/MarkdownEditor.tsx:22-39 | the new text is prefix + before + selection + after + suffix, its length is the old length plus both markers, and the caret sits right before `after` |
| MarkdownEditor.InsertMarkdown | src/components/MarkdownEditor.tsx:22-39 | on a valid selection the text grows by `before` and `after`, and the caret lands after the selection, `after` and the old suffix still to its right |
| MarkdownEditor.LinePrefixButtonsInsert | src/components/MarkdownEditor.tsx:113-142 | the heading, list and quote buttons insert only their prefix: the text grows by exactly the length of `before` |
| MarkdownEditor.Markers | src/components/MarkdownEditor.tsx:86-151 | every button inserts a non-empty `before`; `after` is empty exactly for the two headings, the list and the quote |
| MarkdownEditor.Press | src/components/MarkdownEditor.tsx:86-151 | a button click on a valid selection grows the text by both markers and puts the caret after the selection and `before` |
| MarkdownEditor.TabReplacesSelection | src/components/MarkdownEditor.tsx:47-58 | Tab replaces the selection by one tab, keeps both sides and puts the caret at `start + 1` |
| MarkdownEditor.TabIsDeleteThenInsert | src/components/MarkdownEditor.tsx:47-58 | Tab equals deleting the selection and inserting a tab at the start |
| MarkdownEditor.TabKey | src/components/MarkdownEditor.tsx:47-58 | on a valid selection the selection shrinks to one tab at `start`, and the caret is `start + 1` |
| MarkdownEditor.LeadingWhitespace | src/components/MarkdownEditor.tsx:67 | the `\s*` group is the longest all-white-space prefix |
| MarkdownEditor.BulletIndentMatchesPattern | src/components/MarkdownEditor.tsx:67 | the bullet check succeeds with an indent exactly when `^(\s*)-\s` matches with that group |
| MarkdownEditor.BulletIndent | src/components/MarkdownEditor.tsx:67 | a found indent is a group with which `^(\s*)-\s` matches the line |
| MarkdownEditor.LineStart | src/components/MarkdownEditor.tsx:63 | the line start is within the text, follows a newline unless it is 0, and no newline lies between it and the caret |
| MarkdownEditor.LineBeforeCaret | src/components/MarkdownEditor.tsx:63-64 | with the caret inside the text, the examined text runs from the line start to the caret and holds no newline |
| MarkdownEditor.LineBeforeCaretIsCurrentLine | src/components/MarkdownEditor.tsx:63-66 | the examined text runs from just after the last newline before the caret up to the caret and holds no newline |
| MarkdownEditor.CaretAtStartBeforeNewline | src/components/MarkdownEditor.tsx:63-66 | with the caret at 0 and a leading newline, `lastIndexOf` finds index 0, the examined text is `"\n"` and Enter is left to the browser |
| MarkdownEditor.EnterKey | src/components/MarkdownEditor.tsx:61-80 | Enter is handled only when the text before the caret matches `^(\s*)-\s`, and then the edit continues the bullet with the matched indent |
| MarkdownEditor.ContinueBullet | src/components/MarkdownEditor.tsx:70-76 | inserting the bullet keeps the text before the caret, puts a newline at the caret, grows the text by the indent plus 3 and moves the caret by as much |
| MarkdownEditor.EnterContinuesBullet | src/components/MarkdownEditor.tsx:61-80 | on a bullet line Enter inserts newline, indent and `- ` at the caret, keeps any selection, and moves the caret to `start` plus the indent's length plus 3 |
| MarkdownEditor.EnterOnPlainLine | src/components/MarkdownEditor.tsx:67-69 | on a line that is not a bullet the handler makes no edit and leaves the key to the browser |
| WebCli.Commands | src/components/WebCLI.tsx:27-29 | there are never more past commands than history lines |
| WebCli.CommandsAppend | src/components/WebCLI.tsx:17-29 | recording a `$ ` line appends its command to the past commands, and any other line adds none |
| WebCli.Recalled | src/components/WebCLI.tsx:33-36 | the recalled text is one of the past commands, and index 0 is the newest |
| WebCli.OnEnter | src/components/WebCLI.tsx:16-24 | the state changes exactly when the input is not blank, and then the index is -1, the input empty and the history either empty or the old one plus `$ input` |
| WebCli.OnArrowUp | src/components/WebCLI.tsx:25-37 | the history is kept and the index stays valid; either nothing changes or the index moves one back and the input is the command it points at |
| WebCli.OnArrowDown | src/components/WebCLI.tsx:38-52 | the history is kept and the index stays valid; it becomes -1 or one less, and a non-negative index shows the command it points at |
| WebCli.OnClearShortcut | src/components/WebCLI.tsx:61-65 | no past command is left, the index is -1 and the input is kept |
| WebCli.OnType | src/components/WebCLI.tsx:122 | the input becomes the typed text, the past commands are kept, and the index stays valid exactly when it was |
| WebCli.KeyEventsPreserveValid | src/components/WebCLI.tsx:12-65 | every key event keeps the index between -1 and one less than the number of past commands |
| WebCli.EnterRecordsCommand | src/components/WebCLI.tsx:16-19 | Enter on non-blank input records `$ input`, clears the input and resets the index to -1 |
| WebCli.EnterClearEmptiesHistory | src/components/WebCLI.tsx:22-24 | Enter on `clear`, in any case, leaves the history empty |
| WebCli.EnterOnBlankInput | src/components/WebCLI.tsx:16 | Enter on empty or white-space input changes nothing |
| WebCli.ArrowUpRecallsOlder | src/components/WebCLI.tsx:25-37 | ArrowUp moves one command back and shows it while there is an older one, otherwise changes nothing |
| WebCli.ArrowDownRecallsNewer | src/components/WebCLI.tsx:38-52 | ArrowDown from index > 0 shows the next newer command, from 0 empties the input, from -1 does nothing |
| WebCli.UpThenDownReturns | src/components/WebCLI.tsx:25-52 | ArrowDown undoes a moving ArrowUp |
| WebCli.UpAfterEnterRecallsIt | src/components/WebCLI.tsx:16-37 | the command just entered is the one ArrowUp brings back |
| WebCli.Terminal.constructor | src/components/WebCLI.tsx:11-13 | the terminal starts with no history, index -1 and empty input |
| WebCli.Terminal.Enter | src/components/WebCLI.tsx:16-24 | the state cells change as `OnEnter` says and the index invariant holds |
| WebCli.Terminal.ArrowUp | src/components/WebCLI.tsx:25-37 | the state cells change as `OnArrowUp` says and the index invariant holds |
| WebCli.Terminal.ArrowDown | src/components/WebCLI.tsx:38-52 | the state cells change as `OnArrowDown` says and the index invariant holds |
| WebCli.Terminal.ClearShortcut | src/components/WebCLI.tsx:61-65 | Ctrl/Cmd+K empties the history and resets the index |
| WebCli.Terminal.Type | src/components/WebCLI.tsx:122 | typing replaces the input and nothing else |
| Projects.AddKeepsKeysMatchingIds | src/contexts/ProjectsContext.tsx:46 | adding keeps every key equal to its project's id string |
| Projects.IdKey | src/contexts/ProjectsContext.tsx:46 | the key of an id is never empty and starts with `-` exactly for a negative id |
| Projects.AddReplacesOnlySameId | src/contexts/ProjectsContext.tsx:43-49 | after adding, the project is the only one with its id and every project with another id is where it was |
| Projects.OnlyKeyForId | src/contexts/ProjectsContext.tsx:43-70 | with keys matching ids, a project with an id is stored exactly under that id's string |
| Projects.RemoveKeepsKeysMatchingIds | src/contexts/ProjectsContext.tsx:54-57 | removing an entry keeps every key equal to its project's id string |
| Projects.ProjectStore.constructor | src/contexts/ProjectsContext.tsx:19 | the record starts empty |
| Projects.ProjectStore.AddProject | src/contexts/ProjectsContext.tsx:43-49 | the project is stored under its id string, replacing what was there, and nothing else changes |
| Projects.ProjectStore.RemoveProject | src/contexts/ProjectsContext.tsx:51-62 | exactly one entry holding the id is deleted when there is one, nothing otherwise |
| Projects.ProjectStore.GetProject | src/contexts/ProjectsContext.tsx:64-70 | returns a stored project with the id, and nothing exactly when none has it |
| RepositoryConnect.DedupKeepsIds | src/components/RepositoryConnectCard.tsx:34-40 | every id fetched appears in the accumulated list, and no other |
| RepositoryConnect.DedupDistinct | src/components/RepositoryConnectCard.tsx:34-40 | no two accumulated repositories share an id |
| RepositoryConnect.DedupIsFirstOccurrences | src/components/RepositoryConnectCard.tsx:34-40 | the accumulated list is exactly the first occurrence of each id, in fetch order |
| RepositoryConnect.DedupIsSubsequence | src/components/RepositoryConnectCard.tsx:34-40 | de-duplication only drops repositories and keeps the order of the rest |
| RepositoryConnect.Dedup | src/components/RepositoryConnectCard.tsx:34-40 | the seen-id pass never adds a repository: the result is no longer than the input |
| RepositoryConnect.DedupOnlyFetched | src/components/RepositoryConnectCard.tsx:34-40 | every repository left after the seen-id pass is one that was fetched |
| RepositoryConnect.AddUnseen | src/components/RepositoryConnectCard.tsx:35-40 | one page through the seen-id check extends the de-duplicated list of everything fetched so far |
| RepositoryConnect.FetchAllRepositories | src/components/RepositoryConnectCard.tsx:19-55 | pages 1, 2, … are requested 100 at a time until a page says there is no next one; the result is the de-duplicated fetch, sorted; a thrown call leaves the list unset |
| RepositoryConnect.ComparePushed | src/components/RepositoryConnectCard.tsx:44-49 | the comparator is negative exactly when both dates are known and the first is newer, positive exactly when both are known and the second is newer, zero otherwise |
| RepositoryConnect.SortByPushed | src/components/RepositoryConnectCard.tsx:44-49 | sorting keeps the number of repositories |
| RepositoryConnect.SortIsPermutation | src/components/RepositoryConnectCard.tsx:44-49 | sorting neither adds nor drops a repository |
| RepositoryConnect.SortedNewestFirst | src/components/RepositoryConnectCard.tsx:44-49 | when every repository has a push date, the sorted list runs from newest to oldest |
| RepositoryConnect.Filtered | src/components/RepositoryConnectCard.tsx:65-70 | the filtered list is never longer than the list |
| RepositoryConnect.MatchesSearch | src/components/RepositoryConnectCard.tsx:66-67 | a repository matches the search exactly when the lower-cased query occurs in its lower-cased name or description; an empty query matches every repository |
| RepositoryConnect.MatchesVisibility | src/components/RepositoryConnectCard.tsx:68 | the `all` tab keeps every repository, the `public` and `private` tabs exactly those with that visibility |
| RepositoryConnect.Matches | src/components/RepositoryConnectCard.tsx:65-70 | a kept repository always matches the visibility tab, and an empty query on the `all` tab keeps every repository |
| RepositoryConnect.FilteredMembership | src/components/RepositoryConnectCard.tsx:65-70 | a repository is shown exactly when the lower-cased query occurs in its lower-cased name or description and the visibility is `all` or its own |
| RepositoryConnect.FilteredIsSubsequence | src/components/RepositoryConnectCard.tsx:65-70 | the filtered list keeps the list's order |
| RepositoryConnect.FilteredKeepsAllIff | src/components/RepositoryConnectCard.tsx:65-70 | nothing is filtered out exactly when every repository matches |
| RepositoryConnect.EmptyQueryShowsAll | src/components/RepositoryConnectCard.tsx:65-70 | an empty query on the `all` tab shows every repository in order |
| RepositoryConnect.ListPanel | src/components/RepositoryConnectCard.tsx:125-137 | "No repositories found" exactly when the list is empty and not loading, the loading text exactly while loading, and rows exactly for a non-empty filtered list while nothing loads |
| RepositoryConnect.FooterCounts | src/components/RepositoryConnectCard.tsx:182-187 | the footer reads `N repositories` when every repository matches and `F of N repositories` otherwise |
| RepositoryConnect.Footer | src/components/RepositoryConnectCard.tsx:182-187 | a footer is shown exactly when there are repositories and nothing is loading, and it is a number followed by ` repositories` |
| NewModelForm.RemoveAtCutsOut | src/app/new/page.tsx:37 | removing by index cuts out exactly that entry, keeping the others in order; an index outside the list changes nothing |
| NewModelForm.RemoveAt | src/app/new/page.tsx:37 | removing by index shortens the list by one for an index inside it and keeps its length otherwise |
| NewModelForm.AddThenRemoveRestores | src/app/new/page.tsx:36-37 | adding an action and removing it again restores the list |
| NewModelForm.AcceptedMembership | src/app/new/page.tsx:41-45 | a picked file is kept exactly when its name ends with one of the allowed extensions |
| NewModelForm.AcceptedAppend | src/app/new/page.tsx:44 | filtering two parts of a pick is filtering each part in turn: kept files stay in picking order, repeats included |
| NewModelForm.ExtensionsAreDotted | src/app/new/page.tsx:43 | every allowed extension is a dot followed by at least two characters |
| NewModelForm.HasAllowedExtension | src/app/new/page.tsx:43-44 | a name that passes the allow-list has a dot and at least three characters |
| NewModelForm.Accepted | src/app/new/page.tsx:44 | the kept files are no more than the picked ones and every one of them has an allowed extension |
| NewModelForm.MarkdownAndJsonAccepted | src/app/new/page.tsx:43 | names ending in `.md` or `.json` pass the allow-list |
| NewModelForm.UpperCaseExtensionRejected | src/app/new/page.tsx:43-44 | the allow-list compares case-sensitively: `REPORT.PDF` is dropped |
| NewModelForm.Apply | src/app/new/page.tsx:36-39 | add grows the list by one, remove shrinks it by one, edit keeps its length, and an offered click never leaves it empty |
| NewModelForm.Run | src/app/new/page.tsx:36-39 | a run of clicks adds at most one action per click |
| NewModelForm.RunKeepsAnAction | src/app/new/page.tsx:36-102 | any run of the clicks the form offers keeps at least one action input |
| NewModelForm.FormKeepsAnAction | src/app/new/page.tsx:32-102 | starting from `['']`, the form never runs out of action inputs |
| NewModelForm.Form.constructor | src/app/new/page.tsx:32-34 | the form starts with one empty action and no files |
| NewModelForm.Form.AddAction | src/app/new/page.tsx:36 | one empty action is appended; existing actions and files are unchanged |
| NewModelForm.Form.RemoveAction | src/app/new/page.tsx:37 | the action at the index is removed; files are unchanged |
| NewModelForm.Form.UpdateAction | src/app/new/page.tsx:38-40 | the copied list has entry `i` set to `v` and every other entry as before |
| NewModelForm.Form.HandleFileChange | src/app/new/page.tsx:41-45 | with no file list nothing changes; otherwise the allowed picked files are appended after the existing ones |
| NewModelForm.Form.RemoveFile | src/app/new/page.tsx:152 | only the file at the index is dropped |
| Processes.Task.Cancel | server/nova/process_manager.py:21 | cancelling requests cancellation and does not finish the task |
| Processes.ProcessManager.constructor | server/nova/process_manager.py:6-7 | the registry starts empty |
| Processes.ProcessManager.ListAll | server/nova/process_manager.py:38-42 | the keys are exactly the registered run ids, each with its current status |
| Processes.ProcessManager.Get | server/nova/process_manager.py:24-25 | the run's entry, or None exactly for an unknown id |
| Processes.ProcessManager.IsRunning | server/nova/process_manager.py:27-31 | false for unknown ids, otherwise whether the task has not finished |
| Processes.ProcessManager.Register | server/nova/process_manager.py:9-14 | a new entry with the task, the metadata and status `running` replaces any earlier one; the other statuses stay and ids only grow |
| Processes.ProcessManager.Stop | server/nova/process_manager.py:16-22 | a known run's status becomes `cancelled` and cancellation is requested only if its task has not finished; an unknown id changes nothing; no entry is removed |
| Processes.ProcessManager.MarkDone | server/nova/process_manager.py:33-36 | a known run's status is overwritten (default `completed`); an unknown id changes nothing and no entry is created or removed |

## Left out

- HMAC-SHA256 and `JSON.stringify`/`JSON.parse` are parameters, not
  implementations. The round trip assumes 32-byte digests, that stringify
  never writes empty text, and that parse reads back what stringify wrote.
  JSON numbers are integers only.
- The signature passes the digest through Latin-1 ("binary") text and then
  UTF-8, so it is not byte-compatible with HS256 as RFC 7515 defines it.
  The model follows the code and claims no interoperability.
- No expiry (`exp`) is checked by the code, so none is modelled. The issue
  time `Math.floor(Date.now() / 1000)` is the parameter `iat`.
- Jwt.VerifyJwt: `JSON.parse` yielding `null` is treated like a parse
  failure (both give null to the caller), and any other thrown error is a
  parse failure.
- NodeBuffer.Utf8Decode replaces each undecodable byte by one U+FFFD. Node
  replaces maximal invalid subparts, which can use fewer replacement
  characters. The round trip on valid text does not depend on this.
- NodeBuffer.Decode models Node's lenient base64 reading: characters
  outside both alphabets are skipped, reading stops at the first `=`, and a
  single trailing sextet is dropped.
- `toLowerCase` folds ASCII letters only; Unicode case mapping is not
  modelled.
- The order in which `Object.entries`/`Object.values` visit the project
  record is not modelled. Projects.ProjectStore.RemoveProject and
  Projects.ProjectStore.GetProject pick entries in an unspecified order, so
  with duplicate ids they may choose a different entry than a browser would.
- Strings are sequences of Unicode scalar values, whereas JavaScript
  strings are sequences of UTF-16 code units. A lone surrogate cannot be
  written in the model. `Buffer.from` would turn one into EF BF BD, which
  decodes to U+FFFD, so Jwt.Base64UrlRoundTrip holds for well-formed strings
  only. The token round trip is not affected, since `JSON.stringify` escapes
  lone surrogates and its output is well-formed.
- Caret positions and lengths in the Markdown editor count characters. The
  textarea's `selectionStart` and a string's `length` count UTF-16 code
  units, so the two differ on text outside the Basic Multilingual Plane.
- JsString.NatToString writes plain decimal digits. `Number.prototype.toString`
  switches to exponent form from 1e21 on, and such ids are not modelled.
- NewModelForm.UploadFile keeps only the file name, the one field the form's
  logic reads. The size is only displayed, in kilobytes.
- Loading the projects from and saving them to local storage is left out.
- RepositoryConnect.FetchAllRepositories: `getUserRepositories` (imported
  from `src/lib/auth.ts`) is not part of this model. Its answers are an
  input sequence describing one complete run of the loop, whose last page
  has no next page or threw. A server that never stops paging is not
  modelled. The `Repository` type from `src/types/gh_user.ts` is not part
  of this model either; only the fields read here are kept.
- RepositoryConnect.SortByPushed: `Array.prototype.sort` with this
  comparator is implementation-defined when some dates are missing, since
  the comparator is then not a consistent order. The model uses a stable
  insertion sort, and ordering is proved only for lists where every
  repository has a date. Push dates are integers, not parsed date strings.
- The loading flag is a parameter of the list panel and footer. The
  `isLoading` toggling, the `isOpen` effect and the Escape/onClose wiring
  are left out.
- NewModelForm.Form.UpdateAction requires an index inside the list. The
  form only calls it for a rendered input. JavaScript would grow the array
  with holes for a larger index.
- The file size shown in kilobytes uses floating point and is left out, as
  is the `accept` attribute of the file input.
- The editor's DOM effects (focus, `setTimeout`, caret restore) are left
  out; the caret is part of the result.
- The asyncio task is reduced to `done` and `cancelRequested` flags. Event
  loop scheduling and the moment a cancelled task finishes are not
  modelled. Python's shared default `metadata` dictionary is not modelled;
  metadata is a value.
