# reinisch-classroom teacher back end, modelled in Dafny

This project models the server side of a classroom site and proves properties about the model.
Teachers log in with a shared password and receive a signed session cookie. The cookie gates the
handlers that list assignments, list submissions and create assignments. A configuration
self-check endpoint and two browser/build scripts complete the picture.

The modules follow the repository's files:

| module | file it models |
|---|---|
| `Base64Url` | the base64url codec behind `b64url` and its reverse in `verify` (section 5 of RFC 4648) |
| `Auth` | `netlify/functions/_lib/auth.js`: `sign`/`verify` (an HS256 token, JWS compact serialisation per section 7.1 of RFC 7515 and section 3.2 of RFC 7518), `teacherCookie` (a `Set-Cookie` value per section 4.1 of RFC 6265), `getCookie`, `requireTeacher` |
| `TeacherLogin` | `functions/teacher-login.js` |
| `AssignmentsAdminList` | `functions/assignments-admin-list.js` |
| `SubmissionsList` | `functions/submissions-list.js` |
| `EnvCheck` | `env-check.js` |
| `AssignmentCreate` | `functions/assignment-create.js` |
| `ToolkitIndex` | `scripts/build-math-toolkit-index.js` |
| `SiteNav` | `site/assets/js/site.js` |
| `Http`, `JsValue`, `Strings`, `Seqs`, `Wrappers` | shared pieces: request/response shapes and the handler prologue; JSON values and JavaScript truthiness; `split`/`join`/`trim`/`indexOf`/`toLowerCase`; `filter`; `Option` and "returns or throws" |

How the model is built:

- Every handler is a pure function. Its inputs are the request, the configuration values and the
  outcomes of its backend calls. It returns the response (status, body, `Set-Cookie`) and, where
  it talks to the backend, the list of calls it made, in order.
- HMAC-SHA-256, `JSON.stringify`/`JSON.parse`, UTF-8, `decodeURIComponent` and JavaScript's
  number coercion are fields of a `Primitives` value. `Auth.Lawful` states the only laws the
  proofs use:
  - parsing inverts serialising, and `{}` parses to the empty object;
  - UTF-8 decoding inverts encoding;
  - a digest is 32 bytes;
  - URI-decoding is the identity on text without `%`;
  - a number coerces to itself.
- Base64 itself is written out in full, so the codec's round trip is proved, not assumed.
- The clock is an explicit `now` parameter, in seconds for tokens and milliseconds for file times.
- An exception that escapes a handler is the `Uncaught` response. An exception inside a handler's
  `try` becomes its 500 reply.

## Model

| member | source | states |
|---|---|---|
| Base64Url.B64Url | netlify/functions/_lib/auth.js:5 | the encoding of n bytes has ⌈4n/3⌉ characters, all from `A-Z a-z 0-9 - _`, so it never contains `+`, `/`, `=` or `.`; removing the trailing `=` run leaves exactly the unpadded standard digits, with `+`→`-` and `/`→`_` |
| Base64Url.DecodeEncodeGroups | netlify/functions/_lib/auth.js:24 | decoding the unpadded standard encoding of any byte string gives the bytes back |
| Base64Url.StripPadding | netlify/functions/_lib/auth.js:5 | removing the trailing `=` run from digits that do not end in `=`, followed by `=` padding, gives back those digits |
| Base64Url.B64UrlRoundTrip | netlify/functions/_lib/auth.js:24 | reversing the alphabet substitution and decoding recovers exactly the encoded bytes |
| Base64Url.B64UrlInjective | netlify/functions/_lib/auth.js:5 | different byte strings have different encodings |
| Auth.TokenClaims | netlify/functions/_lib/auth.js:11 | the claims carry `iat = now` and `exp = now + ttl`, replacing any caller values; every other caller claim is kept unchanged and nothing else is added |
| Auth.Sign | netlify/functions/_lib/auth.js:8-15 | a token uses only the base64url alphabet and `.`, so it holds no `;`, `=`, `%` or whitespace and travels in a cookie unescaped |
| Auth.SignShape | netlify/functions/_lib/auth.js:12-14 | a token splits into exactly three non-empty segments: the fixed header, the claims with `iat`/`exp` (TTL defaulting to 28800), and the MAC of `header.claims` |
| Auth.Verify | netlify/functions/_lib/auth.js:17-30 | a token is accepted, giving back the decoded claims, iff its first three segments are non-empty, the third equals the recomputed MAC of the first two, the second decodes to an object, its `exp` is truthy, and `now > exp` is false |
| Auth.VerifySigned | netlify/functions/_lib/auth.js:8-29 | a token signed at `t0` with lifetime `e` verifies at `t`, giving back the signed claims, exactly when `t0 + e != 0` and `t <= t0 + e`; the expiry second itself is accepted |
| Auth.VerifyIgnoresExtraSegments | netlify/functions/_lib/auth.js:19-20 | appending further `.`-segments to a token never changes the verdict |
| Auth.MalformedTokensRejected | netlify/functions/_lib/auth.js:19-20 | the empty token is rejected, and so is every token whose third `.`-segment is not 43 characters long, however many segments follow |
| Auth.AcceptedSignatureLength | netlify/functions/_lib/auth.js:21-23 | an accepted token's third segment is exactly 43 characters long |
| Auth.TamperedPayloadRejected | netlify/functions/_lib/auth.js:21-23 | a signature made over one claims segment is rejected when placed on a different claims segment whose MAC differs |
| Auth.ForeignSecretRejected | netlify/functions/_lib/auth.js:21-23 | a token is rejected under a secret whose MAC of the signing input differs from the signer's |
| Auth.JsonB64 | netlify/functions/_lib/auth.js:6 | a segment never contains `.`; with lawful primitives it is non-empty and `verify`'s decoding (reverse substitution, base64, UTF-8, `JSON.parse`, line 24) gives back the encoded value |
| Auth.Expired | netlify/functions/_lib/auth.js:25 | a claim that does not coerce to a number never expires (the comparison with NaN is false); a numeric claim expires exactly when `now` is past it |
| Auth.TeacherCookie | netlify/functions/_lib/auth.js:32-43 | the cookie text is `name=value; Path=/; HttpOnly; SameSite=Lax; Max-Age=m` (m defaulting to 28800), then `; Secure` iff `secure` (default true), then `; Domain=d` iff the domain is non-empty |
| Auth.TeacherCookieLayout | netlify/functions/_lib/auth.js:32-43 | the cookie's entries are `name=value`, `Path=/`, `HttpOnly`, `SameSite=Lax`, `Max-Age=m` in that order, then `Secure` iff `secure` (default true), then `Domain=d` iff the domain is non-empty |
| Auth.CookieHeader | netlify/functions/_lib/auth.js:46 | a non-empty lower-case `cookie` header wins; otherwise a non-empty `Cookie`; the result is empty iff neither spelling holds a non-empty value |
| Auth.CookieEntries | netlify/functions/_lib/auth.js:47 | one entry per `;`-separated piece, the first unchanged; no entry holds `;` and none after the first starts with whitespace |
| Auth.CookieEntriesOfJoin | netlify/functions/_lib/auth.js:47 | splitting at `;` plus following whitespace undoes a `; `-join of entries that hold no `;` and do not start with whitespace |
| Auth.FirstWithPrefix | netlify/functions/_lib/auth.js:47 | finds an entry starting with the prefix iff one exists, and it is the first such entry |
| Auth.GetCookie | netlify/functions/_lib/auth.js:45-49 | with no `name=` entry in the cookie header the value is `''` |
| Auth.GetCookieFirstMatch | netlify/functions/_lib/auth.js:45-49 | the value of the first `name=` entry is returned, with any later `=` kept and earlier non-matching entries skipped, when the value holds no `%` escape |
| Auth.RequireTeacher | netlify/functions/_lib/auth.js:51-58 | authorised iff the `tc` cookie verifies under the secret and its `role` is `'teacher'`; it throws only when URI-decoding the cookie throws; every other failure is the single `Unauthorized` |
| Auth.SignedCookieReadBack | netlify/functions/_lib/auth.js:45-49 | a cookie header whose first entry is `tc=<token>`, for a token of the token alphabet, reads back exactly that token, since it needs no URI decoding |
| Auth.SignedCookieAuthorizes | netlify/functions/_lib/auth.js:51-58 | a teacher token signed at `t0` with lifetime `e`, sent as the first cookie entry `tc=<token>`, is authorised up to and including `t0 + e` and unauthorised after, when `t0 + e` is not the falsy 0 |
| Http.DestructuredBody | functions/teacher-login.js:22 | an absent or empty body reads as `{}`; a successful read is never `null` |
| Http.TeacherGate | functions/assignments-admin-list.js:13-17 | OPTIONS gets 200 with an empty body; any other method but the allowed one gets 405; then a failed `requireTeacher` gets 401 `Unauthorized`, or escapes as an exception when URI-decoding the cookie throws; a request passes iff it is the allowed method and authorised |
| TeacherLogin.Handle | functions/teacher-login.js:13-20 | OPTIONS gives 200; another non-POST gives 405; a POST without both configuration values gives 500 `Server not configured` before the body is read; a configured POST is the login below with the cookie issued for the session secret at `now`; only a 200 carries `Set-Cookie` |
| TeacherLogin.Login | functions/teacher-login.js:21-36 | unparseable JSON gives 400 `Bad request`; a password that is absent or not exactly the configured one gives 401 `Invalid password`; only an exact match gives 200 `{ ok: true }` with the cookie, and `Set-Cookie` is present exactly on a 200 |
| TeacherLogin.SetCookieIsIssued | functions/teacher-login.js:14-27 | a response that sets a cookie comes from a configured POST, and the cookie is the one issued for the session secret at `now` |
| TeacherLogin.IssuedCookieAuthorizes | functions/teacher-login.js:26-27 | the `tc=<token>` pair of the issued cookie, sent as the cookie header, passes `requireTeacher` with the same secret up to and including `now + 28800` and fails after it |
| TeacherLogin.EmptyBodyRefused | functions/teacher-login.js:22-25 | an absent or empty body is a 401 `Invalid password` |
| TeacherLogin.IssuedCookieLayout | functions/teacher-login.js:26-27 | the login cookie is `tc=<token>; Path=/; HttpOnly; SameSite=Lax; Max-Age=28800; Secure` with no `Domain` |
| TeacherLogin.LoginCookieAuthorizes | functions/teacher-login.js:26-27 | the `tc=<token>` pair of a successful login's cookie, sent back as the cookie header, passes `requireTeacher` with the same secret up to and including 28800 seconds after login and fails after that |
| AssignmentsAdminList.SubmissionKey | functions/assignments-admin-list.js:44 | the key is `student_id` when truthy; otherwise it is the lower-cased, trimmed `student_name` when that is a string, and undefined when it is nullish; another name type throws |
| AssignmentsAdminList.Keys | functions/assignments-admin-list.js:43-44 | one (assignment key, student key) pair per submission, in order; the loop throws iff some key throws |
| AssignmentsAdminList.GroupPairs | functions/assignments-admin-list.js:42-45 | a student key is in an assignment's set iff that pair occurs |
| AssignmentsAdminList.Group | functions/assignments-admin-list.js:42-45 | a student key is grouped under an assignment iff some submission carries both; the grouping fails iff some submission's key throws |
| AssignmentsAdminList.Tally | functions/assignments-admin-list.js:47-51 | `submitted` counts the roster entries whose id was submitted; `submitted + missing` is the roster length, counting duplicate roster ids per occurrence |
| AssignmentsAdminList.CountsFor | functions/assignments-admin-list.js:46-52 | `counts` has an entry for exactly the returned assignments' ids, each tallied against that assignment's submitted set |
| AssignmentsAdminList.Listing | functions/assignments-admin-list.js:22-63 | the assignments are read first, and submissions and roster only after a successful read with `class_id` given; a failed assignments read forwards its status and text; without `class_id` the rows come back with empty `counts`; a failed submissions or roster read still answers 200 with the assignments and empty `counts`; `counts` is empty unless both further reads succeed; a throwing key gives 500; otherwise `counts` has exactly the returned assignments' keys, each tallied against that assignment's submitted set and summing to the roster length |
| AssignmentsAdminList.Handle | functions/assignments-admin-list.js:12-64 | a request the gate stops makes no backend read and gets the gate's reply |
| AssignmentsAdminList.UnsubmittedAssignmentAllMissing | functions/assignments-admin-list.js:48-51 | an assignment nobody submitted for has `submitted = 0` and `missing` = the roster length |
| AssignmentsAdminList.GroupPairsRepeat | functions/assignments-admin-list.js:44 | a pair that is already grouped changes nothing when it comes again |
| AssignmentsAdminList.KeysAppend | functions/assignments-admin-list.js:43-44 | one more submission with a key adds exactly its pair at the end |
| AssignmentsAdminList.ResubmissionGroupedOnce | functions/assignments-admin-list.js:44 | a repeated submission (same assignment, same student key) leaves the grouping unchanged |
| AssignmentsAdminList.ResubmissionCountedOnce | functions/assignments-admin-list.js:41-52 | a repeated submission leaves the whole listing unchanged, counts included |
| SubmissionsList.ClassFilter | functions/submissions-list.js:36-37 | the result is an order-preserving subsequence of the submissions, and a submission is in it iff its `student_id` is truthy and on the class roster; a kept submission occurs exactly as often as in the input |
| SubmissionsList.Shaped | functions/submissions-list.js:33-44 | without `class_id` the submissions are returned exactly as fetched; with it, a failed roster read forwards its status and text, and a successful one gives 200 with exactly the class filter of the fetched submissions |
| SubmissionsList.Listing | functions/submissions-list.js:23-44 | a missing `assignment_id` gives 400 `assignment_id required` with no backend read; a failed submissions read forwards its status; after a successful submissions read with `class_id` given, the two reads are exactly the assignment's submissions and then the roster of that same class; the roster is read only when `class_id` is given |
| SubmissionsList.Handle | functions/submissions-list.js:12-21 | the gate runs before the parameter check, and a stopped request reads nothing |
| SubmissionsList.ClassFilterIdempotent | functions/submissions-list.js:37 | filtering by the class twice equals filtering once |
| SubmissionsList.EmptyClassListsNothing | functions/submissions-list.js:36-37 | an empty roster keeps no submissions |
| Strings.ReplaceChar | netlify/functions/_lib/auth.js:5 | every occurrence of one character is replaced by another, and every other character is kept in place |
| Strings.StripTrailing | netlify/functions/_lib/auth.js:5 | the result is the input without its maximal trailing run of the character |
| Strings.SplitJoin | netlify/functions/_lib/auth.js:19 | splitting a join of separator-free parts at the separator gives the parts back |
| Strings.AfterFirst | netlify/functions/_lib/auth.js:48 | everything after the first occurrence of the character, any later occurrences kept; `''` when it does not occur |
| Strings.IndexOf | site/assets/js/site.js:20 | the first index where the pattern occurs, or -1 exactly when it occurs nowhere |
| Strings.TrimStart | netlify/functions/_lib/auth.js:47 | a suffix of the input that drops exactly the leading whitespace |
| Seqs.Filter | functions/submissions-list.js:37 | every kept element passes the test, every passing input element is kept, and the result is a subsequence of the input |
| Seqs.FilterPartition | functions/assignments-admin-list.js:49-50 | filtering by a test and by its negation splits the input: the multisets add up, and so do the lengths |
| EnvCheck.Describe | env-check.js:21-25 | the recorded length is the value's length when the variable is set and 0 when it is not; the variable is present iff it is set to a non-empty string, which is iff that length is positive |
| EnvCheck.Variables | env-check.js:17-26 | the report has exactly the three required and one optional names as keys |
| EnvCheck.Missing | env-check.js:28 | `missing` is a subsequence of the required names, in declaration order, holding exactly those not present |
| EnvCheck.Check | env-check.js:28-34 | `ok` holds iff every required variable is present, iff `missing` is empty |
| EnvCheck.Handle | env-check.js:3-44 | a non-GET gets 405 with `{ error: 'Method Not Allowed' }`; a GET always gets 200 with the report, whatever `ok` is |
| EnvCheck.ReportRevealsOnlyLengths | env-check.js:19-26 | two environments whose reported variables have equal lengths get identical answers, so no value is revealed |
| EnvCheck.EmptyCountsAsUnset | env-check.js:23-24 | a variable set to `''` is reported exactly like an unset one |
| AssignmentCreate.AssignmentRow | functions/assignment-create.js:39 | the inserted row has the title, `description`/`section`/`due_date` as given when truthy and `null` otherwise, and `active: true` |
| AssignmentCreate.TargetRows | functions/assignment-create.js:75 | one target row per class id, in order, each carrying that class id and the new assignment's id |
| AssignmentCreate.QuestionRow | functions/assignment-create.js:85-90 | a question row carries the id and text, `standard_code` or `null` when falsy, `iep_codes` when it is an array or else `null`; a `null` question throws |
| AssignmentCreate.QuestionRows | functions/assignment-create.js:85-90 | one row per question, in order, unless some question is `null`, which throws |
| AssignmentCreate.ListProp | functions/assignment-create.js:74 | an array property gives exactly its items; an absent or non-array property gives nothing to post |
| AssignmentCreate.ObjectName | functions/assignment-create.js:46 | the object name is the rendered id followed by `/index.html` (`undefined/index.html` for a missing id), so ids that render differently get different objects |
| AssignmentCreate.PublicUrl | functions/assignment-create.js:64-70 | the public URL is the storage's public endpoint followed by the same `assignments/<object>` path the row's `storage_path` records |
| AssignmentCreate.Publish | functions/assignment-create.js:64-102 | after a successful upload the row is patched with `assignments/<object>` and the public URL; the patch is followed by the targets write for a non-empty `class_ids` and then, unless a question is `null`, by the questions write for a non-empty `questions`; the run rolls back exactly when the calls before the patch did; the answer is 200 with `ok`, the id and that URL unless a question is `null`, which gives 500 after the targets write |
| AssignmentCreate.PublishPosts | functions/assignment-create.js:73-96 | after calls that post no targets or questions, the targets are posted iff `class_ids` has items, as `TargetRows`, and the questions iff `questions` has items and none is `null`, as `QuestionRows` |
| AssignmentCreate.TargetsPostedIff | functions/assignment-create.js:43-81 | over every request, class targets are posted iff the body was valid, the insert returned a row, the upload succeeded and `class_ids` is a non-empty array; they are one row per class id for the new assignment |
| AssignmentCreate.QuestionsPostedIff | functions/assignment-create.js:43-96 | over every request, questions are posted iff the body was valid, the insert returned a row, the upload succeeded and `questions` is a non-empty array with no `null`; they are the rows built from that array for the new assignment |
| AssignmentCreate.Store | functions/assignment-create.js:43-62 | an empty insert result gives 500; otherwise the HTML is uploaded under `<id>/index.html`, and a failed upload deletes the same row and answers `Upload failed: <text>` with the upload's status, with no further calls |
| AssignmentCreate.Create | functions/assignment-create.js:28-105 | bad JSON gives 500 and a falsy `title` or `htmlText` gives 400, both with no backend call; otherwise the insert is the first call, and a failed insert forwards its status with no upload |
| AssignmentCreate.Handle | functions/assignment-create.js:20-26 | the gate, including authorisation, runs before the body is parsed, and a stopped request makes no call |
| AssignmentCreate.RollbackExactlyOnUploadFailure | functions/assignment-create.js:57-62 | a run deletes an assignment iff the body was valid, the insert returned a row, and the upload failed |
| AssignmentCreate.CreatedPageIsRecorded | functions/assignment-create.js:46-71 | a created assignment's page was uploaded as `<id>/index.html`; the row was patched with `assignments/<id>/index.html` and with the same public URL the response returns, `<SUPABASE_URL>/storage/v1/object/public/assignments/<id>/index.html`; nothing was deleted |
| AssignmentCreate.NullQuestionLeavesAssignment | functions/assignment-create.js:84-105 | a `null` question fails the request with 500 only after insert, upload and patch, and nothing is undone |
| AssignmentCreate.EmptyBodyWritesNothing | functions/assignment-create.js:29-33 | an absent or empty body gives 400 with no backend call |
| ToolkitIndex.StripExtension | scripts/build-math-toolkit-index.js:23 | the name is shortened iff it has a last `.` followed by at least one character, and then exactly to before that dot |
| ToolkitIndex.TrailingDotKeepsName | scripts/build-math-toolkit-index.js:23 | a name ending in `.` is unchanged by the extension step |
| ToolkitIndex.CollapseFrom | scripts/build-math-toolkit-index.js:24-25 | every output character is a space or a non-run character of the input; apart from spaces, exactly the input's non-run characters survive, in order; text without run characters is unchanged |
| ToolkitIndex.CollapseSeparates | scripts/build-math-toolkit-index.js:24-25 | collapsing runs never leaves two run characters side by side |
| ToolkitIndex.Capitalize | scripts/build-math-toolkit-index.js:27 | exactly the word characters at a word boundary are upper-cased; every other character is unchanged |
| ToolkitIndex.CapitalizeIdempotent | scripts/build-math-toolkit-index.js:27 | capitalising twice equals capitalising once |
| ToolkitIndex.Humanize | scripts/build-math-toolkit-index.js:21-28 | the title has no `-` or `_`, no leading or trailing whitespace, and no two whitespace characters in a row |
| ToolkitIndex.HumanizePlainWord | scripts/build-math-toolkit-index.js:21-28 | a name without `.`, `-`, `_` or whitespace only has its word starts upper-cased |
| ToolkitIndex.GetFirst | scripts/build-math-toolkit-index.js:30-33 | no match gives `''`; otherwise the trimmed first group if non-empty, else the trimmed second group, else `''`; the result never has edge whitespace |
| ToolkitIndex.FindThumbnail | scripts/build-math-toolkit-index.js:58-65 | gives `''` iff no candidate exists; otherwise an existing candidate with no existing candidate before it in the order png, jpg, jpeg, webp |
| ToolkitIndex.HtmlSuffix | scripts/build-math-toolkit-index.js:79 | measures a trailing `.html` or `.htm` in any letter case, and is zero iff there is none |
| ToolkitIndex.Title | scripts/build-math-toolkit-index.js:85 | the extracted title when non-empty, otherwise `humanize(name)` |
| ToolkitIndex.ModuleOf | scripts/build-math-toolkit-index.js:79-121 | a record exists iff the entry is an `.html`/`.htm` file or a directory with `index.html`; a file's slug drops that suffix, its url is `./modules/<name>` and its thumbnail is `./modules/` + (og:image or the modules-folder thumbnail) or `''`; a directory's slug is its name, its url ends in `/`, and its own thumbnail is used when there is no og:image |
| ToolkitIndex.Collect | scripts/build-math-toolkit-index.js:77-125 | exactly one record per qualifying entry: every record is the record of some listed entry, every qualifying entry's record is present, and the count equals the number of qualifying entries |
| ToolkitIndex.Insert | scripts/build-math-toolkit-index.js:128 | inserting into a newest-first list keeps it newest first and adds exactly that record |
| ToolkitIndex.SortNewestFirst | scripts/build-math-toolkit-index.js:128 | the result is ordered by non-increasing `lastModified` and is a permutation of the input |
| ToolkitIndex.SortKeepsSorted | scripts/build-math-toolkit-index.js:128 | a list already newest first is returned unchanged |
| ToolkitIndex.Scan | scripts/build-math-toolkit-index.js:67-130 | the index is newest first and is a permutation of the collected records |
| SiteNav.SectionOfPath | site/assets/js/site.js:11-14 | Language Arts iff the path contains `/language-arts/`; Life Skills iff it does not but contains `/life-skills/`; otherwise none |
| SiteNav.GetSection | site/assets/js/site.js:2-15 | a non-empty meta content mentioning "language" decides Language Arts, then one mentioning "life" decides Life Skills; any other meta falls through to the lower-cased path |
| SiteNav.SectionIgnoresCase | site/assets/js/site.js:11 | the path's letter case never changes the section |
| SiteNav.SiteBase | site/assets/js/site.js:17-23 | gives `/` iff the path has no `/site/`; otherwise a prefix of the path that ends in its first `/site/` |
| SiteNav.CollapseFirstSlashes | site/assets/js/site.js:27 | the first run of `/` becomes one `/` and everything before and after it is kept, later runs included; text without `/` is unchanged; the result is never longer |
| SiteNav.SingleSlashesKept | site/assets/js/site.js:27 | a path with no doubled slash is unchanged |
| SiteNav.LandingPageOfPlainBase | site/assets/js/site.js:25-29 | for a site base with no doubled slash, a page is the section's landing page iff its lower-cased path is the lower-cased base followed by `<section>/`, or by `<section>/index.html` |
| SiteNav.LandingPageAtRoot | site/assets/js/site.js:17-29 | outside a `/site/` folder the landing pages are exactly `/<section>/` and `/<section>/index.html`, in any letter case |
| SiteNav.InsertBackButton | site/assets/js/site.js:31-69 | nothing is inserted without a section or on a landing page; otherwise the section link comes first, followed by the toolkit link on a `/language-arts/toolkit/presentations/` path, then the original children |
| SiteNav.InitializeNavigation | site/assets/js/site.js:76-80 | the original children are kept at the end, and only back links are added in front of them |

## Left out

- I/O is left out: `fetch`, the REST and storage APIs, file reading, directory listing and
  `stat`. Backend answers are inputs, and calls are recorded as values.
- `rest`/`jsonRes` (netlify/functions/_lib/supa.js) is not part of this model. A successful read
  is its rows, which are objects. A failed read is its status and `Failed.shown`, the
  `String(data)` the handlers forward as the reply body. `data` is `JSON.parse(text)` whenever
  the text parses, so `shown` is the raw text only for non-JSON text. A JSON error object shows
  as `[object Object]`, a JSON string loses its quotes, and a JSON array shows comma-joined.
  The model takes `shown` as given and does not compute it from the text. The storage upload's
  failure in assignment creation forwards the raw `text()` and is modelled as such
  (`AssignmentCreate.Stored`).
- A rejected `fetch` (a network error) is not modelled. In the handlers it would become a 500.
- The results of the PATCH, target and question writes in assignment creation are not inputs,
  because the handler ignores them.
- Real HMAC-SHA-256, JSON and UTF-8 are not written out; collision resistance is not assumed.
  The tamper and wrong-secret lemmas therefore take "the two MACs differ" as a hypothesis.
- `Base64Url.StdDecode` is a strict decoder, and this is a divergence. Node's `Buffer.from(…,
  'base64')` skips characters outside the alphabet and ignores a lone trailing digit. A token whose
  MAC matches but whose payload segment has such characters is accepted by the code and
  rejected by `Auth.Verify`. Only a holder of the secret can produce such a token, and `Sign`
  never does: its segments are exact encodings (`Base64Url.B64UrlRoundTrip`).
- JSON objects are `map`s, so the key order that JavaScript objects keep is not modelled.
  In the code, that order fixes the exact bytes `JSON.stringify` produces and `sign` MACs.
  The model's `stringify` is a parameter, so it sees only the key/value map.
- Numbers are integers. Fractions, `NaN` produced from strings and objects, and 53-bit precision
  are outside the model. `toNumber` is a parameter that must map a number to itself.
- `toLowerCase`/`toUpperCase` are modelled on ASCII letters only.
- String length counts Unicode scalar values rather than UTF-16 code units. This affects the
  reported lengths in `EnvCheck.Describe`.
- `Set.has` is compared structurally. JavaScript compares object ids by identity, and ids here
  are numbers or strings in practice.
- Object keys that name inherited `Object.prototype` properties (such as `constructor`) are not
  modelled. Used as an `assignment_id`, such a key would make the grouping throw.
- URL parsing of `event.rawUrl` is left out: query parameters are given as a map. Full REST
  paths appear only as `Path` renderings. `encodeURIComponent` is a parameter of
  `ToolkitIndex.ModuleOf`.
- CORS and content-type headers are constant and left out. Error message texts inside
  `Server error: …` are left out.
- Timestamps are integers: ISO rendering of `lastModified` and `Date` parsing are left out.
- The HTML extraction patterns (`extractFromHtml`) and the tag-stripping of the description
  fallback are inputs (`ToolkitIndex.Meta`, `ToolkitIndex.Match`). So is a failing entry
  skipped by the scan's `catch`.
- `main` (writing `modules.json` if changed) is left out, as are `centerHeadings`, DOM queries,
  element creation and event listeners in `site.js`.
- `ToolkitIndex.IsHtmlName` follows the pattern `/\.html?$/i`. The file test in
  scripts/build-math-toolkit-index.js:79 is written `\/\.html?$/i` with a stray leading
  backslash, which JavaScript rejects as a syntax error. The model ignores the backslash and
  uses the evidently intended pattern, the one that line 92 uses to strip the suffix.
- `ToolkitIndex.SortNewestFirst`: stability is not stated. The order of records with equal
  `lastModified` is unconstrained by its contract.
- `netlify/functions/submissions-create.js`, `netlify/functions/assignments-list.js` and
  `site/assets/js/adit-week6-bg-preload.js` are not part of this model. The first two forward a
  single backend call; the third probes images and styles the page.
- `Auth.Verify` accepts `now == exp`, as the code does. Section 4.1.4 of RFC 7519 asks for
  rejection "on or after" the expiry time, so the code's boundary is one second later than the
  standard's.
