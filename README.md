# EmailDiff, modelled in Dafny

EmailDiff is a MediaWiki extension with two hooks. `SendNotificationEmailDiff`
runs once for each recipient of a page-change notification email. It splices
a textual diff of the change into the body, at every `$PAGEDIFF` placeholder.
It can also append a configured suffix to the subject line. `SetEmailDiffPref`
registers the per-user toggle `enotifshowdiff`, which decides whether that
user's call generates the diff and adds the subject suffix; once the diff is
cached, every recipient's body carries it.

The first hook keeps three static fields for the whole PHP request:
- the subject line seen on the first call;
- the diff text, generated at most once and then reused for every recipient;
- whether that text is a real diff, as opposed to the new-page message or nothing.

Files:
- `wrappers.dfy`: module `Wrappers`, the `Option` type that stands for a PHP `null`.
- `str_replace.dfy`: module `StrReplace`. `ReplaceAll` is PHP's `str_replace` with one
  search string: it replaces non-overlapping occurrences, scanning left to right.
  `IndexOf` (leftmost occurrence) is its reference definition, and
  `ReplaceAllLeftmost` proves the two agree.
- `email_diff.dfy`: module `EmailDiffHooks`.
  - `Step` is the pure meaning of one hook call: old fields and call in, new fields and email out.
  - `Run` is a sequence of calls within one request.
  - Lemmas state what happens across repeated calls.
  - Class `EmailDiff` holds the three static fields as mutable fields. Its
    `SendNotificationEmailDiff` is written statement by statement like the PHP
    code and is proved equal to `Step`. `SetEmailDiffPref` updates the
    preference map that PHP passes by reference.

The outside world is a value of type `Host`:
- the text of the page's newest revision (`None` when `Revision::newFromTitle` finds none);
- the output of the configured diff command;
- the localised message function `wfMessage(key, param)->plain()`;
- the configured subject suffix `$wgEmailDiffSubjectSuffix`.

The recipient is `Impersonal` (a null `$watchingUser`) or a `Watcher` whose
`enotifshowdiff` option is a boolean. PHP's falsy `$oldid` is `oldId == 0`.
By-reference parameters (`&$header`, `&$subject`, `&$body`, `&$prefs`) become
input parameters plus out-parameters.

Behaviour the lemmas make explicit:
- `BodyIgnoresPreference`: the body substitution does not look at the
  recipient's preference. Once one qualifying recipient has filled the cache,
  a later recipient who did not opt in also gets the diff in the body, though
  without the subject suffix.
- `SubjectsStayAnchored`: every later call in the same request gets the
  subject stored by the first call, whatever subject it was passed.

## Model

| member | source | states |
|---|---|---|
| `StrReplace.ReplaceAll` | EmailDiff.php:116 | `str_replace` leaves a subject that does not contain the search string unchanged |
| `StrReplace.IndexOf` | EmailDiff.php:116 | the leftmost occurrence of the search string: it occurs there, it occurs nowhere earlier, and there is none exactly when the string does not contain it |
| `StrReplace.ReplaceAllLeftmost` | EmailDiff.php:116 | at the leftmost occurrence `i`, replacing all occurrences keeps the text before `i`, emits the replacement, and continues after the occurrence: matches do not overlap and are taken left to right |
| `StrReplace.ContainsMeansOccurs` | EmailDiff.php:116 | the recursive containment test used by the contracts holds exactly when the search string occurs at some index |
| `EmailDiffHooks.Step` | EmailDiff.php:34-119 | one hook call keeps the fields consistent, never changes the header, always stores a subject, never changes a stored subject, and never changes a cached text or the diff flag |
| `EmailDiffHooks.Generate` | EmailDiff.php:53-101 | the text the first qualifying call produces is a real diff exactly when the new revision exists and an old revision id is given; with no new revision it is empty; a diff is wrapped in newlines |
| `EmailDiffHooks.Run` | EmailDiff.php:17-19 | the fields persist across the calls of a request: one email per call, and consistency of the fields holds throughout |
| `EmailDiffHooks.FirstCallStoresSubject` | EmailDiff.php:37-39 | the first call stores the incoming subject as the original; its email's subject is that subject, plus at most the suffix |
| `EmailDiffHooks.LaterCallResetsSubject` | EmailDiff.php:40-43 | a later call restarts from the stored original, so its subject is the original, plus at most one suffix |
| `EmailDiffHooks.SuffixExactlyWhen` | EmailDiff.php:107-110 | the suffix is appended exactly when the recipient qualifies, a real diff exists and the suffix is non-empty; otherwise the subject equals the stored original |
| `EmailDiffHooks.NoGenerationForNonQualifying` | EmailDiff.php:45-48 | a recipient who has not opted in, and is not impersonal, changes neither the cached text nor the diff flag |
| `EmailDiffHooks.FirstQualifyingCallGenerates` | EmailDiff.php:50-51 | a qualifying call on an empty cache fills it with the generated text |
| `EmailDiffHooks.MissingRevisionCachesEmpty` | EmailDiff.php:53-57 | with no new revision the cache becomes the empty string and no diff is recorded |
| `EmailDiffHooks.NewPageCachesMessage` | EmailDiff.php:62-64 | with no old revision id the cache becomes the `emaildiff-newpage` message of the new text followed by a newline, and no diff is recorded |
| `EmailDiffHooks.DiffCachesIntro` | EmailDiff.php:65-100 | when both revisions exist the cache becomes newline, the `emaildiff-intro` message of the diff output, newline, and the diff flag is set |
| `EmailDiffHooks.HasDiffOnlyFromDiffCommand` | EmailDiff.php:63-100 | the diff flag after a call is set if and only if it was set before or this call ran the diff command |
| `EmailDiffHooks.BodyUsesCache` | EmailDiff.php:113-116 | every placeholder is replaced by the cached text, or by the empty string while nothing is cached |
| `EmailDiffHooks.BodyIgnoresPreference` | EmailDiff.php:113-116 | once the cache is filled, the body sent does not depend on the recipient or their preference |
| `EmailDiffHooks.BodyWithoutPlaceholderUnchanged` | EmailDiff.php:116 | a body without `$PAGEDIFF` is sent unchanged |
| `EmailDiffHooks.SubjectsStayAnchored` | EmailDiff.php:37-43 | once a subject is stored, every subject sent in the rest of the request is that subject, plus at most one suffix |
| `EmailDiffHooks.SubjectNeverAccumulates` | EmailDiff.php:37-110 | over a whole request, every recipient's subject is the first call's subject, plus at most one suffix |
| `EmailDiffHooks.CacheNeverRecomputed` | EmailDiff.php:50-51 | once the cache holds a text, no later call changes it or the diff flag, and every later body gets exactly that text |
| `EmailDiffHooks.NoOptInNoGeneration` | EmailDiff.php:45-51 | while no recipient qualifies, nothing is generated and placeholders get what was cached before |
| `EmailDiffHooks.GeneratedOnceAtFirstOptIn` | EmailDiff.php:45-105 | the final cached text is the one generated for the first qualifying recipient, and every email from that recipient on carries it |
| `EmailDiffHooks.EmailDiff.constructor` | EmailDiff.php:17-19 | a request starts with no stored subject, no cached text and no diff |
| `EmailDiffHooks.EmailDiff.SendNotificationEmailDiff` | EmailDiff.php:34-119 | the hook returns true, leaves the header alone, and its new fields and email are exactly those of `Step` |
| `EmailDiffHooks.EmailDiff.SetEmailDiffPref` | EmailDiff.php:130-138 | `enotifshowdiff` maps to the toggle (`type` toggle, `section` personal/email, `label-message` tog-emaildiff), every other key is unchanged, applying it again changes nothing, and it returns true |

## Left out

- Temporary files are not modelled: their creation, writing and deletion (`tempnam`, `fopen`, `fputs`, `fclose`, `unlink`). This is file I/O. So is the `$fh = fopen(...) || die(...)` idiom (EmailDiff.php:71, 79). It stores the boolean `true` in `$fh`, so the `fputs` calls at lines 72 and 80 write nothing: PHP 7 warns, and PHP 8 throws a `TypeError`, which the model does not cover. As written, the diff command therefore compares two empty temp files; `hasdiff` is still set (line 100) and the suffix is still added. `Host.diffOutput` is left unconstrained so that it covers this output as well as a real diff.
- Running the diff command is not modelled: building the command line from `$wgEmailDiffCommand`, `system`, and reading its output with `file_get_contents`. The command's output is the opaque input `Host.diffOutput`.
- The host's revision lookups are opaque. The new revision's text is an input. `Revision::newFromId` returning null for an existing but unknown `$oldid` makes PHP fail on `getText()`. The model does not cover that failure. The old text is otherwise unused: it is meant to reach the diff command through a temp file, but as written it is never written there (see above).
- Host calls are replaced: `wfMessage` by `Host.message`, `User::getOption` by the boolean in `Recipient`. `wfTempDir` only serves the temporary files and is left out.
- `$title` and the `$user` argument of `SetEmailDiffPref` only reach host lookups or are unused, so they are not parameters.
- PHP's loose truthiness is modelled for the types that occur: `$oldid` is an integer, with null treated as 0. A null suffix counts as the empty string.
- Preference descriptors are maps from string to string. The other preferences in the host's array may hold other PHP values; the model does not represent those.
- Static fields live for one PHP request. The model has one `EmailDiff` object per request and no concurrency. A single request, such as a job runner, can send notifications for several page changes; the stale subject and cached text then carry over to the later page. `Step` covers this, since it takes the host's answers per call.
- PHP arrays keep insertion order: `SetEmailDiffPref` appends `enotifshowdiff` at the end, or leaves it in place when the key already exists. A Dafny `map` has no order, so the model does not capture where the preference appears.
- `Run` gives the same host answers to every call in a sequence, as for one page change. `Step` and the class method take them per call.
