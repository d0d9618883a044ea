# Coverage tool UI controller: the text and state core

This project models the logic of the browser controller `frontend/js/script.js` of a code-coverage web tool. It covers the parts that compute something rather than touch the page, and proves properties of them:

- **New-content highlighting** (`highlightNewTests`). The combined test text is shown with every maximal run of new lines wrapped in a highlight marker. A line is new when its trimmed form is none of the existing lines. The output is a sequence of tokens (`Open`, `Close`, `Text`), so that line text holding `</span>` cannot pass for a marker; `Render` turns it back into the HTML string.
- **"Copy new tests only"** (`extractNewTestsOnly`). This is a pure function of the two panel texts. The copy is one of:
  - the whole combined text, when there are no existing tests;
  - the suffix from the sentinel comment `# NEWLY GENERATED TEST FOR MISSING COVERAGE`;
  - the new non-blank lines joined by newlines;
  - the whole combined text again, when no line qualifies.
- **Dropdown and URL field reconciliation** (`syncAzureRepoToUrl` and the 500 ms polling tick). This is a class with the fields `selectValue`, `urlField` and `lastDropdownValue`, whose methods update them in place. Pure step functions specify the methods, and a small event language (`Select`, `EditUrl`, `Sync`, `Tick`) states convergence.
- **Request checks.**
  - The case-insensitive Azure DevOps URL test.
  - Attaching the PAT (personal access token) to the analysis request.
  - The "Fetch Repos" input check: organisation and project are trimmed, the PAT is not.
- **Display helpers.**
  - The coverage-mode badge text and colour.
  - The notification alert class and icon.
  - The readable repository type (`mixed_content` becomes `Mixed Content`).

The shared string built-ins live in `strings.dfy`:
- JavaScript `split` and `join` on one character;
- `trim` with the ECMAScript whitespace set;
- ASCII case folding;
- first-occurrence search.

`linediff.dfy` holds the line-membership test that both the highlighter and the extraction use.

The loops of `highlightNewTests` and `extractNewTestsOnly` are methods with loop invariants. Each is proved equal to a recursive specification function (`Highlighted`, `NewTestsOnly`), and the properties are lemmas about those functions.

Three consequences of how the code is written:
- A combined line is compared by `line.trim()` against the existing lines *as they are*, untrimmed (lines 502 and 555). So an unchanged but indented line counts as new (`Highlight.IndentedExistingLineIsNew`).
- `extractNewTestsOnly` returns the whole combined text when the existing text is empty or the "none found" placeholder (lines 538-540), before it looks for the sentinel comment. The sentinel is then ignored even if it occurs.
- The comment at line 153 presents the polling tick as a check that the dropdown has a value but the URL field is empty. The tick acts only on a dropdown value it has not recorded yet (line 156). Once it has recorded the value, it never refills a URL field the user emptied or edited (`RepoSync.TickKeepsEditedUrl`). The field does come to show the dropdown value after a sync, or after a tick that sees an unrecorded value (`RepoSync.ReconcileConverges`).

## Model

| member | source | states |
|---|---|---|
| Strings.Split | frontend/js/script.js:494-495 | `split('\n')`: k separators give k + 1 pieces, empty ones included, and no piece holds the separator |
| Strings.JoinSplit | frontend/js/script.js:494-495 | joining the pieces of a split with the separator gives back the text |
| Strings.SplitJoin | frontend/js/script.js:561 | splitting a join of separator-free pieces gives back the pieces |
| Strings.LeadingWhitespaceShape | frontend/js/script.js:502 | the leading whitespace counted by `trim` is the longest whitespace prefix |
| Strings.TrailingWhitespaceShape | frontend/js/script.js:502 | the trailing whitespace counted by `trim` is the longest whitespace suffix |
| Strings.TrimShape | frontend/js/script.js:502 | `trim` keeps the middle of the string, drops only whitespace at both ends, and leaves no whitespace at either end |
| Strings.TrimEmptyIffBlank | frontend/js/script.js:555 | `line.trim()` is empty exactly when the line is all whitespace |
| Strings.TrimFixedPoints | frontend/js/script.js:22-23 | trimming leaves a string unchanged exactly when it has no whitespace at either end |
| Strings.TrimIdempotent | frontend/js/script.js:22-23 | trimming twice is trimming once |
| Strings.IndexOf | frontend/js/script.js:543-545 | the reported index is an occurrence with no earlier one, and none is reported exactly when there is no occurrence |
| LineDiff.NewLinesCounts | frontend/js/script.js:552-558 | every occurrence of a new, non-blank combined line is kept, repeated lines included, and no other line occurs among the kept lines |
| LineDiff.NewLinesIsSubsequence | frontend/js/script.js:554-558 | the kept lines keep their original order and text (a subsequence of the combined lines) |
| LineDiff.NewLinesEmptyIff | frontend/js/script.js:560-565 | nothing is kept exactly when no combined line is new and non-blank |
| Highlight.HighlightNewTests | frontend/js/script.js:488-520 | the returned tokens are those of the specification `Highlighted` |
| Highlight.MarkLines | frontend/js/script.js:497-517 | the loop with its final close marker produces `Emit` of the lines and their novelty flags |
| Highlight.AppendLine | frontend/js/script.js:504-512 | one iteration appends the run-change marker and the line with a newline, and the run flag becomes the line's novelty |
| Highlight.HighlightEmptyArgument | frontend/js/script.js:489-491 | with an empty argument the output renders to the combined text unchanged |
| Highlight.HighlightStripsToInput | frontend/js/script.js:494-513 | with every marker deleted the output is the combined text followed by one newline |
| Highlight.HighlightBalanced | frontend/js/script.js:498-517 | markers alternate Open, Close, Open, ..., never nest, and no run is left open at the end |
| Highlight.HighlightMarksNewLines | frontend/js/script.js:500-513 | each combined line appears once, in order, with a newline, and lies inside a run exactly when its trimmed form is not an existing line |
| Highlight.HighlightRunsMaximal | frontend/js/script.js:504-517 | every marker is directly followed by a line, except a Close that ends the output: no run is empty and none opens right where another closed |
| HighlightRuns.HighlightRunBoundaries | frontend/js/script.js:502-510 | an Open stands directly before exactly the new lines that start the text or follow a line that is not new, and a Close before exactly the lines that are not new and follow a new one |
| Highlight.IndentedExistingLineIsNew | frontend/js/script.js:502 | an indented line present verbatim in the existing text is still highlighted, because existing lines are not trimmed |
| Highlight.InsertedLineHighlighted | frontend/js/script.js:494-517 | a line inserted among existing lines without surrounding whitespace is the only highlighted line |
| ExtractNew.ExtractNewTestsOnly | frontend/js/script.js:534-566 | the returned text is that of the specification `NewTestsOnly` |
| ExtractNew.CollectNewLines | frontend/js/script.js:552-558 | the loop pushes exactly the kept lines, in order |
| ExtractNew.NoExistingTestsCopiesAll | frontend/js/script.js:538-540 | an empty existing text or the "No existing tests found for this function." placeholder copies the whole combined text |
| ExtractNew.SentinelStartsCopy | frontend/js/script.js:543-547 | when the sentinel occurs, the copy is a suffix of the combined text that begins with the sentinel at its first occurrence |
| ExtractNew.FallbackCopiesNewLines | frontend/js/script.js:550-565 | without the sentinel, the copy splits back into the kept lines (a subsequence of the combined lines), or is the whole combined text when none is kept |
| ExtractNew.FallbackLinesAreNew | frontend/js/script.js:554-561 | without the sentinel, a line of the copy is a combined line that is new and non-blank, and every such line is in the copy |
| ExtractNew.CopyComesFromCombined | frontend/js/script.js:534-566 | the copy is the combined text, a suffix of it, or made only of its lines |
| RepoSync.RepoSyncPage.constructor | frontend/js/script.js:154 | on page load the poll has recorded no dropdown value |
| RepoSync.RepoSyncPage.SyncAzureRepoToUrl | frontend/js/script.js:90-117 | the new state is `SyncStep` of the old one |
| RepoSync.RepoSyncPage.PollTick | frontend/js/script.js:155-164 | the new state is `TickStep` of the old one |
| RepoSync.SyncEffect | frontend/js/script.js:91-100 | a sync copies a non-empty dropdown value into the URL field, leaves the rest alone, and with an empty value changes nothing |
| RepoSync.TickEffect | frontend/js/script.js:156-162 | a tick never changes the dropdown, records a non-empty dropdown value, and with an empty one changes nothing |
| RepoSync.TickSyncsNewSelection | frontend/js/script.js:156-161 | a tick that sees an unrecorded non-empty value leaves it in the URL field |
| RepoSync.TickKeepsEditedUrl | frontend/js/script.js:156 | a tick that sees the value it recorded changes nothing, whatever the URL field holds |
| RepoSync.TickDoesNotOverrideEdit | frontend/js/script.js:156 | a URL typed after the poll recorded the dropdown value survives the next tick |
| RepoSync.SyncIdempotent | frontend/js/script.js:90-117 | a second sync with no change in between alters nothing |
| RepoSync.TickIdempotent | frontend/js/script.js:155-164 | a second tick with no change in between alters nothing |
| RepoSync.SyncTickCommute | frontend/js/script.js:156-162 | a sync then a tick and a tick then a sync end in the same state |
| RepoSync.ReconcileKeepsSelection | frontend/js/script.js:90-164 | syncs and ticks never change the dropdown value |
| RepoSync.ReconcileKeepsUrl | frontend/js/script.js:90-164 | once the URL field shows the non-empty dropdown value, syncs and ticks keep it |
| RepoSync.ReconcileConverges | frontend/js/script.js:90-164 | with only syncs and ticks, the URL field ends up showing the non-empty dropdown value if one sync happens, or one tick while the value is unrecorded |
| Requests.IsAzureUrl | frontend/js/script.js:179 | the URL is Azure exactly when `dev.azure.com` or `visualstudio.com` occurs in it, ignoring ASCII case |
| Requests.AzureUrlIgnoresCase | frontend/js/script.js:179 | lower-casing the URL does not change the test |
| Requests.AzureHostAnywhere | frontend/js/script.js:179 | any text around an Azure host name, in any ASCII case, makes an Azure URL |
| Requests.PatOnlyForAzure | frontend/js/script.js:181-183 | a URL naming no Azure host never carries the PAT |
| Requests.FetchReposRefusal | frontend/js/script.js:22-27 | the fetch is refused, with the fixed warning, exactly when organisation or project is all whitespace or the PAT is empty |
| Requests.FetchReposAccepted | frontend/js/script.js:22-24 | an accepted fetch carries non-empty trimmed organisation and project and the PAT as typed |
| Requests.FetchReposStable | frontend/js/script.js:22-24 | checking an accepted request's fields again accepts the same request |
| Requests.BlankPatAccepted | frontend/js/script.js:24-25 | the PAT is not trimmed, so a PAT of one space passes |
| Presentation.CoverageMode | frontend/js/script.js:284 | a missing or empty mode is `heuristic`, any other mode is lower-cased |
| Presentation.CoverageBadgeMeaning | frontend/js/script.js:284-287 | the badge reads "Tool (Executed)" in `bg-success` exactly when the mode is `tool` in any ASCII case, and "Heuristic" in `bg-info` otherwise |
| Presentation.AlertClassInjective | frontend/js/script.js:642 | two types other than `error` share a class only when they are equal |
| Presentation.NotificationIconMeaning | frontend/js/script.js:660-668 | success shows `check-circle`, error and warning `exclamation-triangle`, every other type `info-circle` |
| Presentation.ReadableTypeShape | frontend/js/script.js:711-714 | the readable type keeps the length, has no underscore, changes only ASCII case elsewhere, and starts no word with a lower-case letter |
| Presentation.ReadableTypeMeaning | frontend/js/script.js:711-714 | each underscore becomes a space, each ASCII letter or digit that starts the type or follows any other character (an underscore included) is upper-cased, and every other character is kept |
| Presentation.ReadableTypeIdempotent | frontend/js/script.js:711-714 | making a readable type readable again changes nothing |
| Presentation.MixedContentReadable | frontend/js/script.js:710-714 | `mixed_content` reads `Mixed Content` |
| Presentation.NonAsciiLetterBreaksWord | frontend/js/script.js:714 | a non-ASCII letter is not a word character, so `été` reads `éTé` |

## Left out

- Every `fetch` call and its promise chain (repository listing, analysis, test generation). These are network I/O against a backend that is not part of this model.
- DOM rendering, event wiring, the `MutationObserver` and the timers. The polling interval is modelled as its body only, and the listeners as the `Sync` event. The model assumes the dropdown and the URL field exist; the source's presence checks on them are not modelled.
- `RepoSync.RepoSyncPage.SelectRepo` and `RepoSync.RepoSyncPage.EditUrlField` stand for user and page actions, not for code of the controller.
- The validity-message calls, the logging, and the `input` and `change` events dispatched on the URL field inside `syncAzureRepoToUrl` (lines 103-104). No listener in the script reacts to those events, so the three modelled values are unaffected.
- The number and percentage animations, which use `requestAnimationFrame` and floating point.
- Clipboard copy, file download and `generateReport`, which use browser APIs and the clock.
- `showNotification` builds its element from the alert class and the icon; only those two values are modelled.
- Strings are sequences of Unicode scalar values. JavaScript strings are UTF-16 code units, so characters outside the Basic Multilingual Plane count as one character here and two there.
- `Strings.Lower` folds ASCII letters only. That is exact for the two comparisons it serves:
  - the `/i` regular expression test against ASCII host names;
  - the `=== 'tool'` comparison, since no non-ASCII character lower-cases to `t`, `o` or `l`.
- `Presentation.NotificationIcon` looks types up in a four-entry map. A JavaScript object literal would also answer inherited names such as `constructor`; those are not modelled.
- `Presentation.CoverageMode` takes the mode as an optional string. Other falsy JSON values (`null`, `false`, `0`) are not distinguished from a missing one, and non-string values are not modelled.
- Non-string arguments to `highlightNewTests` and `extractNewTestsOnly` (`null`, `undefined`) are not modelled. An empty string stands for every falsy argument.
