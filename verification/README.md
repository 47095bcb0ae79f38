# Diff pairs excluding merges: a Dafny model

This project models the range-history helper of `src/git-helpers.ts`. The helper
takes the output of `git log --pretty=format:"%H %P" previousHead..newHead`. The
log lists one commit per line, newest first: the commit's hash, then its parent
hashes. The helper turns this into an ordered list of `(from, to)` diff pairs.
It walks the lines from the bottom up, with a cursor that starts at `newHead`.
Each line with at most two words (a non-merge commit) emits `(hash, cursor)`
and becomes the new cursor. Lines with more than two words (merges) are
skipped. A closing pair `(previousHead, cursor)` ends the list. A second
function diffs every pair in order, concatenates the diffs, and returns `null`
when the concatenation is whitespace only.

Modules:

- `JsString` (`js_string.dfy`) writes out the two JavaScript built-ins the code
  depends on. `Split` is `String.prototype.split` with a one-character
  separator: n separators give n + 1 pieces, and `""` gives `[""]`. `Trim` is
  `String.prototype.trim`, with ECMAScript's WhiteSpace and LineTerminator code
  points listed explicitly.
- `GitHelpers` (`git_helpers.dfy`) holds the specification functions (`Pairs`,
  `FullDiff`, `Aggregate`) and the two operations as methods with the source's
  loops. `GetDiffPairsExcludingMerges` has the down-counting walk and
  `GetDiffExcludingMerges` the `+=` accumulation. Each method is proved to
  compute its specification function.
- `GitHelpersProperties` (`git_helpers_properties.dfy`) proves what the pair
  list and the aggregate promise.

Inputs in place of commands: the text printed by `git log` is a parameter. The
`git diff from to` command is a function parameter `diff(from, to)`, so the
model takes one diff per pair, over an unchanged repository.

One might expect an empty log (for example `previousHead == newHead`) to yield
the single pair `(previousHead, newHead)`. In the code, `"".split('\n')` is
`[""]`, one empty line with one word, and so not a merge. The result is
therefore `[("", newHead), (previousHead, "")]` (`EmptyLog`). The single pair
`(previousHead, newHead)` comes only from a log whose every line is a merge
(`OnlyMergesGiveOnePair`).

A related edge: deleting the merge lines from the log text leaves the pairs
unchanged only while one non-merge line remains (`MergeLinesDeletedFromText`).
At the level of lines it holds always (`MergeLinesIgnored`). If every line is
a merge, deleting them all leaves `""`, which pairs differently
(`DeletingEveryLineChangesPairs`).

## Model

| member | source | states |
|---|---|---|
| `JsString.Split` | src/git-helpers.ts:24 | `split` on one character always gives at least one piece, and no piece contains the separator |
| `JsString.SplitCount` | src/git-helpers.ts:24 | there is exactly one piece more than there are separators in the text |
| `JsString.JoinSplit` | src/git-helpers.ts:24 | joining the pieces with the separator gives back the split text, so splitting loses nothing |
| `JsString.SplitJoin` | src/git-helpers.ts:24 | separator-free pieces (at least one) joined and split again give back the same pieces |
| `JsString.TrimStart` | src/git-helpers.ts:76 | the result is a suffix of the input, everything dropped is whitespace, and the result does not start with whitespace |
| `JsString.TrimEnd` | src/git-helpers.ts:76 | the result is a prefix of the input, everything dropped is whitespace, and the result does not end with whitespace |
| `JsString.Trim` | src/git-helpers.ts:76 | `s.trim()` neither starts nor ends with whitespace, and `s.trim() === ''` holds exactly when every character of `s` is whitespace |
| `GitHelpers.LogLines` | src/git-helpers.ts:24 | the log always splits into at least one line, and no line contains a newline |
| `GitHelpers.CommitHash` | src/git-helpers.ts:35-38 | `words[0]` is the longest prefix of the line without a space: a prefix, space-free, and followed by a space unless it is the whole line |
| `GitHelpersProperties.MergeLineIffTwoSpaces` | src/git-helpers.ts:35-41 | `IsMergeLine`, the test `words.length > 2`, holds exactly when the line contains at least two spaces |
| `GitHelpers.StepPairs` | src/git-helpers.ts:43-49 | the loop pushes one pair per visited hash, and the first pushed pair goes from the first visited hash to `newHead` |
| `GitHelpers.Pairs` | src/git-helpers.ts:18-56 | the pair list is never empty, its first pair ends at `newHead` and its last pair starts at `previousHead` |
| `GitHelpers.GetDiffPairsExcludingMerges` | src/git-helpers.ts:18-56 | the bottom-up loop with its cursor returns exactly `Pairs(logText, previousHead, newHead)` |
| `GitHelpers.FullDiffSnoc` | src/git-helpers.ts:66-73 | appending the diff of one more pair to the accumulator gives the full diff of the longer pair list |
| `GitHelpers.Aggregate` | src/git-helpers.ts:58-82 | the result is null exactly when the full diff is whitespace only, and otherwise it is the full diff unchanged |
| `GitHelpers.GetDiffExcludingMerges` | src/git-helpers.ts:58-82 | the accumulation loop and the blank check return exactly `Aggregate` of the pairs, their diffs taken in pair order |
| `GitHelpersProperties.NonMergeLinesKeep` | src/git-helpers.ts:35-43 | every kept line is a line of the log with at most two words, and every such line is kept |
| `GitHelpersProperties.NonMergeLinesSnoc` | src/git-helpers.ts:41-43 | filtering out merges distributes over adding a line at the bottom of the log |
| `GitHelpersProperties.NonMergeLinesCount` | src/git-helpers.ts:41-43 | the filter keeps as many lines as there are lines with at most two words |
| `GitHelpersProperties.VisitOrderBottomUp` | src/git-helpers.ts:33-49 | the loop visits the hashes of the kept lines, one per kept line, from the bottom line of the log to the top one |
| `GitHelpersProperties.StepPairsAt` | src/git-helpers.ts:43-49 | the k-th pushed pair starts at the k-th visited hash and ends at the hash visited before it, the first one at `newHead` |
| `GitHelpersProperties.ChainShape` | src/git-helpers.ts:30-53 | the closing pair starts at `previousHead`, the first pair ends at `newHead`, and each pair ends where the one before it starts |
| `GitHelpersProperties.PairsCount` | src/git-helpers.ts:33-53 | the number of pairs is the number of log lines with at most two words, plus one |
| `GitHelpersProperties.TopMostIsFirstKept` | src/git-helpers.ts:41-48 | no line is kept exactly when there is no non-merge line; otherwise the first kept line is the top-most non-merge line |
| `GitHelpersProperties.LastPair` | src/git-helpers.ts:43-53 | the last pair is `(previousHead, h)`, where `h` is the hash of the top-most non-merge line, or `newHead` if every line is a merge |
| `GitHelpersProperties.OnlyMergesKeepNothing` | src/git-helpers.ts:41-43 | when every line has more than two words, no line is kept |
| `GitHelpersProperties.OnlyMergesGiveOnePair` | src/git-helpers.ts:30-53 | a log whose every line is a merge gives exactly `[(previousHead, newHead)]` |
| `GitHelpersProperties.PairsChain` | src/git-helpers.ts:45-53 | the first pair ends at `newHead`, and each pair ends where the pair before it starts |
| `GitHelpersProperties.KeptLinesStartPairs` | src/git-helpers.ts:33-48 | for any lines, the pairs before the last start at the hashes of the non-merge lines, from the bottom line to the top |
| `GitHelpersProperties.StepPairsFromBottomUp` | src/git-helpers.ts:24-48 | the same for the lines of a log text |
| `GitHelpersProperties.VisitedAreNonMergeHashes` | src/git-helpers.ts:35-48 | every hash the loop moves the cursor to is the first word of a log line with at most two words |
| `GitHelpersProperties.ChainEndpoints` | src/git-helpers.ts:30-53 | every `from` is a visited hash or `previousHead`, and every `to` is a visited hash or `newHead` |
| `GitHelpersProperties.PairEndpoints` | src/git-helpers.ts:41-53 | every `from` is `previousHead` or the hash of a non-merge line, and every `to` is `newHead` or such a hash, so, hashes being unique, no merge commit other than the two heads is an endpoint |
| `GitHelpersProperties.VisitOrderIgnoresMerges` | src/git-helpers.ts:41-49 | walking only the non-merge lines visits the same hashes as walking all lines |
| `GitHelpersProperties.MergeLinesIgnored` | src/git-helpers.ts:41-53 | pairing only the non-merge lines gives the same pair list as pairing all lines |
| `GitHelpersProperties.MergeLinesDeletedFromText` | src/git-helpers.ts:24-53 | deleting the merge lines from the log text gives the same pair list, provided some non-merge line remains |
| `GitHelpersProperties.DeletingEveryLineChangesPairs` | src/git-helpers.ts:24-53 | if every line is a merge, deleting them all leaves `""`, and `""` gives a different pair list |
| `GitHelpersProperties.EmptyLog` | src/git-helpers.ts:24-53 | an empty log gives `[("", newHead), (previousHead, "")]` |
| `GitHelpersProperties.SplitTwo` | src/git-helpers.ts:24 | two separator-free texts joined by the separator split back into exactly those two |
| `GitHelpersProperties.TwoWords` | src/git-helpers.ts:35 | a line `"x y"` made of two space-free words splits into `[x, y]` |
| `GitHelpersProperties.TwoLines` | src/git-helpers.ts:24 | a log `"t\nb"` made of two newline-free lines splits into `[t, b]` |
| `GitHelpersProperties.TwoNonMergeLines` | src/git-helpers.ts:33-53 | two non-merge lines give (bottom hash, `newHead`), then (top hash, bottom hash), then (`previousHead`, top hash) |
| `GitHelpersProperties.LinearTrace` | src/git-helpers.ts:33-53 | for any hashes, the history C, B, A logged as `"C B\nB A"` with heads (A, C) pairs to `[(B, C), (C, B), (A, C)]` |
| `GitHelpersProperties.LinearTraceABC` | src/git-helpers.ts:33-53 | the same trace on the literal hashes `A`, `B` and `C` |
| `GitHelpersProperties.DiffsInPairOrder` | src/git-helpers.ts:66-73 | the diff of pair k sits after the diffs of all earlier pairs and before the diffs of all later pairs |

## Left out

- `runGitCommand` (src/git-helpers.ts:6-16): it spawns `git` through a shell and logs failures to the error console. The model takes the command outputs as inputs instead.
- The `git log` and `git diff` invocations (lines 20-21 and 68-69), including the interpolated command strings and their quoting. The log text is a parameter and the diff is a function parameter.
- Failures of either command and how they propagate: a rejected promise aborts the whole call with no partial result. The model has no error path because the inputs are always available.
- `async`/`await` sequencing. The model is sequential and synchronous, and the diffs are taken one at a time in pair order.
- JavaScript strings are UTF-16 code units, while Dafny's `char` is a Unicode scalar value. `Split` on `'\n'` and `' '` does not depend on this. The whitespace set of `trim` is written out by code point and assumed to match the engine's.
