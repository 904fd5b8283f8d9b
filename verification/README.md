# fix_forui_batch.py, modelled in Dafny

`fix_forui_batch.py` is a one-shot migration script for Dart sources moving to
ForUi 0.15. For every `.dart` file it applies five text corrections in a fixed
order, sums the number of corrections each one reports, writes the file back
only when its text changed, and keeps two global counters: files modified and
total corrections.

This project models that core as pure functions on strings and proves what
each correction does:

- `onPressed:` becomes `onPress:` (`Rules.FixOnPressed`);
- `FButtonStyle.primary|outline|destructive` become `Variant.…`
  (`Rules.FixButtonStyle`);
- `, design: FButtonCustomStyle(…)` parameters are deleted
  (`Rules.RemoveDesignParameter`);
- `label: '<text>'` becomes `label: const Text('<text>')` everywhere
  (`Rules.FixLabel`);
- the same rewrap applied line by line, only while a flag says the scan is
  inside an `FTextField(` call (`TextField.FixTextFieldLabel`);
- the chain, the write-back decision and the counters (`Driver`).

Python's string and regular-expression calls are not taken as primitives. All of them
(`str.count`, `str.replace`, `re.findall`, `re.sub`, `re.search`) perform the
same leftmost, non-overlapping scan. Module `Scanner` defines that scan once,
for any pattern, and proves it equal to a declarative partner. `Tiles` says
the matches are ordered, do not overlap, and leave no match position
uncovered. `Splice` says the output copies every character outside the
matches and puts each match's replacement in its place. Module `Patterns`
spells out the three regular expressions character by character:

- `\s*` is a maximal run of characters for which Python's `str.isspace` holds;
- `[^)]*\)` and `[^']+'` run to the first closing character.

Each pattern is proved to match exactly where its textual shape is laid out.

Modules:

| file | module | contents |
|---|---|---|
| wrappers.dfy | Wrappers | `Option` |
| text.dfy | Text | whitespace, substring tests, the two scans the patterns use |
| scanner.dfy | Scanner | the generic scan, `Tiles`, `Splice`, first match |
| patterns.dfy | Patterns | the patterns of the rules and their shapes |
| literal.dfy | LiteralReplace | literal replace: no old token survives, length bookkeeping |
| rules.dfy | Rules | the four whole-text corrections |
| lines.dfy | Lines | `split('\n')` and `'\n'.join` and their round trips |
| textfield.dfy | TextField | the line-by-line `FTextField` correction |
| driver.dfy | Driver | the chain, `process_file`, the counters |

## Model

| member | source | states |
|---|---|---|
| Text.IsSpace | fix_forui_batch.py:41 | Python's `\s` on str patterns (also at lines 49, 73 and 77): exactly the characters for which `str.isspace()` holds |
| Text.SkipSpaces | fix_forui_batch.py:41 | the `\s*` run from `i` is all whitespace and stops at a non-space or the end |
| Text.FindChar | fix_forui_batch.py:49 | the run from `i` holds no `c` and stops at the first `c` or the end |
| Text.SpaceRunIsMaximal | fix_forui_batch.py:41 | any whitespace run followed by a non-space is the run `\s*` takes |
| Text.FindCharStopsAtFirst | fix_forui_batch.py:49 | any run free of `c` followed by `c` is the run `[^c]*c` takes |
| Scanner.Matches | fix_forui_batch.py:33 | every match the scan lists starts inside the text, at or after the start |
| Scanner.Search | fix_forui_batch.py:73-74 | `re.search` returns a match position with no match before it, or none when the pattern matches nowhere |
| Scanner.MatchesTile | fix_forui_batch.py:33 | the matches `findall` counts are ordered, disjoint, and leave no match position outside them |
| Scanner.TilesUnique | fix_forui_batch.py:33 | any ordered, disjoint, covering list of matches is exactly the list the scan takes |
| Scanner.TilingIsTheScan | fix_forui_batch.py:42-43 | the count of `findall` is the number of matches in the unique tiling of the text |
| Scanner.SubIsSplice | fix_forui_batch.py:35 | `re.sub` copies every character outside the scan's matches, in order, and replaces each match by its replacement |
| Scanner.NoMatchesUnchanged | fix_forui_batch.py:43 | a substitution that finds no match returns its input |
| Scanner.UnmatchedUnchanged | fix_forui_batch.py:43 | a whole-text substitution that finds no match returns the text |
| Scanner.NoMatchesIffNowhere | fix_forui_batch.py:42 | the scan finds no match exactly when the pattern matches at no position |
| Scanner.SearchIsFirstMatch | fix_forui_batch.py:73-74 | `re.search` finds nothing exactly when `findall` is empty, and otherwise finds `findall`'s first match |
| Scanner.SubUpToFirst | fix_forui_batch.py:77 | up to the first match the substitution copies its input, and there it puts that match's replacement |
| Scanner.Sub | fix_forui_batch.py:35 | the left-to-right replace of `re.sub` here and at lines 21, 43, 57 and 77 (`str.replace` at 21); its meaning, copy the gaps and replace each match of the tiling, is `Scanner.SubIsSplice` |
| Scanner.SubChanges | fix_forui_batch.py:57 | a substitution whose first replacement differs from the matched text changes the string |
| Patterns.DesignAt | fix_forui_batch.py:41 | a design-parameter match is at least 28 characters long, lies in the text, and is replaced by nothing |
| Patterns.LabelAt | fix_forui_batch.py:49 | a label match lies in the text and captures a non-empty group |
| Patterns.MatchAt | fix_forui_batch.py:20-57 | every pattern of the rules matches only non-empty stretches inside the text |
| Patterns.DesignAtShape | fix_forui_batch.py:41 | a design-parameter match is a comma, whitespace, `design:`, whitespace, `FButtonCustomStyle(`, a run without `)`, and `)` |
| Patterns.DesignAtComplete | fix_forui_batch.py:41 | wherever that shape is laid out, the pattern matches there and covers exactly the shape |
| Patterns.LabelAtShape | fix_forui_batch.py:49 | a label match is `label:`, whitespace, a quote, a non-empty run without quotes, and a quote, and it captures the run |
| Patterns.LabelAtComplete | fix_forui_batch.py:49 | wherever that shape is laid out, the label pattern matches there and captures the quoted text |
| Patterns.Wrap | fix_forui_batch.py:55 | the replacement `label: const Text('<text>')`; `Patterns.RewrapDiffers` shows it always differs from the match it replaces |
| Patterns.RewrapDiffers | fix_forui_batch.py:55 | the rewrap `label: const Text('…')` differs from the label match it replaces within the first eight characters |
| LiteralReplace.Fenced | fix_forui_batch.py:21 | a simple sufficient condition under which no occurrence of the old token can overlap a replacement |
| LiteralReplace.SubAvoids | fix_forui_batch.py:21 | after a literal replace of fenced tokens, the old token occurs nowhere in the output |
| LiteralReplace.SubLength | fix_forui_batch.py:20-21 | a literal replace that shortens each token by `d` shortens the text by `d` per counted occurrence |
| Rules.FixOnPressed | fix_forui_batch.py:18-22 | the count equals the number of matches in the tiling and the output is that tiling's splice, each `onPressed:` replaced by `onPress:` and everything else copied; no `onPressed:` remains; the text shrinks by 2 per count; the text changes exactly when the count is positive |
| Rules.LiteralLength | fix_forui_batch.py:20-21 | a shortening literal replace changes the text exactly when it counted an occurrence |
| Rules.OnPressedFenced | fix_forui_batch.py:20-21 | `onPress:` can neither overlap nor complete an `onPressed:` |
| Rules.StyleRenamesFenced | fix_forui_batch.py:27-31 | no `Variant.…` name can overlap or complete any `FButtonStyle.…` name |
| Rules.FixButtonStyle | fix_forui_batch.py:24-36 | the result is the declarative `StyleSteps`: `FButtonStyle.primary`, `.outline`, `.destructive` become `Variant.primary`, `.outline`, `.destructive` in that order, each step splicing its tiling into the previous output, and the count is the sum of the three tilings' sizes; none of the three `FButtonStyle.…` names remains; the text shrinks by 5 per count; it changes exactly when the count is positive |
| Rules.RenameAll | fix_forui_batch.py:32-35 | the loop over the (pattern, replacement) pairs; it equals the declarative `StyleSteps` by `Rules.StyleStepsIsRenameAll` |
| Rules.StyleStepsIsRenameAll | fix_forui_batch.py:32-35 | each step of the loop counts the matches of the unique tiling of its pattern and replaces exactly them, on the previous step's output, and the counts add up |
| Rules.RenameAllAvoids | fix_forui_batch.py:32-35 | after the sequence of renames an old name occurs nowhere, even if an earlier rename's output could have held it |
| Rules.RenameAllLength | fix_forui_batch.py:32-35 | the per-step counts add up to one fifth of the length lost, and nothing changes when nothing is counted |
| Rules.RemoveDesignParameter | fix_forui_batch.py:38-44 | the count is the number of matches in the tiling; the output is the input with exactly those spans deleted; each deletion removes at least 28 characters; the text changes exactly when the count is positive |
| Rules.DesignLength | fix_forui_batch.py:41-43 | each counted design parameter removes at least 28 characters |
| Rules.FixLabel | fix_forui_batch.py:46-58 | the count is the number of matches in the tiling; the output is the splice of their rewraps; the text changes exactly when the count is positive |
| Rules.LabelChangesIffMatched | fix_forui_batch.py:49-57 | the label substitution changes the text exactly when `findall` found a match |
| Rules.LabelRewrap | fix_forui_batch.py:53-55 | a label match is replaced by `label: const Text('` + the quoted text + `')`, with the whitespace after `label:` normalised |
| Rules.RewrapChanges | fix_forui_batch.py:53-57 | rewrapping label matches changes any text that holds one, whether the wrapped text is the match's own group or a fixed one |
| Lines.Split | fix_forui_batch.py:64 | `split('\n')` returns at least one piece and no piece holds a line feed |
| Lines.Join | fix_forui_batch.py:85 | `'\n'.join`: its meaning is given by `Lines.JoinSplit` and `Lines.SplitJoin`, which make it the inverse of `split('\n')` |
| Lines.JoinSplit | fix_forui_batch.py:64-85 | joining the pieces of a text with line feeds gives back the text |
| Lines.SplitJoin | fix_forui_batch.py:64-85 | splitting the join of lines without line feeds gives back the lines |
| Lines.SplitCount | fix_forui_batch.py:64 | a text has one more line than it has line feeds |
| TextField.Opens | fix_forui_batch.py:70 | the line holds `FTextField(`, which sets the flag |
| TextField.HasLabel | fix_forui_batch.py:73 | the label pattern matches somewhere in the line; `TextField.LabelSearch` shows this is when `re.search` succeeds |
| TextField.Closes | fix_forui_batch.py:77-81 | processed while the flag is set, the line clears it: it holds `)` already, or it holds a label, whose rewrap ends in `)` (`TextField.RewrapHasParen`) |
| TextField.RewrapLine | fix_forui_batch.py:76-77 | every label match of the line rewrapped around the first match's text; `TextField.RewrapChangesLine` and `TextField.RewrapKeepsLine` state that it changes the line and adds no line feed |
| TextField.FirstLabelText | fix_forui_batch.py:74-76 | the captured text comes from a label match with no match before it |
| TextField.LabelSearch | fix_forui_batch.py:73-74 | the search succeeds exactly when the line holds a label, and then at its first match |
| TextField.RewrapHasParen | fix_forui_batch.py:77-80 | a line after a rewrap holds `)`, so a rewritten line always clears the flag |
| TextField.StepLine | fix_forui_batch.py:69-83 | one iteration of the loop; what it does is stated by `TextField.StepMeaning` |
| TextField.Next | fix_forui_batch.py:69-83 | the loop state after one more line: one more emitted line, and the counter up by at most one |
| TextField.Run | fix_forui_batch.py:64-83 | the loop state after `n` lines: `n` emitted lines and at most `n` counted; `TextField.RunMeaning` gives its full meaning |
| TextField.StepMeaning | fix_forui_batch.py:69-83 | one iteration rewrites and counts exactly when the flag is set before or by the line and the line holds a label, and it leaves the flag set exactly when the flag was set and the line does not close the call |
| TextField.ScopeStep | fix_forui_batch.py:70-81 | the flag's declarative reading (an earlier opening line with no closing line since) follows exactly the loop's update |
| TextField.RunMeaning | fix_forui_batch.py:64-83 | after any number of lines each emitted line is the rewrap exactly for the scoped lines with a label, the counter counts those lines, and the flag is the declarative one |
| TextField.FixTextFieldLabel | fix_forui_batch.py:60-85 | the output has as many lines as the input; line `i` is rewrapped exactly when it is scoped and holds a label; the count is the number of such lines; the text changes exactly when the count is positive |
| TextField.RunChangesIffCounted | fix_forui_batch.py:77-85 | the joined output equals the input exactly when no line was counted |
| TextField.CountRewrittenZero | fix_forui_batch.py:78 | the count is zero exactly when no line is both scoped and holding a label |
| TextField.RewrapChangesLine | fix_forui_batch.py:77 | rewrapping a line that holds a label changes it |
| TextField.RewrapKeepsLine | fix_forui_batch.py:77 | a rewrap adds no line feed, so joining and splitting again gives the same lines |
| Driver.Apply | fix_forui_batch.py:98-111 | every rule reports zero corrections exactly when it leaves the text unchanged |
| Driver.ApplyAll | fix_forui_batch.py:98-111 | a chain of rules that counted nothing returns its input |
| Driver.ApplyAllIsStaged | fix_forui_batch.py:98-111 | the chain's output is the text after the last stage, each rule applied to what the previous one returned |
| Driver.StageSum | fix_forui_batch.py:99-112 | the `file_changes += count` after each rule: the counts of the first `k` rules, each on the text it receives |
| Driver.ApplyAllCount | fix_forui_batch.py:99-112 | the chain's count is the sum of the counts each rule reports on the text it receives |
| Driver.StageSumShift | fix_forui_batch.py:99-112 | the stage sum is the first rule's count plus the stage sum of the remaining rules on its output |
| Driver.ApplyAllQuiet | fix_forui_batch.py:98-111 | the chain counts nothing exactly when no rule counts anything on the text it receives |
| Driver.Pipeline | fix_forui_batch.py:98-114 | the five rules in order: the text is the last stage's output, the count is the sum of the five stages' counts, and a text the rules change always comes with at least one correction |
| Driver.ProcessFile | fix_forui_batch.py:87-124 | a file is written back exactly when it was read, the rules changed it and the write succeeds, with the final text and a positive count; it is left alone exactly when the rules did not change it |
| Driver.Record | fix_forui_batch.py:115-120 | one file's effect on the counters; summed over the files by `Driver.TallySums` |
| Driver.Tally | fix_forui_batch.py:140-141 | the loop over the files; `Driver.TallySums` states what it adds to the counters |
| Driver.WrittenCount | fix_forui_batch.py:115-119 | the number of files written back, at most the number of files |
| Driver.ChangeSum | fix_forui_batch.py:96-120 | the corrections in the files written back; `Driver.WrittenBelowChanges` bounds the written count by it |
| Driver.TallySums | fix_forui_batch.py:113-119 | processing files adds the written files to `files_modified` and their corrections to `total_changes`, whatever the counters started at |
| Driver.ProcessAll | fix_forui_batch.py:140-146 | from zero, `files_modified` is the number of written files, at most the number of files; `total_changes` is the sum of their corrections and never less than `files_modified` |
| Driver.WrittenBelowChanges | fix_forui_batch.py:113-119 | the written files never outnumber their corrections |

## Left out

- File discovery (`rglob("*.dart")`, `sorted`, the base directory), every
  `print`, and the final report are I/O. `Driver.ProcessAll` takes the files
  as a list, already in processing order. The counters it returns are the
  two numbers the report prints.
- Reading and writing are reduced to what each file offers. A read either
  succeeds or fails; the latter also covers a `UnicodeDecodeError`. A write
  either succeeds or fails. Either failure leaves the counters as they
  were, which is what the `except` clause amounts to.
- `SourceFile.content` is the text after Python's universal-newline
  reading, which turns `\r\n` and a lone `\r` into `\n` before any rule sees
  the text; rule 5 therefore splits on those too. Writing the text back
  turns each `\n` into the platform's line separator, so a corrected CRLF
  file may come back with other line endings. Neither translation is
  modelled.
- A failed write may already have truncated the file on disk, because
  `open(…, 'w')` truncates. What the disk holds after a failure is outside
  the model.
- Rule 5 builds its replacement as an f-string and hands it to `re.sub` as a
  template. Backslashes in the captured label text would go through
  template-escape processing, which rewrites some of them and rejects
  others with an error. The model substitutes the text literally, so it
  stands for label texts without backslashes. Rule 4 uses a function as
  the replacement, so nothing is lost there.
- Strings are sequences of code points. There is no encoding and no
  Unicode normalisation. `\s` is the set of characters for which `str.isspace`
  holds, listed explicitly.
- In `FButtonStyle\.primary` and its siblings the dot is escaped, so the
  model matches the names literally and `FButtonStyleXprimary` is left
  alone.
- Idempotence of the chain is not claimed, because it does not hold. In
  `onPress, design: FButtonCustomStyle()ed:` the first rule finds nothing.
  The third rule then deletes the parameter and leaves `onPressed:`, which
  a second run would rewrite. Rule 5 can also still rewrite after rule 4:
  on `FTextField(\n label: 'label: 'a'\n)` rule 4 rewrites the first label
  and rule 5 then finds a second one in its output, so the chain counts 2.
- Driver.Pipeline: states that a changed text carries a positive count, but
  not the converse. That a positive count always changes the text holds for each rule on its
  own (`Driver.Apply`), but is not proved for the whole chain, since a later
  rule could in principle undo an earlier one's change.
- The `if match:` test in rule 5 always succeeds once the search has, so it
  has no separate branch. Rule 5's `re.sub` pattern omits the capturing
  group; it matches the same text as the search pattern and is modelled as
  the same pattern.
