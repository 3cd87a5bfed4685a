# diffcast replay engine — a Dafny model

diffcast plays back a series of source files as if somebody typed them. It
diffs each file against the next and replays the line delta on an in-memory
buffer of lines (`current`), one row at a time: a kept row moves the cursor,
an added line is typed in, a removed line is deleted, and a removed/added pair
is turned into an in-place edit (indent first, then the changed middle). Each
step reports an update to the viewer about the line it changes.

The repository holds three versions of this engine, and each is modelled:

- `diffcast/diffrunner.py` (module `DiffcastRunner`), the newest. It reveals
  an added line's indent in groups of four, has a trailing-blank look-ahead
  and a block-indent look-ahead, skips a pair whose line already reads as the
  target, and runs until the delta is used up.
- `diffrunner.py` (module `QtRunner`), the older Qt version. It types added
  lines one character at a time, has an unbounded trailing-blank look-ahead,
  has no block indent and no skip, and runs only while the buffer cursor is
  before the buffer's last line.
- `playdiff.py` (module `PlayDiff`), the oldest. It is free functions on a
  list, rewrites the output file after every step, indents one space per
  step, and has no look-ahead and no quit.

Shared modules:

- `Text`: `first_whitespace`, `lstrip`, Python slicing (`s[n:]`, `s[-k:]`)
  and `chunkify`.
- `LineOps`: the single-line primitives: the indent fix, the two reveal
  strategies of `insert_line`, and the prefix/suffix scans and steps of
  `edit_line`.
- `Delta`: the `Differ` rows, as strings (`"+ line"`) and as the `Row`
  datatype (`Equal`, `Ins`, `Del`, and `Marker` for the `(' ', None, '')`
  tuple a look-ahead writes). It also holds what a well-formed delta is: its
  kept and removed lines read the old file, and its kept and added lines
  spell the new one.
- `Events`: the Qt signals as an event log, the exceptions a run can end
  with, and the `Cancel` oracle that stands for the other thread calling
  `quit`.
- `ClassicReplay`: the loop invariant shared by the two older engines.

Each engine is a class whose fields are the ones the source mutates.
`current` is a `seq<string>` that the methods reassign. The event log is a
ghost field. The quit flag is the bool `quitRequested`; a separate field,
`checks`, counts the quit checks made so far, so that the oracle can name
the check at which the other thread's `quit` arrives.

The head property of each engine concerns a delta that its primitives
reproduce: every added line typed on its own comes out as written, and every
pair becomes its added line.

- Newest engine: a finished replay of such a delta leaves exactly the target
  file.
- Older engines: the lines before the last buffer line agree with the target.
  Their loop may stop with rows still unapplied (`ClassicReplay.StepStop`).

Where the source and a plain reading of it part ways, the model follows the
source:

- `edit_line` leaves its target exactly when the suffix scan stopped before
  the end character and the two scans do not overlap in the target. It also
  does so in one more case: the overlap case when the line already was the
  target (`LineOps.EditExactIff`).
- The unbounded look-ahead of `diffrunner.py` (lines 169-180) cannot read
  past the end of a well-formed delta inside this loop. The loop only runs
  while at least two buffer lines remain from `cl`. Those lines are still to
  be removed or kept, so some row that adds nothing follows every run of
  added lines (`ClassicReplay.StepRoom`).
- In `diffcast/diffrunner.py` the guard `tdl > block_indented` (line 216)
  reads `tdl` before anything assigned it whenever the first changed row of a
  run is a removal or a blank added line. The model raises the `NameError` as
  `Failed(UnboundTdl)`. `tdl` survives from file to file, as the local does
  in `run`.

## Model

| member | source | states |
|---|---|---|
| Text.FirstWhitespace | diffcast/diffrunner.py:19-20 | the indent length is at most the line's length |
| Text.FirstWhitespaceSpec | diffcast/diffrunner.py:19-20 | every character of the indent is whitespace and the character after it is not |
| Text.FirstWhitespaceUnique | diffcast/diffrunner.py:19-20 | any k whose first k characters are whitespace and whose next is not is the indent length |
| Text.LStrip | diffcast/diffrunner.py:20 | the line is its indent followed by its `lstrip` part, which does not start with whitespace |
| Text.IsBlankSpec | diffcast/diffrunner.py:200 | `not s.strip()` holds exactly when the `lstrip` part is empty, that is when every character of the line is whitespace |
| Text.IndentBySpaces | diffcast/diffrunner.py:77 | prepending n spaces adds n to the indent and leaves the `lstrip` part alone |
| Text.DedentWithinIndent | diffcast/diffrunner.py:87 | dropping at most the indent's length takes that much off the indent and leaves the `lstrip` part alone |
| Text.Drop | diffcast/diffrunner.py:87 | `s[n:]` has length `len(s) - n`, or 0 once n reaches the length |
| Text.Spaces | diffcast/diffrunner.py:77 | `' ' * n` has length n |
| Text.Chunkify | diffcast/diffrunner.py:23-25 | the chunks concatenate back to the list; every chunk is non-empty and at most n long; all but the last are exactly n long |
| Text.ChunkCount4 | diffcast/diffrunner.py:73-80 | chunking into fours gives `ceil(len/4)` chunks, so an indent by k takes that many steps |
| LineOps.IndentFixSpec | diffcast/diffrunner.py:92-102 | after `indent_line` the line's indent is that of the target and its `lstrip` part is unchanged |
| LineOps.IndentFixIdempotent | diffcast/diffrunner.py:92-102 | correcting an indent twice is correcting it once |
| LineOps.IndentFixSame | diffcast/diffrunner.py:92-102 | a line with its own indent as the target is left alone |
| LineOps.IndentFixIsShift | diffcast/diffrunner.py:104-108 | correcting the indent is shifting the line by the indent difference, which is what `block_indent` does ahead of the pair |
| LineOps.IndentFixSteps | diffcast/diffrunner.py:101-102 | `indent_line`'s indent-then-dedent by the two positive parts gives the corrected line |
| LineOps.ShiftSteps | diffcast/diffrunner.py:101-102 | a shift by a - b is an indent by its positive part and then a dedent by the positive part of b - a |
| LineOps.ChunkSteps | diffcast/diffrunner.py:101-102 | the chunked indent and dedent steps of `indent_line` add up to `ceil(abs(difference)/4)` |
| LineOps.IndentFix | diffcast/diffrunner.py:92-102 | the corrected line gains the target's indent length and loses its own; a line whose indent already has the target's length is left alone |
| LineOps.RevealedLine | diffcast/diffrunner.py:51-70 | the line `insert_line` leaves ends in a newline. It is the added line exactly when that line is longer than its whole groups of four and ends in a newline |
| LineOps.RevealedSteps | diffcast/diffrunner.py:51-70 | `insert_line` emits at most one update per character of the line, and exactly one per character when its indent holds no whole group of four |
| LineOps.RevealedTextLine | diffcast/diffrunner.py:51-70 | a non-blank newline-terminated line is revealed exactly |
| LineOps.RevealedGroupOnly | diffcast/diffrunner.py:57-58 | `"   \n"` is revealed as `"\n"` |
| LineOps.TypedLine | diffrunner.py:49-55 | the line typed one character at a time ends in a newline, and is the added line exactly when that line ends in a newline |
| LineOps.CommonPrefix | diffcast/diffrunner.py:117-120 | the prefix scan's count is where the lines first differ, or the shorter length |
| LineOps.CommonSuffix | diffcast/diffrunner.py:122-125 | the suffix scan's count is where the reversed lines first differ, or the shorter length |
| LineOps.StartIndex | diffcast/diffrunner.py:117-120 | `starti` is the first mismatch from the front, or `min(len) - 1` with no mismatch |
| LineOps.EndIndex | diffcast/diffrunner.py:122-125 | `endi` is the first mismatch from the back, or `min(len) - 1` with no mismatch |
| LineOps.ScanStart | diffcast/diffrunner.py:117-120 | the loop over `zip` binds `starti` exactly when both lines are non-empty, and then binds it to `StartIndex` |
| LineOps.ScanEnd | diffcast/diffrunner.py:122-125 | the reversed loop binds `endi` exactly when both lines are non-empty, and then binds it to `EndIndex` |
| LineOps.EditResultCases | diffcast/diffrunner.py:111-134 | the three outcomes: `endi == 0` gives target + old line; no overlap gives the target; overlap leaves the line unchanged |
| LineOps.EditResult | diffcast/diffrunner.py:111-134 | `edit_line` raises (no result) exactly when one of the two lines is empty |
| LineOps.EditKeepsEnds | diffcast/diffrunner.py:127-134 | the edited line keeps the old line's first `starti` characters and ends with its last `endi` characters |
| LineOps.EditStepEnds | diffcast/diffrunner.py:129-132 | every rewrite in the loop keeps the old line's first `starti` characters and ends with its last `endi` characters |
| LineOps.EditSameLine | diffcast/diffrunner.py:111-134 | a line of two or more characters edited into itself is unchanged; a one-character line is doubled |
| LineOps.EditSteps | diffcast/diffrunner.py:127-134 | `edit_line` emits at most `len(diffline) + 1` updates, and none exactly when `to_type_len < 0`, which leaves the line unchanged |
| LineOps.EditAppendsOld | diffcast/diffrunner.py:131 | when the end characters differ the result is the target followed by the whole old line |
| LineOps.EditReachesTarget | diffcast/diffrunner.py:127-134 | with `endi >= 1` and no overlap the result is the target |
| LineOps.Splice | diffcast/diffrunner.py:131 | a kept prefix and a suffix that ends the target put the target back together |
| LineOps.EditExactIff | diffcast/diffrunner.py:111-134 | the result equals the target if and only if both lines are non-empty and either `endi >= 1` with no overlap, or overlap with a line that already was the target |
| LineOps.EditExactWithoutOverlap | diffcast/diffrunner.py:111-134 | two lines with the same end character whose common prefix and suffix fit in the shorter line are edited to the target |
| LineOps.EditOverlapExample | diffcast/diffrunner.py:127-129 | `"aaa\n"` to `"aa\n"` writes nothing and leaves `"aaa\n"` |
| LineOps.EditNewlineExample | diffcast/diffrunner.py:122-131 | `"\n"` to `"\n"` gives `"\n\n"`, because `endi == 0` selects the whole line |
| LineOps.EditPassExample | diffcast/diffrunner.py:111-134 | `"    pass\n"` to `"    return 1\n"` has `starti` 4 and `endi` 1, ends on the target, and takes 9 steps |
| Delta.ParseFormat | diffcast/diffrunner.py:27-28 | `parse_delta` of a formatted row gives back its code and line |
| Delta.FormatParse | diffcast/diffrunner.py:27-28 | formatting a parsed row gives back the row |
| Delta.ParseDelta | diffcast/diffrunner.py:27-28 | a row of two or more characters is its code, one separator character and the line; a shorter row gives its code and an empty line |
| Delta.StripHints | diffcast/diffrunner.py:169-170 | no `?` row survives and no row is added; well-formed rows stay well formed |
| Delta.StripHintsWithoutHints | diffcast/diffrunner.py:169-170 | a delta with no hints is unchanged |
| Delta.StripHintsIdempotent | diffcast/diffrunner.py:169-170 | stripping twice is stripping once |
| Delta.StripHintsAppend | diffcast/diffrunner.py:169-170 | stripping works row by row over a concatenation |
| Delta.DecodeEncode | diffcast/diffrunner.py:179-181 | decoding what was encoded gives the rows back |
| Delta.EncodeDecode | diffcast/diffrunner.py:179-181 | encoding what was decoded gives the strings back |
| Delta.SourceAppend | diffcast/diffrunner.py:174-273 | the old file read by a delta splits at any row |
| Delta.TargetAppend | diffcast/diffrunner.py:174-273 | the new file spelled by a delta splits at any row |
| Delta.SourceFrom | diffcast/diffrunner.py:174-273 | the old lines still to read are the current row's and those after it |
| Delta.TargetUpTo | diffcast/diffrunner.py:174-273 | the new lines spelled so far grow by the current row's |
| Delta.SourceOfInserts | diffcast/diffrunner.py:191-203 | a run of added lines reads nothing of the old file |
| Delta.SourceOfKept | diffcast/diffrunner.py:183-187 | rows that all keep their line read and spell the same lines |
| Delta.SettleInsert | diffcast/diffrunner.py:200-202 | a blank added line typed ahead, then marked, is read as a line that is already in the buffer |
| Delta.SettleInsertTarget | diffcast/diffrunner.py:200-202 | settling an added line as kept leaves the spelled target as it was |
| Delta.InsertsFromTarget | playdiff.py:23-28 | when no target line is empty, no added line is empty |
| Delta.ShiftAll | diffcast/diffrunner.py:104-108 | shifting a block keeps its number of lines |
| Delta.UniformPairsExtend | diffcast/diffrunner.py:222-237 | one more pair with the same indent change extends a block |
| Delta.UniformPairsSource | diffcast/diffrunner.py:222-237 | a block is removed/added pairs only, two rows per old line |
| Delta.UniformPairsCount | diffcast/diffrunner.py:237-241 | a block of `n_dents` pairs covers `n_dents` buffer lines |
| Delta.UniformPairsHead | diffcast/diffrunner.py:222-237 | a block opens with a pair of its indent change, and its shifted lines start with that pair's line |
| Delta.DifferParsed | diffcast/diffrunner.py:166-170 | the rows `Differ` produces, hints stripped, form a well-formed delta of the two files |
| Events.OnlyUpdatesChain | diffcast/diffrunner.py:174-273 | emitting only updates, twice over, emits only updates |
| Events.EmittedChain | diffcast/diffrunner.py:101-102 | two runs of updates about one line make one run of their total length |
| Events.ShownLog | diffcast/diffrunner.py:146-153 | a log that opened on a file and its initial update keeps that opening and adds no `completed` |
| Events.CompletedLog | diffcast/diffrunner.py:146-279 | appending `completed` to such a log makes it the last event and the only `completed` after the opening |
| ClassicReplay.TypedPairResult | diffrunner.py:191-197 | the pair edit raises exactly when the re-indented line or the added line is empty; with no skip, a line of two or more characters paired with itself is kept and a one-character line is doubled |
| ClassicReplay.TypedReproducesWithoutPairs | diffrunner.py:208-214 | a delta of newline-terminated added lines and no pairs is reproduced |
| ClassicReplay.TypedReproducesSettle | diffrunner.py:177-179 | promoting a blank added line that follows another keeps the delta reproduced |
| ClassicReplay.StepStart | diffrunner.py:151 | the invariant holds at `cl, dl = 0, 0` |
| ClassicReplay.StepRowExists | diffrunner.py:152-157 | while `cl` is inside the buffer, `delta[dl]` exists |
| ClassicReplay.StepKept | diffrunner.py:161-165 | a kept row or a marker advances both cursors and keeps the invariant |
| ClassicReplay.StepPairHead | diffrunner.py:191-195 | at a pair the buffer line is the removed line, which the pair edits into the added line when the delta is reproduced |
| ClassicReplay.StepPair | diffrunner.py:191-199 | a pair edits line `cl` in place and advances `cl` by one and `dl` by two |
| ClassicReplay.StepDelete | diffrunner.py:201-206 | a lone removal deletes line `cl`, which exists, and leaves `cl` in place |
| ClassicReplay.StepInsert | diffrunner.py:208-214 | an added line typed in at `cl` advances both cursors |
| ClassicReplay.StepPromote | diffrunner.py:169-180 | typing the blank line ahead and marking its row keeps the invariant about the settled delta |
| ClassicReplay.PromoteExact | diffrunner.py:177-179 | the promoted blank keeps the typed prefix equal to the target prefix |
| ClassicReplay.StepRoom | diffrunner.py:169-176 | the unbounded look-ahead always finds `delta[tdl + 1]` |
| ClassicReplay.StepStop | diffrunner.py:152 | when the cursor reaches the last buffer line, the buffer minus its last line is a prefix of the target, for a reproduced delta |
| ClassicReplay.StepFinish | diffrunner.py:151-214 | when the delta is used up, a reproduced delta has left exactly the target |
| QtRunner.DiffRunner.constructor | diffrunner.py:40-47 | starts with the files, an empty buffer, no quit request and no events |
| QtRunner.DiffRunner.InsertLine | diffrunner.py:49-55 | inserts the typed line at `line`, keeps the other lines, and emits `len(diffline)` updates about it |
| QtRunner.DiffRunner.IndentBy | diffrunner.py:57-64 | prepends `max(k, 0)` spaces to the one line with `ceil(k/4)` updates |
| QtRunner.DiffRunner.DedentBy | diffrunner.py:66-73 | drops `max(k, 0)` characters from the one line with `ceil(k/4)` updates |
| QtRunner.DiffRunner.IndentLine | diffrunner.py:75-86 | sets the line to its corrected indent with `ceil(abs(difference)/4)` updates |
| QtRunner.DiffRunner.EditLine | diffrunner.py:88-111 | raises exactly when a line is empty (the buffer and log unchanged); otherwise leaves the edit result with one update per step |
| QtRunner.DiffRunner.TypeMiddle | diffrunner.py:104-111 | with both indices bound, the line becomes the edit result after `to_type_len + 1` rewrites, one update each, and nothing else changes |
| QtRunner.DiffRunner.Quit | diffrunner.py:113-114 | sets the quit flag |
| QtRunner.DiffRunner.PollQuit | diffrunner.py:137-138 | a check sees a quit requested before it, or the oracle's quit at this check |
| QtRunner.DiffRunner.Lookahead | diffrunner.py:169-180 | scans the added lines after `dl`; if it finds a blank one it types it at `cl` and marks its row, otherwise nothing changes; the invariant is kept |
| QtRunner.DiffRunner.ReplacePair | diffrunner.py:191-197 | `indent_line` then `edit_line`, with no skip: the line ends as the pair result, or re-indented when the edit raises |
| QtRunner.DiffRunner.DeleteLine | diffrunner.py:201-203 | removes line `cl` and emits one update `(cl, 0)` |
| QtRunner.DiffRunner.ReplayRow | diffrunner.py:157-214 | one loop row keeps the invariant and advances `dl`; a kept row changes nothing; a raise only happens on a delta that is not reproduced; `cl` never moves back and advances by at most one; the buffer before `cl` is left as it was |
| QtRunner.DiffRunner.ReplayRemoved | diffrunner.py:184-206 | a removal, paired or alone, keeps the invariant; `cl` never moves back and advances by at most one; the buffer before `cl` is left as it was |
| QtRunner.DiffRunner.ReplayAdded | diffrunner.py:167-214 | an added line, with its look-ahead, keeps the invariant and grows the buffer; the buffer before `cl` is left as it was |
| QtRunner.DiffRunner.Iteration | diffrunner.py:152-214 | one pass: the quit check, then a row; a quit before the loop stops at once with nothing changed; a quit at the check of this pass changes neither buffer, log nor cursors, and the loop invariant still holds |
| QtRunner.DiffRunner.Transition | diffrunner.py:151-214 | the only fault is the unbound `edit_line` index, and a reproduced delta never raises; a finished reproduced run agrees with the target up to the last buffer line; a buffer of at most one line and an unchanged file are left alone; a pending quit stops before the first row; a cancelled or finished run stops between two rows, with the buffer in step with the delta (`InStep`) at the returned cursors |
| QtRunner.DiffRunner.Run | diffrunner.py:117-220 | fails on an empty first file exactly; the log opens with `file_changed`, `file_complete` and the update at the last line; a run that does not raise ends with `completed`, which is the only `completed` it emits, and a run that raises emits none; a one-line first file is never changed |
| QtRunner.DiffRunner.ReplayFiles | diffrunner.py:135-217 | a quit requested before the first file cancels with the buffer unchanged; a run with no quit is never cancelled; no `completed` is emitted |
| QtRunner.DiffRunner.ReplayFile | diffrunner.py:140-217 | `file_complete` with the buffer ends every transition that did not raise, a cancelled one too; a reproduced delta never raises; no `completed` is emitted |
| PlayDiff.Player.constructor | playdiff.py:85-89 | an empty buffer and an empty output file, not yet written |
| PlayDiff.Player.RewriteOutput | playdiff.py:18-20 | the output file holds the buffer, and one more write was made |
| PlayDiff.Player.InsertLine | playdiff.py:23-28 | inserts the typed line at `line` with one write per character |
| PlayDiff.Player.IndentBy | playdiff.py:35-39 | prepends `max(k, 0)` spaces, one space and one write per step |
| PlayDiff.Player.DedentBy | playdiff.py:42-46 | drops `max(k, 0)` characters, one character and one write per step |
| PlayDiff.Player.IndentLine | playdiff.py:49-59 | sets the line to its corrected indent with `abs(difference)` writes |
| PlayDiff.Player.EditLine | playdiff.py:62-83 | raises exactly when a line is empty, with nothing written; otherwise leaves the edit result with one write per step |
| PlayDiff.Player.ReplacePair | playdiff.py:126-134 | `indent_line` then `edit_line`: the line ends as the pair result, or re-indented when the edit raises; the lines before it are left as they were |
| PlayDiff.Player.DeleteLine | playdiff.py:136-141 | removes line `cl` and writes the file once; the lines before it are left as they were |
| PlayDiff.Player.ReplayRow | playdiff.py:108-149 | one loop row keeps the invariant and advances `dl`; a kept row writes nothing; a raise only happens on a delta that is not reproduced; `cl` never moves back and advances by at most one; the buffer before `cl` is left as it was |
| PlayDiff.Player.ReplayRemoved | playdiff.py:119-141 | a removal, paired or alone, keeps the invariant; `cl` never moves back and advances by at most one; the buffer before `cl` is left as it was |
| PlayDiff.Player.Transition | playdiff.py:105-149 | the only fault is the unbound index; a reproduced delta finishes and agrees with the target up to the last buffer line; a short buffer or an unchanged file is left alone; the output file keeps up with the buffer |
| PlayDiff.Player.Play | playdiff.py:85-149 | the first file is written at once; a single file is written exactly once; a first file of at most one line is never changed; with no empty lines in any file, the output file ends holding the buffer |
| DiffcastRunner.PairEdit | diffcast/diffrunner.py:244-254 | a reproduced pair becomes its added line from the removed line and from its block-indented form alike |
| DiffcastRunner.PairResult | diffcast/diffrunner.py:244-254 | the pair yields its added line exactly when it is reproduced; it raises exactly when the line does not already read as the target and the re-indented line or the added line is empty |
| DiffcastRunner.ReproducesSettle | diffcast/diffrunner.py:200-202 | promoting a blank added line that follows another keeps the delta reproduced |
| DiffcastRunner.FirstChange | diffcast/diffrunner.py:183-187 | the first row that is not kept |
| DiffcastRunner.FirstChangeAt | diffcast/diffrunner.py:183-187 | a changed row with only kept rows before it is the first change |
| DiffcastRunner.FirstChangeKept | diffcast/diffrunner.py:183-187 | a kept row before the first change moves on towards it |
| DiffcastRunner.FindTrailingBlank | diffcast/diffrunner.py:191-203 | scans only the added lines after `dl`, never past the last row; finds a blank one exactly when it stops on it |
| DiffcastRunner.ScanBlock | diffcast/diffrunner.py:216-239 | counts at least one pair, all with the first pair's indent change, stays inside the delta, stops at the first row that is not such a pair, and leaves `tdl` two rows either side of the block's end |
| DiffcastRunner.WindowShape | diffcast/diffrunner.py:216-241 | a block window still pending opens on a pair of its indent change |
| DiffcastRunner.EmptyWindow | diffcast/diffrunner.py:174-273 | with no block pending, the buffer from `cl` is what the delta still reads |
| DiffcastRunner.KeptStep | diffcast/diffrunner.py:183-187 | a kept row's line is at `cl`, and both cursors move on |
| DiffcastRunner.InsertStep | diffcast/diffrunner.py:267-273 | an inserted line at `cl` moves both cursors on |
| DiffcastRunner.DeleteStep | diffcast/diffrunner.py:260-265 | a removal finds its line at `cl` and deletes it |
| DiffcastRunner.PairHead | diffcast/diffrunner.py:244-254 | at a pair, the buffer line is the removed line, re-indented when a block already shifted it |
| DiffcastRunner.PairStep | diffcast/diffrunner.py:244-256 | editing line `cl` in place moves `cl` by one and `dl` by two, inside the block or outside |
| DiffcastRunner.PairStepInWindow | diffcast/diffrunner.py:244-256 | a pair inside a block consumes the block's first line |
| DiffcastRunner.WindowPairSplit | diffcast/diffrunner.py:241-254 | the block's first line is the shifted removed line |
| DiffcastRunner.PairStepOutside | diffcast/diffrunner.py:244-256 | a pair with no block pending consumes one old line |
| DiffcastRunner.BlockStep | diffcast/diffrunner.py:240-241 | shifting the next `n_dents` buffer lines opens a block window over exactly the pairs scanned |
| DiffcastRunner.BlockSource | diffcast/diffrunner.py:240-241 | the block reads `n_dents` old lines, followed by what comes after it |
| DiffcastRunner.FinishStep | diffcast/diffrunner.py:174 | at the end of the delta nothing is left after `cl` |
| DiffcastRunner.TrackStart | diffcast/diffrunner.py:172-173 | the invariant holds at `cl, dl = 0, 0` and `block_indented = 0` |
| DiffcastRunner.TrackWindow | diffcast/diffrunner.py:216-241 | inside a block the rows are still those of the delta |
| DiffcastRunner.TrackKept | diffcast/diffrunner.py:183-187 | a kept row or a marker keeps the invariant |
| DiffcastRunner.TrackPromote | diffcast/diffrunner.py:191-203 | typing the blank ahead and marking its row keeps the invariant |
| DiffcastRunner.PromoteCorresponds | diffcast/diffrunner.py:202 | the marker stands for the line typed ahead |
| DiffcastRunner.PromoteRemaining | diffcast/diffrunner.py:201 | the blank typed at `cl` is read as the next old line |
| DiffcastRunner.PromoteExact | diffcast/diffrunner.py:200-202 | the promoted blank keeps the typed prefix equal to the target prefix |
| DiffcastRunner.TrackLookahead | diffcast/diffrunner.py:193-203 | the blank look-ahead binds `tdl` and changes nothing else |
| DiffcastRunner.TrackNoBlock | diffcast/diffrunner.py:239 | a scan that finds a single pair only moves `tdl` and `block_indented` |
| DiffcastRunner.TrackBlock | diffcast/diffrunner.py:239-241 | a block indent keeps the invariant with the scanned block pending |
| DiffcastRunner.TrackBlockRoom | diffcast/diffrunner.py:240-241 | the `n_dents` lines `block_indent` shifts exist |
| DiffcastRunner.TrackPairHead | diffcast/diffrunner.py:244-254 | at a pair the buffer line is the removed line or its block-shifted form, and a reproduced delta turns it into the added line |
| DiffcastRunner.TrackPair | diffcast/diffrunner.py:244-258 | a pair, skipped or edited, keeps the invariant |
| DiffcastRunner.TrackDelete | diffcast/diffrunner.py:260-265 | a lone removal keeps the invariant |
| DiffcastRunner.TrackInsert | diffcast/diffrunner.py:267-273 | an added line keeps the invariant |
| DiffcastRunner.TrackFinish | diffcast/diffrunner.py:174-273 | when the delta is used up, a reproduced delta has left exactly the target |
| DiffcastRunner.DiffRunner.constructor | diffcast/diffrunner.py:42-49 | starts with the files, an empty buffer, no quit request and no events |
| DiffcastRunner.DiffRunner.InsertLine | diffcast/diffrunner.py:51-70 | inserts the revealed line at `line`, keeps the other lines, with `tabs + len(diffline) - 4*tabs` updates |
| DiffcastRunner.DiffRunner.IndentLines | diffcast/diffrunner.py:72-80 | prepends `max(k, 0)` spaces to each of the `nlines` lines and nothing else, with `ceil(k/4)` updates |
| DiffcastRunner.DiffRunner.DedentLines | diffcast/diffrunner.py:82-90 | drops `max(k, 0)` characters from each of the `nlines` lines and nothing else, with `ceil(k/4)` updates |
| DiffcastRunner.DiffRunner.PadLines | diffcast/diffrunner.py:76-77 | one indent chunk of spaces put before each of the `nlines` lines and before no other |
| DiffcastRunner.DiffRunner.DropFromLines | diffcast/diffrunner.py:86-87 | one dedent chunk applied to the `nlines` lines and to no other |
| DiffcastRunner.DiffRunner.IndentLine | diffcast/diffrunner.py:92-102 | sets the line to its corrected indent with `ceil(abs(difference)/4)` updates |
| DiffcastRunner.DiffRunner.IndentOne | diffcast/diffrunner.py:101 | `_indent_line(line, 1, k)` on the single line |
| DiffcastRunner.DiffRunner.DedentOne | diffcast/diffrunner.py:102 | `_dedent_line(line, 1, k)` on the single line |
| DiffcastRunner.DiffRunner.BlockIndent | diffcast/diffrunner.py:104-108 | shifts the `n_lines` lines by `dent`, keeps the rest, with `ceil(abs(dent)/4)` updates |
| DiffcastRunner.DiffRunner.EditLine | diffcast/diffrunner.py:111-134 | raises exactly when a line is empty (buffer and log unchanged); otherwise leaves the edit result with one update per step |
| DiffcastRunner.DiffRunner.TypeMiddle | diffcast/diffrunner.py:127-134 | with both indices bound, the line becomes the edit result after `to_type_len + 1` rewrites, one update each, and nothing else changes |
| DiffcastRunner.DiffRunner.Quit | diffcast/diffrunner.py:136-137 | sets the quit flag |
| DiffcastRunner.DiffRunner.PollQuit | diffcast/diffrunner.py:158-159 | a check sees a quit requested before it, or the oracle's quit at this check |
| DiffcastRunner.DiffRunner.BlankLookahead | diffcast/diffrunner.py:191-203 | scans the added lines after `dl` as `FindTrailingBlank` does; when it stops on a blank one it reveals that line at `cl` with `RevealedSteps` updates about `cl` and marks its row, otherwise the delta, buffer and log are unchanged; the invariant is kept, `tdl` is bound and the buffer before `cl` is left as it was |
| DiffcastRunner.DiffRunner.BlockLookahead | diffcast/diffrunner.py:216-241 | scans the block as `ScanBlock` does and sets `block_indented` to the `tdl` it leaves; with more than one pair it shifts the next `n_dents` lines by the pair's indent change with `ceil(abs(dent)/4)` updates about `cl`, keeping every other line; with one pair the buffer and log are unchanged; the invariant is kept and the buffer before `cl` is left as it was |
| DiffcastRunner.DiffRunner.ReplacePair | diffcast/diffrunner.py:244-254 | a line that already reads as the target is skipped: no raise, buffer and log unchanged; otherwise `indent_line` then `edit_line`; the lines before it are left as they were |
| DiffcastRunner.DiffRunner.DeleteLine | diffcast/diffrunner.py:260-262 | removes line `cl` and emits one update `(cl, 0)`; the lines before it are left as they were |
| DiffcastRunner.DiffRunner.ShiftBlock | diffcast/diffrunner.py:240-241 | `block_indent` over the scanned block: the next `n_dents` lines are shifted, the invariant holds with the block pending, and the buffer before `cl` is left as it was |
| DiffcastRunner.DiffRunner.ReplayDeleted | diffcast/diffrunner.py:260-265 | a lone removal deletes line `cl` with one update `(cl, 0)`, keeps the invariant and leaves the buffer before `cl` as it was |
| DiffcastRunner.DiffRunner.ReplayPair | diffcast/diffrunner.py:244-258 | a pair keeps the invariant, and always does so for a reproduced delta; the buffer before `cl` is left as it was |
| DiffcastRunner.DiffRunner.ReplayAdded | diffcast/diffrunner.py:189-273 | an added line reads an unbound `tdl` exactly when it is blank and nothing bound `tdl`; otherwise it keeps the invariant; the buffer before `cl` is left as it was |
| DiffcastRunner.DiffRunner.ReplayRemoved | diffcast/diffrunner.py:207-265 | a removal reads an unbound `tdl` exactly when nothing bound it, with nothing changed; otherwise it keeps the invariant; `cl` never moves back and advances by at most one; the buffer before `cl` is left as it was |
| DiffcastRunner.DiffRunner.ReplayRemovedPair | diffcast/diffrunner.py:214-258 | the block scan then the pair keep the invariant; the buffer before `cl` is left as it was |
| DiffcastRunner.DiffRunner.ReplayRow | diffcast/diffrunner.py:179-273 | one row: `UnboundTdl` exactly for a removal or blank added line with `tdl` unbound; a kept row or marker changes nothing; `cl` never moves back and advances by at most one; the buffer before `cl` is left as it was |
| DiffcastRunner.DiffRunner.ReplayingStart | diffcast/diffrunner.py:172-174 | the loop invariant holds before the first row of a file, with nothing touched |
| DiffcastRunner.DiffRunner.ReplayingDone | diffcast/diffrunner.py:174-273 | once every row is used up: a reproduced delta has left the target, a pending quit means an empty delta, the first change cannot have read an unbound `tdl`, an unchanged file changed nothing |
| DiffcastRunner.DiffRunner.Iteration | diffcast/diffrunner.py:174-273 | one pass: the quit check, then a row; which faults it can end with, and when; a quit at the check of this pass changes neither buffer, log nor cursors, and the loop invariant still holds |
| DiffcastRunner.DiffRunner.NextRow | diffcast/diffrunner.py:178-273 | a row after a quit check that let it through keeps the loop invariant, or raises: an unbound `tdl` only when the delta reads one first, never on a delta of kept rows |
| DiffcastRunner.DiffRunner.Transition | diffcast/diffrunner.py:172-273 | a finished reproduced delta leaves exactly the target; `UnboundTdl` happens exactly when the first change reads it (without a quit); an unchanged file changes nothing; a pending quit stops before the first row; a cancelled or finished run stops between two rows, with the buffer in step with the delta (`Tracking`) at the returned cursors |
| DiffcastRunner.DiffRunner.Run | diffcast/diffrunner.py:140-279 | fails on an empty first file exactly; the log opens with `file_changed`, `file_complete` and the update at the last line; a run that does not raise ends with `completed`, which is the only `completed` it emits, and a run that raises emits none; with every transition reproduced, a finished run ends on the last file |
| DiffcastRunner.DiffRunner.ShowFirst | diffcast/diffrunner.py:141-153 | the buffer becomes the first file; the log gains `file_changed` and `file_complete` for it, then the update that shows it exactly when the file has a line |
| DiffcastRunner.DiffRunner.ReplayFiles | diffcast/diffrunner.py:156-276 | a quit before the first file cancels with nothing changed; with every transition reproduced, a finished run ends on the last file; no `completed` is emitted |
| DiffcastRunner.DiffRunner.NextFile | diffcast/diffrunner.py:156-276 | one file: the quit check, then its transition; no `completed` is emitted |
| DiffcastRunner.DiffRunner.ReplayFile | diffcast/diffrunner.py:161-276 | `file_complete` with the buffer ends every transition that did not raise; a reproduced delta ends on the file; no `completed` is emitted |

## Left out

- `difflib.Differ().compare` is a parameter `compare`, assumed to return
  well-formed rows whose stripped delta reads the old file and spells the new
  one (`Delta.Differ`). Its matching algorithm is foreign library code.
- `time.sleep` and the speed constants only pace the playback.
- Qt's `QRunnable`, the thread pool and the signals: the signals are an event
  log, and the other thread is the `Cancel` oracle. Two threads running at
  once are not modelled. Each `Updated` event holds a copy of the buffer. In
  the source the listener receives the live list, which later steps keep
  changing.
- The files are `File` values (a name and the lines `readlines` returns).
  `open` and `readlines` are not modelled.
- PlayDiff.Player.RewriteOutput: the output file is modelled by what it holds
  and by a count of writes. The bytes written are not modelled.
- `argparse`, `print` and the unused `_step_over_files` flag.
- app.py, diffcast/app.py, diffcast/viewer.py and demos/windows_5.py are UI
  and sample material, and are not part of this model.
- `IsSpace` follows Python's `str.isspace` for the code points it lists.
  Python's full Unicode table is not modelled.
- Row strings that are not a code, a space and a line are not modelled:
  every `Differ` row is assumed to have that shape. Index errors that a
  well-formed delta cannot cause are proved absent rather than modelled.
- The loop bodies are split into methods (`Iteration`, `NextRow`, `ReplayRow`,
  `ReplayAdded`, `ReplayRemoved`, `ReplayRemovedPair`, `ReplayPair`,
  `ReplacePair`, `DeleteLine`, `NextFile`, `ReplayFile`, `ReplayFiles`,
  `IndentOne`, `DedentOne`, `PadLines`, `DropFromLines`, `TypeMiddle`, `ShiftBlock`,
  `ReplayDeleted`), and the start of the run into `ShowFirst`. The same steps happen in the
  same order as in the source.
- QtRunner.DiffRunner.Transition: for a reproduced delta, only the lines
  before the last buffer line are proved to agree with the target. They are
  proved to be a prefix of it, not all of it. The source's loop may stop
  with rows unapplied.
- PlayDiff.Player.Transition: the same as for the Qt engine. The output
  file is proved to match the buffer only when no target line is empty. An
  empty added line writes nothing.
- DiffcastRunner.DiffRunner.Transition: that `current[:cl]` is final is
  proved row by row: each `ReplayRow` leaves the buffer before `cl` as it was
  and never moves `cl` back. The loop does not restate this over a whole file.
  For a reproduced delta the loop proves that part equals the target prefix.
- Events.Emitted: it fixes how many updates a step emits and which line they
  are about. The column and the buffer copy each update carries are not
  stated.
