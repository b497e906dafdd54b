# Kakoune editor core: selections, edits, batches and insert mode

This project models the core of Kakoune's `Editor` (`src/editor.hh`) in Dafny:

- **Selection stack.** The editor owns a stack of selection lists. The last list is the active one.
  - Every list is kept sorted by start, never empty, and within the buffer.
  - No two selections of a list overlap or touch: each one ends strictly before the next begins. Selections that come to touch or overlap after an edit or a select are merged.
- **Editing verbs.** `erase`, `insert`, `append` and `replace` edit the buffer once per active selection, in document order. Each edit lands where the earlier edits moved its target.
  - After each edit, every position of every list on the stack is remapped.
  - The whole pass is proved equal to a closed form stated in the original coordinates (`Remap.ReplaceEach` for the text, `Remap.Edited` for the stack).
  - A verb that changes the buffer commits exactly one undo step when called outside any batch. A verb whose edits all change nothing (an erase of points, an insert of empty text) leaves the buffer unmarked and commits nothing.
- **Batches.** `begin_batch`/`end_batch` nest. Only the outermost pair raises the begin and end notifications. Closing the outermost batch commits the edits made inside it as one undo step.
- **Selection verbs.** Push and pop; moving by an offset; clearing to one point; keeping one selection; selecting through a selector or a multi-selector.
- **Undo and redo.** These run over the buffer's history. Undo or redo at a history boundary returns false. Edits made since the last undo step, inside an open batch for instance, are first recorded as a step of their own, so undo reverts them rather than discarding them.
- **Filter registry.** Filters are keyed by unique id and kept in registration order. Id completion lists the ids that start with a prefix.
- **`IncrementalInserter`** (insert mode):
  - When it starts, it opens a batch and sets up insertion points according to its mode. Change erases the selections; the open-line modes insert a line break.
  - While it runs, it types, replays a typed capture, backspaces, and moves cursors at every cursor at once.
  - When it ends, it collapses the selections to their cursors and closes its batch. A session that opens the outermost batch and modifies the buffer becomes a single undo step.

Positions are character offsets into the buffer text, and a `Selection(anchor, cursor)` covers the half-open span `[Begin(), End())`.

The buffer (`Buffers.Buffer`) is modelled only as far as the editor uses it:

- its text;
- a `pending` flag that says whether the text changed since the last undo step;
- a history of committed states with a current index.

The model takes these positions where the header leaves the behaviour open:

- `pop_selections` with a single list is refused: it returns false and changes nothing.
- `multi_select` that finds nothing is refused, so the active list is never empty.
- `keep_selection` with an index outside the active list is refused, and never clamped.
- `move_selections(offset, append = true)` adds the moved copies next to the originals, and the list is merged again.
- `replace` replaces the text of each selection by the new text with one modification per selection, in a single pass. The active selections end as points just after their new text. Every other list on the stack is remapped by those same modifications, so a pushed copy of a replaced selection comes to span the new text.
- The inserter's capture table holds what the session's own `insert` calls typed, in order. `insert_capture` with an index past the table is refused and changes nothing.
- Backspace in insert mode removes nothing where the cursor is at the start of a line or of the buffer.
- After undo and redo, every list is clamped into the new buffer and merged again.

## Model

| member | source | states |
|---|---|---|
| Selections.Normalize | src/editor.hh:79 | Sorting and merging a list yields a list that keeps the invariant (sorted, no two overlapping), and it is empty only when the input is |
| Selections.NormalizeCovers | src/editor.hh:79 | Every selection handed to the merge is spanned by some selection of the result, so merging never loses covered text |
| Selections.NormalizeSorted | src/editor.hh:79 | A list that already keeps the invariant is left exactly as it is |
| Selections.NormalizeInBounds | src/editor.hh:79 | Merging keeps every selection within the buffer |
| Selections.InsertSelCovers | src/editor.hh:79 | Adding one selection to a sorted list spans both the new selection and every old one |
| Selections.MergeMade | src/editor.hh:79 | The merge of two overlapping or touching selections starts where one of them starts, ends where one of them ends, and covers only positions one of them covers |
| Selections.InsertSelMade | src/editor.hh:79 | Adding one selection to a sorted list yields only selections made of the new one and the old ones |
| Selections.NormalizeMade | src/editor.hh:79 | Every selection of the merged list starts where an input selection starts, ends where one ends, and covers only positions that some input selection covers |
| Remap.RemapMonotone | src/editor.hh:109 | Remapping by one modification never reorders two positions |
| Remap.RemapPos | src/editor.hh:109 | A position before the change keeps its place; one at or after the change's start lands at that start or past the inserted text, never inside it; one past the removed text keeps its distance to the end of the change |
| Remap.MapPosOutside | src/editor.hh:109 | In the closed-form map of a pass, a position before every range keeps its place and one past every range moves by the net change of all of them |
| Remap.Step | src/editor.hh:109 | The closed-form map over one more range is the single-change rule applied, at the place the earlier ranges left it, to the closed form over the ranges before it |
| Remap.MapPosRangeEnd | src/editor.hh:34 | The end of a replaced range lands just past its replacement text when the next range ends later |
| Remap.GapStrict | src/editor.hh:34 | When no two ranges touch, each range's replacement starts strictly past the end of every earlier range's replacement |
| Remap.SeparatedEnds | src/editor.hh:34 | When no two ranges touch, their ends stay strictly ordered once replaced |
| Remap.RangeLands | src/editor.hh:34 | Replacing ranges that do not touch writes the new text at each range's start shifted by the earlier replacements, and maps the range's end just past it |
| Remap.MapPosMonotone | src/editor.hh:109 | The closed-form position map over a whole pass of edits never reorders positions |
| Remap.MapPosStrict | src/editor.hh:32-33 | With insertions only, two distinct positions stay distinct and in the same order after the pass |
| Remap.ReplaceEachKeepsText | src/editor.hh:31-34 | Every character outside the replaced ranges survives a pass of edits, at exactly the place the position map gives for it |
| Remap.ReplaceEachInserts | src/editor.hh:31-34 | The pass writes the new text at each target, at the target's start shifted by the net change of the targets before it |
| Remap.ReplaceEach | src/editor.hh:31-34 | The text after a pass is as long as before, changed by the net change of every range |
| Remap.MapListInsertSorted | src/editor.hh:32-33 | Pure insertions keep a sorted list sorted, one selection for one, with no merge needed |
| Remap.MapStackStep | src/editor.hh:79 | Remapping every list by the next edit of the pass equals the closed-form map over one more range |
| Remap.ReplaceEachStep | src/editor.hh:109 | Replacing one more range where the earlier ones left it extends the all-at-once result by that range: the edits compound correctly |
| Remap.ChangesStep | src/editor.hh:109 | A pass with one range more changes the buffer exactly when the earlier ranges did or that range removes or inserts something |
| Remap.ChangesWhen | src/editor.hh:31-34 | A non-empty text written at one place or more always changes the buffer; an empty text changes it exactly when some range removes something |
| Remap.ReplaceEachUnchanged | src/editor.hh:109 | A pass in which no range removes or inserts anything leaves the text exactly as it was |
| Remap.EditStep | src/editor.hh:109 | The k-th edit of a pass, as a modification at the place the earlier edits left its range, extends the all-at-once text and every list of the stack from k ranges to k + 1 |
| Remap.Edited | src/editor.hh:79 | After a pass every list of the stack is sorted, and it is empty exactly when it was before |
| Remap.EditedValid | src/editor.hh:69 | After a pass of edits within the buffer, every list of the stack keeps the invariant in the new buffer |
| Remap.SetTopValid | src/editor.hh:67 | Replacing the active list by a valid list keeps the stack valid |
| Targets.Starts | src/editor.hh:32 | Insert's targets: one range per selection, each ending within its selection and starting no earlier than the previous selection's end; the ranges are ordered |
| Targets.Ends | src/editor.hh:33 | Append's targets: one range per selection, each ending within its selection and starting no earlier than the previous selection's end; the ranges are ordered |
| Targets.Spans | src/editor.hh:31 | Erase's targets: one range per selection, each ending within its selection and starting no earlier than the previous selection's end; the ranges are ordered |
| Targets.Cursors | src/editor.hh:101-102 | Insert mode's targets: one range per selection, each ending within its selection and starting no earlier than the previous selection's end; the ranges are ordered |
| Targets.Backspaces | src/editor.hh:103 | Each backspace range ends at its cursor, and it removes exactly one character if and only if the cursor is past the buffer's start and the character before it is not a line break; otherwise it removes nothing |
| Targets.BackspacesChange | src/editor.hh:103 | A backspace at every cursor changes the buffer if and only if some cursor is past the buffer's start with a character other than a line break before it |
| Targets.RemovesWhere | src/editor.hh:103 | Some backspace range removes a character if and only if some cursor is past the buffer's start with a character other than a line break before it |
| Targets.CursorsChange | src/editor.hh:101 | Typing at every cursor of a list changes the buffer if and only if the typed text is non-empty |
| Targets.SpansSeparated | src/editor.hh:31 | Since no two selections touch, neither do the ranges erase or replace removes |
| Targets.InsertionLands | src/editor.hh:32 | After inserting at increasing places, the j-th insertion point ends up past j + 1 copies of the text |
| Targets.InsertionBefore | src/editor.hh:32 | After inserting at increasing places, the position just before the j-th insertion point moves by the j copies before it |
| Targets.KeptAfterInsertion | src/editor.hh:32 | The character at the j-th insertion point ends up just past the j + 1 copies inserted at or before it |
| Targets.KeptBeforeInsertion | src/editor.hh:32 | The character just before the j-th insertion point ends up just past the j copies inserted before it |
| Targets.RemovalLands | src/editor.hh:31 | With nothing inserted, both ends of a removed range land at its start, moved back by what the earlier removals took out |
| Targets.RemovalStartLands | src/editor.hh:31 | With nothing inserted, the start of a removed range lands at itself moved back by what the earlier removals took out |
| Targets.RemovalEndLands | src/editor.hh:31 | With nothing inserted, the end of a removed range lands where its start does |
| Lines.LineStart | src/editor.hh:95 | The start of a line: at or before the position, right after a line break or at the buffer's start, with no break in between |
| Lines.LineEnd | src/editor.hh:93-94 | The end of a line: at or after the position, at a line break or the buffer's end, with no break in between |
| Lines.FirstNonBlank | src/editor.hh:92 | The first non-blank column of the line, or the line's start when the line holds only blanks |
| Lines.SameLine | src/editor.hh:92 | Every position between a line's start and a position with no break between them has the same line end |
| Filters.Without | src/editor.hh:53 | Removing an id leaves a registry without that id and no longer than before |
| Filters.Completions | src/editor.hh:55-56 | Every offered id starts with the prefix, and there are at most as many as registered filters |
| Filters.CompletionsExact | src/editor.hh:55-56 | An id is offered exactly when some registered filter has it and it starts with the prefix |
| Filters.WithoutKeepsOthers | src/editor.hh:53 | Removing a filter keeps every other id and keeps the ids unique; the registry shrinks by one exactly when the id was present |
| Filters.WithoutAt | src/editor.hh:53 | Removing the filter at index i removes exactly that entry and keeps the order of the rest |
| Buffers.Commit | src/editor.hh:58-59 | A committed step becomes the current state of the history |
| Buffers.RedoAfterUndo | src/editor.hh:49-50 | A redo takes back an undo |
| Buffers.UndoAfterRedo | src/editor.hh:49-50 | An undo takes back a redo |
| Buffers.UndoAfterCommit | src/editor.hh:49 | A committed step can be undone back to the text before it, and it leaves nothing to redo |
| Buffers.Buffer.CommitUndoGroup | src/editor.hh:59 | Closing an undo group commits the text as one step only when it was modified since the last step |
| Buffers.Buffer.Modify | src/editor.hh:109 | Replaces the removed characters at the position by the text and keeps the text before and after them; the buffer is marked modified exactly when something was removed or inserted |
| Buffers.Buffer.Undo | src/editor.hh:49 | Records the edits made since the last undo step, if any, as a step of their own, then steps the history back and restores its text; refused at the first state, with the history and text left as recorded; the buffer is never left marked modified |
| Buffers.Buffer.Redo | src/editor.hh:50 | Records the edits made since the last undo step, if any, as a step of their own, then steps the history forward and restores its text; refused at the last state, with the history and text left as recorded; the buffer is never left marked modified |
| Buffers.Settled | src/editor.hh:49-50 | Recording pending edits yields a valid history whose current text is the edited text, with a step to undo and none to redo; with nothing pending the history is kept |
| Buffers.UndoPending | src/editor.hh:49-50 | After pending edits are recorded, one undo brings back the text from before them and a redo brings the edited text back |
| Editors.MoveAll | src/editor.hh:39 | Moving every selection clamps both ends to the buffer and keeps the list's length |
| Editors.MoveKeepsOrder | src/editor.hh:39 | A move that needs no clamping keeps the list sorted, so merging it changes nothing |
| Editors.GatherContains | src/editor.hh:44 | Every selection a multi-selector finds is among the gathered ones |
| Editors.Gather | src/editor.hh:44 | The gathered results are empty exactly when the multi-selector finds nothing for every selection |
| Editors.GatherFrom | src/editor.hh:44 | Every gathered selection is a result of the multi-selector for some selection of the list |
| Editors.MultiSelectCovers | src/editor.hh:44 | Every selection a multi-selector finds is spanned by the merged list that becomes active |
| Editors.MultiSelectMade | src/editor.hh:44 | Every selection of the list a multi-select makes active starts where a found selection starts, ends where one ends, and covers only positions that some found selection covers |
| Editors.Refit | src/editor.hh:69 | A list brought back within a buffer of a new size keeps the invariant |
| Editors.Resync | src/editor.hh:49-50 | After undo or redo, every list of the stack keeps the invariant in the restored text |
| Editors.ErasedArePoints | src/editor.hh:31 | Erasing every selection of a list leaves a list of insertion points |
| Editors.InsertedPointsLand | src/editor.hh:32 | Inserting before a list of points keeps the list one for one, with the j-th point just after its own copy of the text |
| Editors.InsertedTextLands | src/editor.hh:32 | Inserting before every selection puts the j-th copy of the text at the j-th start shifted by the j copies before it |
| Editors.ReplacedPoints | src/editor.hh:34 | Replace leaves one insertion point per selection |
| Editors.ReplaceLands | src/editor.hh:34 | Replacing every selection in one pass writes the new text in place of the j-th selection, at its start shifted by the replacements before it, and leaves the j-th point just past that text |
| Editors.ReplacedPointsValid | src/editor.hh:34 | The points replace leaves are sorted, do not touch, and lie within the edited buffer |
| Editors.ReplacedPointsInBounds | src/editor.hh:34 | No point replace leaves lies past where the end of the buffer lands |
| Editors.ReplacedPointsSorted | src/editor.hh:34 | The points replace leaves are strictly increasing |
| Editors.InsertThenUndo | src/editor.hh:49 | An insert of non-empty text made outside any batch is undone by a single undo, which brings back the text from before it and leaves the insert to redo; an insert of empty text commits nothing, so the undo reaches whatever step came before |
| Editors.UndoInsideBatch | src/editor.hh:49-50 | Inside an open batch, an undo takes back exactly the insert made in it and a redo restores it; closing the batch then leaves the redone text as the single step above the starting history |
| Editors.Editor.constructor | src/editor.hh:26 | A new editor, over a buffer with no uncommitted change, holds one insertion point at the buffer's start, no filters, and no open batch |
| Editors.Editor.IsInBatch | src/editor.hh:60 | The editor is inside a batch exactly when the outermost batch was opened once more than it was closed |
| Editors.Editor.BeginBatch | src/editor.hh:58 | Raises the nesting level; only the outermost opening raises the begin notification; nothing else changes |
| Editors.Editor.EndBatch | src/editor.hh:59 | Lowers the nesting level; closing the outermost batch raises the end notification and commits the pending edits as one undo step |
| Editors.Editor.RemapEdits | src/editor.hh:109 | Editing range by range in document order, remapping the whole stack after each edit, yields the all-at-once text and the closed-form stack, and marks the buffer modified exactly when some edit removes or inserts something |
| Editors.Editor.ApplyEdits | src/editor.hh:79 | One pass of edits followed by merging every list keeps the editor's invariant and yields the closed-form text and stack; the buffer becomes marked modified exactly when some edit removes or inserts something |
| Editors.Editor.EraseNoUndo | src/editor.hh:63 | Removes every selection's text and remaps the stack, without committing an undo step; the buffer becomes marked modified exactly when some edit changes it |
| Editors.Editor.InsertNoUndo | src/editor.hh:64 | Inserts the text before every selection and remaps the stack, without committing an undo step; the buffer becomes marked modified exactly when some edit changes it |
| Editors.Editor.AppendNoUndo | src/editor.hh:65 | Inserts the text after every selection and remaps the stack, without committing an undo step; the buffer becomes marked modified exactly when some edit changes it |
| Editors.Editor.Erase | src/editor.hh:31 | Removes every selection's text; outside a batch this commits one undo step when some selection was non-empty and nothing otherwise |
| Editors.Editor.Insert | src/editor.hh:32 | Inserts the text before every selection; outside a batch this commits one undo step when the text is non-empty and nothing otherwise |
| Editors.Editor.Append | src/editor.hh:33 | Inserts the text after every selection; outside a batch this commits one undo step when the text is non-empty and nothing otherwise |
| Editors.Editor.Replace | src/editor.hh:34 | Replaces the text of every selection by the text, one modification per selection, as one undo step when called outside a batch and something changed; the active selections become points just after their new text and every other list is remapped by the same modifications |
| Editors.Editor.ReplaceNoUndo | src/editor.hh:34 | The single replace pass, without committing an undo step; the buffer becomes marked modified exactly when some modification changes it |
| Editors.Editor.PushSelections | src/editor.hh:36 | Pushes a copy of the active list, so the active list does not change |
| Editors.Editor.PopSelections | src/editor.hh:37 | Drops the active list and exposes the one pushed before it; refused when it is the only list |
| Editors.Editor.MoveSelections | src/editor.hh:39 | Every selection moves by the offset, clamped to the buffer; with append the moved copies join the originals; the list is merged again |
| Editors.Editor.ClearSelections | src/editor.hh:40 | The active list becomes one insertion point at the start of its first selection |
| Editors.Editor.KeepSelection | src/editor.hh:41 | Only the selection at the index is kept; refused without change when the index is out of range |
| Editors.Editor.SelectAt | src/editor.hh:42 | The active list becomes one insertion point at the given position |
| Editors.Editor.Select | src/editor.hh:43 | Every selection is replaced by, or with append joined by, what the selector computes for it; the list is merged again |
| Editors.Editor.MultiSelect | src/editor.hh:44 | The active list becomes everything the multi-selector finds, merged; refused without change when it finds nothing |
| Editors.Editor.Undo | src/editor.hh:49 | Records pending edits as an undo step of their own, then steps the buffer back one undo step and refits every list to the restored text; false, with the text and stack unchanged, when there is nothing to undo |
| Editors.Editor.Redo | src/editor.hh:50 | Records pending edits as an undo step of their own, then steps the buffer forward one undo step and refits every list to the restored text; false, with the text and stack unchanged, when there is nothing to redo |
| Editors.Editor.AddFilter | src/editor.hh:52 | Registers the filter after the others; refused with DuplicateId, with nothing changed, when the id is taken |
| Editors.Editor.RemoveFilter | src/editor.hh:53 | Unregisters the named filter; refused with UnknownId, with nothing changed, when there is none |
| Editors.Editor.CompleteFilterId | src/editor.hh:55-56 | The ids that start with the prefix cut at the cursor position, in registration order |
| Inserters.LastPos | src/editor.hh:93-94 | The last position a selection covers, which picks the line its end is on |
| Inserters.Collapse | src/editor.hh:87-96 | Each non-Change mode collapses a selection to one insertion point within the buffer |
| Inserters.StartPoints | src/editor.hh:98 | The points a session starts with are merged insertion points within the buffer, and there are some exactly when there were selections |
| Inserters.StartPointsExact | src/editor.hh:87-98 | When no two selections collapse to the same place, the session starts with exactly one point per selection, where its mode says, in order |
| Inserters.Collapsed | src/editor.hh:98 | Collapsing the active list for a mode keeps the stack valid |
| Inserters.OpenedLine | src/editor.hh:94-95 | Inserting a line break at every active point keeps the stack valid in the new text |
| Inserters.OpenedLineIs | src/editor.hh:94-95 | Opening a line inserts a line break at every active point in one pass, and the active list stays a list of points |
| Inserters.SteppedBack | src/editor.hh:95 | Moving the active list back one position keeps a valid stack valid |
| Inserters.Started | src/editor.hh:98 | Whatever the mode, the text and stack a session starts with keep the stack valid in that text |
| Inserters.StartPointsOnLine | src/editor.hh:94-95 | Each point an OpenLineBelow session starts from ends a line, and each point an OpenLineAbove session starts from starts one |
| Targets.CharsLand | src/editor.hh:94-95 | A one-character text inserted at increasing empty ranges lands at the j-th point shifted by the j copies before it, with the characters on either side of that point beside it |
| Targets.CharLands | src/editor.hh:94-95 | A one-character text inserted at empty ranges lands at the j-th range start shifted by the j copies before it |
| Inserters.OpenedBelowEmpty | src/editor.hh:94 | An OpenLineBelow session starts with every insertion point alone on a new, empty line |
| Inserters.BreaksBelow | src/editor.hh:94 | Line breaks inserted at line ends leave every point, moved past its own break, on an empty line |
| Inserters.BreakAfter | src/editor.hh:94 | When the j-th of increasing insertion places ends a line, the position past the j + 1 breaks inserted at or before it is on an empty line |
| Inserters.PointPastBreak | src/editor.hh:94-95 | A line break inserted at every point of a sorted list of points moves the j-th point past the j + 1 breaks at or before it |
| Inserters.OpenedAboveEmpty | src/editor.hh:95 | An OpenLineAbove session starts with every insertion point alone on a new, empty line |
| Inserters.BreaksAbove | src/editor.hh:95 | Line breaks inserted at line starts, with every point then stepped back by one, leave each point on an empty line |
| Inserters.SteppedOntoEmpty | src/editor.hh:95 | Points just past the start of an empty line are on it once moved back by one |
| Inserters.BreakBefore | src/editor.hh:95 | When the j-th of increasing insertion places starts a line, the j-th inserted break, shifted by the j breaks before it, is on an empty line |
| Inserters.BreaksBeforePoints | src/editor.hh:95 | Line breaks inserted at points that each start a line leave every point, moved past its own break, just past the start of an empty line |
| Inserters.PastEmptyLines | src/editor.hh:95 | Points that each sit just past their own inserted line break, where that break is an empty line, land on that empty line once moved back by one, within the text |
| Inserters.MoveCursorsBack | src/editor.hh:104 | Moving the cursors by an offset and back, with no clamping on the way, restores every selection |
| Inserters.CursorPoints | src/editor.hh:99 | Collapsing every selection to its cursor yields one point per selection within the buffer |
| Inserters.KeystrokeLands | src/editor.hh:101 | A keystroke typed at a list of points writes the text at each point, shifted by the copies before it, and leaves each point just past its own copy |
| Inserters.KeystrokePointLands | src/editor.hh:101 | After a keystroke at every insertion point, the j-th point sits just past the j-th copy of the text |
| Inserters.IncrementalInserter.constructor | src/editor.hh:98 | Opens a batch and sets up the insertion points for the mode (Change erases; the open-line modes add a line break and, for OpenLineAbove, step onto the new line); every active selection is then a point; in the open-line modes every point is alone on an empty line; a session that opens the outermost batch records as its start the history whose current text is the text it started from |
| Inserters.IncrementalInserter.Insert | src/editor.hh:101 | Types the text at every cursor, remaps the stack, and records the text in the capture table; no undo step is committed, and the buffer becomes marked modified exactly when the text is non-empty |
| Inserters.IncrementalInserter.InsertCapture | src/editor.hh:102 | Types the recorded capture at every cursor; refused, with nothing changed, when there is no capture at that index; the buffer becomes marked modified exactly when the capture is non-empty |
| Inserters.IncrementalInserter.Erase | src/editor.hh:103 | Removes the character before every cursor, except at a line's or the buffer's start; when no cursor removes anything, the buffer is left unmarked |
| Inserters.IncrementalInserter.MoveCursors | src/editor.hh:104 | Moves every cursor by the offset, clamped to the buffer, keeping the anchors; the list is merged again |
| Inserters.IncrementalInserter.Close | src/editor.hh:99 | Collapses every selection to its cursor and closes the batch; closing the outermost batch commits the whole session as a single undo step on the history the session started from |
| Inserters.Prepare | src/editor.hh:98 | Opens the batch, then sets up the mode's insertion points without touching the history; in the open-line modes every point is then alone on an empty line |
| Inserters.PrepareCollapse | src/editor.hh:87-98 | Every mode but Change collapses the active list and, for the open-line modes, inserts the line breaks, with the result the mode describes, leaving every point alone on an empty line |
| Inserters.PrepareOpenLine | src/editor.hh:94-95 | The open-line modes collapse the active list, put a line break at every point and, for OpenLineAbove, step back onto it, with the result the mode describes; every active selection is then a point |
| Inserters.OpenedEmpty | src/editor.hh:94-95 | After the open-line modes set up their points, every active point sits alone on an empty line of the new text |
| Inserters.OnEmptyLinesEach | src/editor.hh:94-95 | The list-wise "every point alone on an empty line" holds exactly when each point of the list, taken one by one, is alone on an empty line |
| Inserters.CollapseActive | src/editor.hh:98 | Collapses the active list to the mode's insertion points, leaving every other list as it was |
| Inserters.CloseThenUndo | src/editor.hh:99 | Closing a session that opened the outermost batch and modified the buffer, then undoing once, brings back the text the session started from |
| Inserters.PrepareChange | src/editor.hh:91 | Change mode erases every selection, leaving insertion points |
| Inserters.ChangeStartIs | src/editor.hh:91 | Starting a change erases every active selection in one pass, and the active list becomes a list of points |
| Inserters.OpenLine | src/editor.hh:94-95 | Inserts a line break at every insertion point and keeps them points |
| Inserters.StepBack | src/editor.hh:95 | Moves every insertion point back one position, keeping them points |
| Examples.InsertAtThreeLineStarts | src/editor.hh:32 | Inserting "X" at the three line starts of "a\nb\nc" gives "Xa\nXb\nXc", with each cursor just after its own "X" |
| Examples.TypeInSession | src/editor.hh:98-101 | A session that types "X" and then "Y" leaves one point after "XY" and commits one undo step |
| Examples.SessionUndoneAtOnce | src/editor.hh:49 | One undo reverts a whole insert session, and nothing more is left to undo |
| Examples.EraseAtBufferStart | src/editor.hh:103 | An insert session at the buffer's start whose only key is a backspace leaves the text and the history exactly as they were |
| Examples.InsertStartsAt | src/editor.hh:98 | Starting an insert session on a single point leaves the text and the stack as they are |
| Examples.ReshapeThenRestore | src/editor.hh:36-44 | Push, then one select through the given selector, one move by the given offset, one keep at the given index and one clear, then pop: the stack is back exactly as before the push |
| Examples.CompleteRegistered | src/editor.hh:52-56 | With indent, indent-guess and autopair registered, "ind" completes to indent and indent-guess in registration order; registering indent again is refused |
| Examples.RemoveThenComplete | src/editor.hh:53-56 | After removing indent, "ind" completes to indent-guess alone |
| Examples.ReplaceFirstWord | src/editor.hh:34 | Replacing "hello" in "hello world" by "hi", with the selection pushed first, gives "hi world", one active point right after "hi", and a pushed selection spanning "hi" |
| Examples.ReplacedOne | src/editor.hh:34 | Replacing one selection spanning [lo, hi) puts the text in its place, leaves a point after the text, and maps the same selection in another list onto the new text |
| Examples.ErasedOne | src/editor.hh:31 | Erasing one selection spanning [lo, hi) removes exactly its text and leaves a point at lo |

## Left out

- The hooks collaborator is not modelled. The begin and end notifications (`on_begin_batch`, `on_end_batch`, src/editor.hh:74-75) are counted by `beginEvents` and `endEvents` but not delivered to anyone. The virtual dispatch through which a subclass overrides them is also left out.
- The insert session's own start and end notifications are not modelled apart from the batch ones. A session is counted by `beginEvents` and `endEvents` only when it opens and closes the outermost batch; a session inside another batch raises no count.
- Filter transforms are foreign code. A filter is an id plus an opaque token, and the modification path (`apply`, src/editor.hh:109) does not run the filters on the modification.
- `selection_content` (src/editor.hh:46) is not part of this model. The header does not say how the text of several selections is joined.
- `BufferCoord` (line, column) offsets are modelled as character offsets, and buffer iterators as positions. `Editors.Editor.MoveSelections` and `Inserters.IncrementalInserter.MoveCursors` therefore move by a number of characters, not by lines and columns.
- Regex captures of a selection are not modelled. `insert_capture` replays the session's own typed text instead.
- The buffer's internals are reduced to a text, a history of whole texts, and a pending flag. Line storage and diffs are left out.
- Friend access of the inserter to the editor's privates is left out. In the model the inserter writes the editor's fields directly, under the editor's invariant.
- Editors.Editor.Select: requires that the selector's results lie within the buffer. The selector is caller code, and the model cannot see its bounds.
- Editors.Editor.MultiSelect: requires that the multi-selector's results lie within the buffer, for the same reason.
- Editors.Editor.SelectAt: requires that the position lies within the buffer, since a buffer iterator always does.
- Editors.Editor.Undo: after undo the lists are clamped into the restored text and merged. They are not restored to the positions they had before the undone edits, because the header says nothing about where selections go on undo.
- Editors.Editor.Redo: the lists are refitted to the restored text, not restored to their earlier positions, for the same reason.
- The invariant check (`check_invariant`, src/editor.hh:69) is a precondition and postcondition (`Editors.Editor.Valid`) proved for every operation, not a run-time check.
- Object lifetime is left out: the inserter's destructor is the explicit method `Inserters.IncrementalInserter.Close`.
