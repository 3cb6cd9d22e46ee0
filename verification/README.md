# Text history: a verified model

This project models `text_history.py`, a versioned text buffer. A `TextHistory` holds
the current text, a version counter and an append-only log of the edit actions
applied so far. There are three kinds of action: insert, replace and delete. Each
action is tagged with the version interval `[from_version, to_version)` it moves the
text across, and each can apply itself to a text or refuse a position that does not
fit. `insert`, `replace` and `delete` build the next action and commit it through
`action`, which checks version continuity and commits all-or-nothing. `get_actions`
returns the log entries of a version window after a single left-to-right compaction
pass (`optimize`). That pass folds back-to-back inserts and same-position deletes.

The model is functional:

- `History` is an immutable record.
- A mutating call returns an `Outcome`, holding the history after the call and either
  the new version or the error raised.
- A call that fails hands back the history it was given.
- `get_actions` receives the history and returns only a list, so it cannot change
  the text, the version or the log.
- The three `ValueError`s of the source become the error kinds `InvalidPosition`,
  `VersionMismatch` and `InvalidRange`.
- The optional `pos`, `from_version` and `to_version` arguments are an `Option`.
  `None` means the argument was omitted.

Files:

- `wrappers.dfy`: `Option` and `Result`.
- `actions.dfy` (module `Actions`): the `Action` datatype, the three `apply` rules,
  `Replay` (applying a list of actions in order) and their properties.
- `compaction.dfy` (module `Compaction`): `try_merge_insert`, `try_merge_delete`, the
  loop body and loop of `optimize`, and what compaction preserves.
- `history.dfy` (module `TextHistory`): the history state, `action`, the three
  mutators, `get_actions`, and the invariants of a session of calls.
- `scenarios.dfy` (module `Scenarios`): concrete cases of the documented behaviour.

`Replay` is not a function of the source. It states the replay invariant the history
keeps: applying the log in order to the empty text reproduces the current text.
`Compaction.Compact` is the compaction loop written as a recursive fold. The method
`Compaction.Optimize` runs the loop as the source does and is proved equal to it.

Facts about text_history.py that shape the model:

- `action` (text_history.py:66-77) does not check `to_version == from_version + 1`;
  it sets the version to whatever `to_version` the action carries.
  `TextHistory.ApplyAction` does the same, so its invariant-preservation clause
  assumes a one-step action. The three mutators always build one.
- An insert past the end of the text is refused (text_history.py:186-187), so
  `Scenarios.SeparateInsertsStay` uses a second insert at position 0 to show two
  inserts that do not fold.
- The merged delete takes the later action's position (text_history.py:87), which
  the merge condition makes equal to the earlier one's.

## Model

| member | source | states |
|---|---|---|
| `Actions.ApplyInsert` | text_history.py:186-191 | refused with InvalidPosition exactly when `pos < 0` or `pos > |t|`; otherwise the text before `pos` is kept, the content follows it, then the rest of the old text, so the length grows by exactly `|content|` |
| `Actions.ApplyReplace` | text_history.py:208-217 | refused exactly when `pos < 0` or `pos > |t|`; otherwise the prefix is kept, the content is written at `pos`, whatever of the old text lies past the content is kept, and the length is `max(|t|, pos + |content|)` |
| `Actions.ApplyDelete` | text_history.py:234-239 | refused exactly when `pos < 0` or `pos + length > |t|`; otherwise the prefix before `pos` is kept, the text after the deleted window follows it, and the length shrinks by exactly `length` |
| `Actions.Apply` | text_history.py:164-169 | an action applies iff its position (and, for a delete, its window) fits the text; the only failure is InvalidPosition |
| `Actions.ReplaceIsSplice` | text_history.py:212-216 | the two branches of replace are one rule: `t[:pos] + content + t[min(pos+|content|, |t|):]` |
| `Actions.ReplaceExactFit` | text_history.py:213-214 | when the content ends exactly at the end of the text, the truncating branch and the splicing formula give the same string |
| `Actions.ReplaceAtEndAppends` | text_history.py:208-217 | replacing at `pos == |t|` appends the content, exactly as inserting there does |
| `Actions.DeleteNothing` | text_history.py:234-239 | deleting length 0 at any position inside the text returns the text unchanged |
| `Actions.InsertThenDelete` | text_history.py:186-191 | deleting `|content|` characters at the insert position undoes a successful insert |
| `Actions.ReplaceThenRestore` | text_history.py:208-217 | writing back the overwritten characters undoes a replace that fits inside the text |
| `Actions.InsertMergeSound` | text_history.py:99-105 | one insert of `c1 + c2` at `pos` succeeds or fails exactly as inserting `c1` at `pos` and then `c2` at `pos + |c1|` does, and gives the same text |
| `Actions.DeleteMergeSound` | text_history.py:85-91 | one delete of `l1 + l2` at `pos` succeeds or fails exactly as two deletes of `l1` and `l2` at `pos` do, and gives the same text |
| `Compaction.InsertFoldAt` | text_history.py:99-105 | replacing the last output insert by the folded insert leaves the replay of the output on a text unchanged |
| `Compaction.DeleteFoldAt` | text_history.py:85-91 | replacing the last output delete by the folded delete leaves the replay of the output on a text unchanged |
| `Compaction.TryMergeInsert` | text_history.py:93-105 | folds iff the action starts where the previous entry's content ends: the folded insert keeps the previous position, carries the previous content followed by the action's content, and spans the previous start version to the action's end version; otherwise the action is appended; entries before the last are untouched; replay is preserved |
| `Compaction.TryMergeDelete` | text_history.py:79-91 | folds iff both deletes start at the same position, into one delete of the summed length spanning the previous start version to the action's end version; otherwise the action is appended; entries before the last are untouched; replay is preserved |
| `Compaction.OptimizeStep` | text_history.py:114-126 | the output shrinks back by one entry exactly when the action folds into the last entry, which then keeps its kind, position and start version, takes the action's end version, and carries the joined content (insert) or the summed length (delete); Replace and mixed-kind neighbours are appended unchanged; entries before the last are untouched; no foldable neighbours are created |
| `Compaction.Compact` | text_history.py:113-128 | the compacted list is never longer than the input, is empty iff the input is, and has no two foldable neighbours |
| `Compaction.StepReplays` | text_history.py:114-126 | one step of the pass replays, on any text, as the old output followed by the action |
| `Compaction.CompactReplays` | text_history.py:107-128 | compaction preserves meaning: on every text the compacted list succeeds exactly when the input does, and then gives the same text |
| `Compaction.Optimize` | text_history.py:107-128 | the loop computes the compacted list, so its result is never longer than the input and has no foldable neighbours (and, by `Compaction.CompactReplays`, replays as the input does) |
| `Compaction.CompactNormalFixed` | text_history.py:113-128 | a list with no two foldable neighbours passes through compaction unchanged |
| `Compaction.CompactIdempotent` | text_history.py:107-128 | compacting a compacted list changes nothing: the single pass leaves no work for a second pass |
| `Compaction.StepChain` | text_history.py:114-126 | one step keeps a chain of forward version steps a chain of forward steps, from the same start version to the action's end version |
| `Compaction.CompactChain` | text_history.py:85-105 | on a chain of forward version steps the output is again such a chain, from the same first start version to the same last end version, so order is kept and each folded entry spans its first action's start to its last action's end |
| `Compaction.CompactKeepsReplaces` | text_history.py:121-122 | Replace actions are never folded: the Replace entries of the output are those of the input, in order |
| `TextHistory.Empty` | text_history.py:13-16 | a new history has empty text and version 0 and satisfies the history invariant |
| `TextHistory.ApplyAction` | text_history.py:66-77 | an action built against another version is refused with VersionMismatch; one that does not fit the text is refused with InvalidPosition; a refused action leaves text, version and log as they were; otherwise the text is the applied result, the version is the action's end version (also returned), the log gains exactly this entry at its end, and a one-step action keeps the history invariant |
| `TextHistory.InsertText` | text_history.py:32-42 | fails only with InvalidPosition, iff the position (default: end of text) is outside the text, and then changes nothing; on success it returns the old version + 1, logs one insert spanning that step, and keeps the invariant; with the position omitted it always succeeds and appends |
| `TextHistory.ReplaceText` | text_history.py:44-54 | fails only with InvalidPosition, iff the position (default: end of text) is outside the text, and then changes nothing; on success it returns the old version + 1, logs one replace spanning that step, and keeps the invariant; with the position omitted it always succeeds and appends |
| `TextHistory.DeleteText` | text_history.py:56-64 | fails only with InvalidPosition, iff the window does not fit the text, and then changes nothing; on success it returns the old version + 1, logs one delete spanning that step, and keeps the invariant |
| `TextHistory.Select` | text_history.py:146-149 | every selected entry starts inside the window `[lo, hi)`; never more entries than the log |
| `TextHistory.SelectAppend` | text_history.py:146-149 | selecting from a concatenation selects from each part and joins the results, so the selection keeps log order and repeated entries for any log |
| `TextHistory.SelectSingle` | text_history.py:147-149 | a single entry is kept iff its start version lies in `[lo, hi)` |
| `TextHistory.SelectMembers` | text_history.py:146-149 | an action is selected iff it is in the log and its start version lies in `[lo, hi)` |
| `TextHistory.SelectIndexed` | text_history.py:146-149 | on a log whose entry `i` starts at version `i`, the selection is the slice of the log between the window bounds, in log order |
| `TextHistory.GetActions` | text_history.py:130-151 | refused with InvalidRange iff a bound (defaults 0 and the current version) is negative, exceeds the version, or the window is reversed; otherwise the answer is the compaction of the selected entries and has no foldable neighbours |
| `TextHistory.EmptyWindow` | text_history.py:146-151 | a window `[v, v)` inside the version range yields no actions |
| `TextHistory.WindowIsSlice` | text_history.py:130-151 | on a valid history an accepted window lies within `[0, version]` and its answer is the compaction of exactly the log slice `[lo, hi)` |
| `TextHistory.WindowReplays` | text_history.py:130-151 | replaying a window's answer on the text of version `lo` yields the text of version `hi` |
| `TextHistory.WindowShape` | text_history.py:130-151 | a window's answer has at most `hi - lo` entries and is a chain of forward steps from `lo` to `hi` |
| `TextHistory.WholeLogReplays` | text_history.py:135-151 | the default query succeeds and its answer rebuilds the current text from the empty text |
| `TextHistory.RunKeepsValid` | text_history.py:32-77 | any sequence of mutator calls keeps the history invariant, and the version grows by exactly the number of calls that succeeded |
| `TextHistory.SessionInvariant` | text_history.py:13-77 | from a new history, after calls of which n succeed: version == n == log length, entry i spans `[i, i+1)`, and replaying the log from the empty text reproduces the text |
| `Scenarios.ReplaceOnHello` | text_history.py:212-216 | replace "XY" at 4 on "hello" truncates to "hellXY"; replace "Z" at 2 splices to "heZlo" |
| `Scenarios.DeletePastEnd` | text_history.py:235-236 | on a five-character text, deleting 10 characters at 3 is refused with InvalidPosition and leaves the history as it was |
| `Scenarios.StaleVersionRefused` | text_history.py:71-72 | an action whose start version is not the current version is refused with VersionMismatch and changes nothing |
| `Scenarios.TypingSession` | text_history.py:32-42 | inserting "a"@0, "b"@1, "c"@2 into a new history gives "abc" at version 3 with one logged insert per version |
| `Scenarios.TypingCompacts` | text_history.py:94-128 | inserts "a"@0, "b"@1, "c"@2 over versions 0..3 compact to one insert of "abc" at 0 spanning versions 0 to 3 |
| `Scenarios.RepeatedDeleteCompacts` | text_history.py:80-91 | two one-character deletes at position 0 compact to one delete of length 2 |
| `Scenarios.SeparateInsertsStay` | text_history.py:99-105 | an insert at 0 after an insert of "a" at 0 is not back to back and stays a separate entry |
| `Scenarios.ReplacesStay` | text_history.py:121-122 | two replaces stay separate even when the second starts where the first one's content ends |
| `Scenarios.BadWindowsRefused` | text_history.py:139-142 | on a history of version at most 3, the reversed window `[5, 2)` and the window ending at 1000 are both refused with InvalidRange |

## Left out

- The `__str__` renderings of the three actions (text_history.py:181-184, 204-206, 230-232): formatting for diagnostics only.
- The `text` and `version` property getters (text_history.py:18-30): the model reads the record's fields directly.
- Exception types and messages: every failure is a `ValueError` in the source; the model returns an error kind instead.
- Negative delete lengths: the delete guard does not reject them, and Python's slicing then wraps around. `length` is a `nat` here; `pos` stays an `int`, so the `pos < 0` checks are modelled.
- Run-time type dispatch (`isinstance`, `type()`) and object identity of reused action objects in `optimize`: the closed `Action` datatype with pattern matching has the same behaviour, and its values have no identity.
- Arguments of other types than the source expects (non-integers, `None` beyond the `pos` default), and the empty `if __name__ == "__main__"` block.
- Mutation in place: the source's history object and the output list of `optimize` are mutated in place (`pop`, `append`). The model returns new values. Where the source leaves a failed call's state untouched, the model hands back the history it was given.
- `Compaction.TryMergeInsert`: its replay-preservation clause covers only an insert folded into an insert. The source calls it only then. The duck-typed case of a replace in either place is accepted but not given a meaning.
- `TextHistory.ApplyAction`: it keeps the history invariant only for one-step actions (`to_version == from_version + 1`). The public `action` accepts any `to_version`, and then the invariant is not promised.
