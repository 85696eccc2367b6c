# J.A.R.N. core — a verified model

This project models the stateful core of the J.A.R.N. coding agent and proves what its design
promises. To verify it, run `dafny verify dfyconfig.toml`.

The main part is the checkpoint engine behind `/undo`, `/redo` and `/rewind`. It is modelled in
three layers:

- `RefStacks`: two stacks kept as numbered refs in one flat ref store. `RefStore` is a class whose
  `refs` field changes one ref at a time; a ghost `trail` records the map after each write, so the
  contracts speak of every point at which an operation may stop, and a ghost count `loose` records
  every write that would leave a stack entry without its pin.
- `Snapshots`: what building a snapshot captures from a working tree and what restoring one makes
  of it, under HEAD, the real index, the ignore rules and the excluded runtime files.
- `Checkpoints` and `CheckpointTheorems`: the manager class over both, each method proved against a
  step function on (tree, undo stack, redo stack, pinned commits), and theorems over all runs of
  those steps mixed with user edits and other sessions.

The other modules model one component each:

- `Renderer`: cutting a growing markdown buffer at blank lines outside code fences.
- `Decoding` and `Supervision`: the streaming command path. `Decoding` is the incremental strict
  UTF-8 decoder (sections 3 and 4 of RFC 3629) with universal newlines; `Supervision` is the state
  machine of two pump threads, process exit, clock and supervisor.
- `Rollback` and `Activation`: the rename transaction of `jarn rollback` and the two-link publish
  of the Codex installer, with every step allowed to fail.
- `ArgCaps` and `ArgCapLimits`: redaction and size caps of tool arguments under one shared character
  budget, and what they leave untouched.
- `PromptModules` and `PromptAssembly`: resolving duplicate prompt modules, and trimming the
  assembled prompt to a token budget.
- `GrepFilter`: dropping restricted files from a formatted search result.
- `Background`: reaping and retiring background jobs under every interleaving of threads.
- `RepoMap`: ranking the files of a repository and rendering them within a token budget.

`Texts`, `Sorting` and `Prelude` hold what these share: Python's `split`, `join`, `strip` and
`sorted`, and the order of strings.

Where the source changes state step by step the model is a class or a method with a loop, proved
against a function; where the source computes a value the model is a function. What git, the
operating system, a tokenizer, a redactor or a clock does enters as a parameter.

## Where the code and its documentation differ

- The push docstring (`src/jarn/agent/checkpoint.py:365-368`) says that a push that stops early
  leaves a gap at 0. It never does: ref 0 stays, and one entry is read twice in a row
  (`RefStacks.PushCrash`).
- A stack clear that stops early reads as empty, but the entries it did not reach are read again
  below the new ones once as many pushes have followed as refs had been deleted, and not before
  (`RefStacks.ClearCrash`).
- The third safety invariant of the module docstring (`src/jarn/agent/checkpoint.py:15-16`) says
  that an undo saves the current state first, so that nothing is ever lost. The undo goes ahead
  without saving when HEAD is unborn or the build fails with a message that looks benign;
  `CheckpointTheorems.UndoSavesIff` gives the exact condition. `restore_to` promises the same
  (`src/jarn/agent/checkpoint.py:981-984`) and goes ahead whenever its build fails
  (`CheckpointTheorems.RestoreSavesIff`); `OverwrittenUnsaved` is a concrete case of both.
- The same invariant fails for an undo that is stopped: the redo point is built before the files are
  restored and pinned after it (`src/jarn/agent/checkpoint.py:754-785`). In between the overwritten
  tree is neither on disk nor pinned. `Checkpoints.LostOnlyInGap` says at which stops exactly, and
  `CheckpointTheorems.StoppedUndoLoses` is a concrete case.
- An ignored file that was force-added to the index and is not in HEAD is not captured by a
  snapshot and yet is removed by a restore. `Snapshots.ApplyAfterBuildIff` and
  `Snapshots.BuildAfterApplyIff` give the exact conditions under which snapshot and restore are
  inverse.
- The registry comment (`src/jarn/agent/prompt_modules.py:190-192`) says that duplicate names
  resolve independently of discovery order. They do if and only if no two different modules of one
  name share the least (priority, description, source) key (`PromptModules.OrderFreeIff`).
- The docstring of the streaming path (`src/jarn/agent/local_backend.py:425-428`) says that on the
  deadline `None` is returned. The loop tests the deadline and then the exit
  (`src/jarn/agent/local_backend.py:482` and `488`); a deadline that passes between the two tests is
  not seen, and the outputs are returned after it (`Supervision.ResultPastDeadline`).
  `Supervision.DeadlineDecidesIff` gives the exact condition.
- The docstring of the argument caps (`src/jarn/agent/tool_arg_redact.py:9-13`) says that a huge
  payload cannot inflate a frame. Only texts are capped and redacted; keys of any length stay
  (`ArgCapLimits.KeyIsNotCapped`).
- A truncated argument entry is marked although nothing is missing when a later key that reads the
  same overwrites it (`ArgCaps.OverwrittenEntry`), and an argument named like another's mark
  overwrites that mark (`ArgCaps.MarkOverwritten`).
- The streamed cut is not always the cut of the whole text: it stops exactly one newline short when
  a third newline arrives in a later chunk (`Renderer.StreamingCut`).

## Model

| member | source | states |
|---|---|---|
| RefStacks.RefStore.StackRead | src/jarn/agent/checkpoint.py:404-415 | reading yields the run of refs from 0 up to the first gap |
| RefStacks.RefStore.StackPush | src/jarn/agent/checkpoint.py:362-382 | the ref-by-ref shift ends with the new entry on top of what was readable, and after every earlier write the map is a partly shifted old stack |
| RefStacks.RefStore.StackPop | src/jarn/agent/checkpoint.py:385-401 | returns the top, ends with every other entry one slot up, and records every intermediate map of the loop; an empty stack is left alone |
| RefStacks.RefStore.StackClear | src/jarn/agent/checkpoint.py:418-426 | deletes the run of entries from 0 on, and has deleted exactly a prefix of it after every write |
| RefStacks.RefStore.PruneStack | src/jarn/agent/checkpoint.py:1107-1112 | deletes the run of entries from the limit on |
| RefStacks.PushReads | src/jarn/agent/checkpoint.py:362-382 | on any refs the push is cons, followed by what stood right behind the first gap; no other ref changes and contiguity is kept |
| RefStacks.PushRefines | src/jarn/agent/checkpoint.py:362-382 | on contiguous refs the push is cons, keeps contiguity and changes no other ref |
| RefStacks.PopRefines | src/jarn/agent/checkpoint.py:385-401 | on any refs the pop is tail; no other ref changes and contiguity is kept |
| RefStacks.DropRunRefines | src/jarn/agent/checkpoint.py:418-426 | on any refs clearing gives the empty stack and pruning the newest entries up to the limit; no other ref changes and contiguity is kept |
| RefStacks.PopThenPush | src/jarn/agent/checkpoint.py:775-782 | pushing back what was popped restores the whole ref map, whatever lies beyond the first gap |
| RefStacks.PushCrash | src/jarn/agent/checkpoint.py:365-382 | a push stopped before its last write reads as the old stack or as the old stack with one adjacent duplicate, and leaves the other refs alone |
| RefStacks.PoppingStops | src/jarn/agent/checkpoint.py:391-400 | wherever a pop stops, it has left one gap or one entry twice, and nothing else |
| RefStacks.PopGapCrash | src/jarn/agent/checkpoint.py:391-400 | a pop stopped at a gap reads as a prefix of the tail, and one later push makes the whole tail readable below the new entry |
| RefStacks.PopMovedCrash | src/jarn/agent/checkpoint.py:391-400 | a pop stopped between a move and its deletion reads as the tail with one adjacent duplicate, before and after one later push |
| RefStacks.BehindGap | src/jarn/agent/checkpoint.py:391-400 | what a pop stopped at a gap leaves readable, and what it leaves right behind the gap |
| RefStacks.BehindStoppedClear | src/jarn/agent/checkpoint.py:418-426 | a stopped clear reads as empty, and leaves the rest right behind the gap exactly when it was stopped after one deletion |
| RefStacks.StopsKeepPins | src/jarn/agent/checkpoint.py:362-426 | wherever a push, clear or prune stops, every pin is still there |
| RefStacks.ClearCrash | src/jarn/agent/checkpoint.py:418-426 | after a clear stopped at `k` deletions and any pushes, only the new entries are read below `k` pushes, and the old remainder reappears below them from then on |
| RefStacks.PushAfterStoppedClear | src/jarn/agent/checkpoint.py:362-382 | one more push keeps that description, filling the gap exactly at the `k`-th push |
| RefStacks.ClearedEntryReturns | src/jarn/agent/checkpoint.py:418-426 | a concrete clear, stopped after one deletion and followed by one push, after which a cleared entry is read again |
| Snapshots.BuildIsSnapshotTree | src/jarn/agent/checkpoint.py:431-488 | a built tree pins every excluded path to HEAD and holds only tracked or unignored files otherwise |
| Snapshots.ExcludedIff | src/jarn/agent/checkpoint.py:431-446 | excluded are the three state files, what lies below such a name, and lock files under `.jarn`, and no other path |
| Snapshots.BuildAt | src/jarn/agent/checkpoint.py:470-494 | path by path: changed and new files are captured as they are, unless ignored and untracked |
| Snapshots.ApplyAt | src/jarn/agent/checkpoint.py:524-569 | path by path: what the snapshot holds, or else only an ignored file outside the index |
| Snapshots.SameSnapshotIff | src/jarn/agent/checkpoint.py:474-494 | two working trees give one snapshot if and only if they agree on every captured path |
| Snapshots.BuildAfterApplyIff | src/jarn/agent/checkpoint.py:453-571 | building after restoring a snapshot gives it back if and only if no ignored file outside index and snapshot is tracked by HEAD |
| Snapshots.ApplyAfterBuildIff | src/jarn/agent/checkpoint.py:453-571 | restoring the snapshot just built changes no path that is not excluded, if and only if no ignored file is in the index without being in HEAD |
| Snapshots.ForceAddedFileIsLost | src/jarn/agent/checkpoint.py:474-569 | a concrete tree whose force-added file is removed by restoring the snapshot just built |
| Snapshots.DroppedFileIsFoundAgain | src/jarn/agent/checkpoint.py:474-569 | a concrete tree in which building after restoring a snapshot does not give it back |
| Snapshots.ApplyKeepsIgnored | src/jarn/agent/checkpoint.py:527-569 | a restore never touches an ignored path outside the index and the snapshot |
| Snapshots.ApplyUndoesApply | src/jarn/agent/checkpoint.py:510-571 | restoring the snapshot taken before a restore brings the earlier tree back, excluded paths aside |
| Snapshots.BuildAfterApply | src/jarn/agent/checkpoint.py:453-571 | with index and HEAD in agreement about ignored paths, a restored snapshot is what the next build finds |
| Snapshots.BuildRespectsSameOff | src/jarn/agent/checkpoint.py:486-487 | excluded paths have no influence on a snapshot |
| Checkpoints.CheckpointManager.Apply | src/jarn/agent/checkpoint.py:510-571 | writing the snapshot and removing the listed paths it lacks one by one gives the restored tree; a refused restore changes nothing |
| Checkpoints.RemovalIsApply | src/jarn/agent/checkpoint.py:524-569 | the union of index and untracked paths minus the snapshot is exactly what has to go |
| Checkpoints.CheckpointManager.RemovePaths | src/jarn/agent/checkpoint.py:557-569 | the removal loop drops exactly the given paths |
| Checkpoints.CheckpointManager.Save | src/jarn/agent/checkpoint.py:784-787 | from any refs, pin, push and prune put the commit on one stack cut to the limit, together with what stood behind a gap, and leave the other stack alone; the commit is pinned at every stop, and no write leaves a stack entry unpinned |
| Checkpoints.CheckpointManager.Overwrite | src/jarn/agent/checkpoint.py:1003-1010 | restores and then saves the overwritten tree; where it can be stopped with that tree lost is stated exactly |
| Checkpoints.CheckpointManager.Exchange | src/jarn/agent/checkpoint.py:775-787 | pops, restores and saves on the other stack; a refused restore gives back the whole ref map and shows the old tree at every stop |
| Checkpoints.CheckpointManager.Pop | src/jarn/agent/checkpoint.py:775-777 | takes the top off one stack and leaves the other stack and the pins alone |
| Checkpoints.CheckpointManager.Undo | src/jarn/agent/checkpoint.py:702-790 | from any refs, gap or not, refines the undo step on trees and stacks; on every refusal ref map and working tree are untouched; no single ref write leaves a stack entry unpinned; the stops at which the overwritten tree may be lost are those between pop and pin |
| Checkpoints.CheckpointManager.Redo | src/jarn/agent/checkpoint.py:860-912 | from any refs refines the redo step; refusals, pins and stops as for undo |
| Checkpoints.CheckpointManager.RestoreTo | src/jarn/agent/checkpoint.py:978-1015 | from any refs refines the restore step; on every refusal nothing has changed; pins as for undo; the overwritten tree may be lost only before the first ref write |
| Checkpoints.CheckpointManager.ClearRedo | src/jarn/agent/checkpoint.py:1011-1012 | empties the redo stack and nothing else |
| Checkpoints.CheckpointManager.Prepare | src/jarn/agent/checkpoint.py:646-682 | the unlocked half of a snapshot refuses a tree that the undo top already holds, and otherwise yields the built commit |
| Checkpoints.CheckpointManager.Store | src/jarn/agent/checkpoint.py:684-698 | from any refs the locked half pins the commit, pushes it within the limit and empties the redo stack; no single ref write leaves a stack entry unpinned |
| Checkpoints.LostOnlyInGap | src/jarn/agent/checkpoint.py:775-787 | an operation can be stopped with the overwritten tree neither in the working tree nor pinned only at the refs between pop and pin; never when it was pinned before; and certainly when it was not and the restore changes the tree |
| Checkpoints.CheckpointManager.Snapshot | src/jarn/agent/checkpoint.py:622-700 | stores exactly when the first half yields a commit, and otherwise changes nothing |
| Checkpoints.CheckpointManager.PreviewUndo | src/jarn/agent/checkpoint.py:826-858 | describes the next undo target and the current tree without changing anything |
| CheckpointTheorems.RunKeeps | src/jarn/agent/checkpoint.py:684-1015 | in every run of edits and steps of any sessions both stacks stay within the limit, all their entries stay pinned snapshots, and no pin is lost |
| CheckpointTheorems.StepKeeps | src/jarn/agent/checkpoint.py:684-1015 | every single step keeps that invariant |
| CheckpointTheorems.UndoTable | src/jarn/agent/checkpoint.py:731-787 | exactly when an undo restores, spelled out over its inputs; what it then leaves in tree and stacks, and whose the redo point is; otherwise nothing changes |
| CheckpointTheorems.RedoTable | src/jarn/agent/checkpoint.py:869-909 | the same for a redo |
| CheckpointTheorems.RestoreTable | src/jarn/agent/checkpoint.py:989-1012 | the same for a restore to a chosen snapshot |
| CheckpointTheorems.PreviewAndPrepareTable | src/jarn/agent/checkpoint.py:646-682 | exactly when the first half of a snapshot and a preview succeed, with which tree and which tag |
| CheckpointTheorems.SessionsStayApart | src/jarn/agent/checkpoint.py:1068-1081 | a commit tagged for one session is neither undone, redone nor previewed by another named session, and nothing changes |
| CheckpointTheorems.OwnersAreServed | src/jarn/agent/checkpoint.py:1068-1081 | without a tag, without a name, or for the owner itself, ownership refuses nothing |
| CheckpointTheorems.RedoStaysWithSession | src/jarn/agent/checkpoint.py:1083-1095 | what one session has undone no other named session can redo |
| CheckpointTheorems.UndoSavesIff | src/jarn/agent/checkpoint.py:751-787 | a successful undo leaves the overwritten tree pinned and on top of redo if it could be built, and otherwise saves nothing |
| CheckpointTheorems.RestoreSavesIff | src/jarn/agent/checkpoint.py:994-1013 | a successful restore to a chosen snapshot leaves the overwritten tree pinned and on top of undo if it could be built, and otherwise saves nothing |
| CheckpointTheorems.OverwrittenUnsaved | src/jarn/agent/checkpoint.py:1083-1095 | a concrete world in which undo and restore overwrite a file that nothing has saved |
| CheckpointTheorems.StoppedUndoLoses | src/jarn/agent/checkpoint.py:775-787 | a concrete undo, stopped after its files are restored, whose overwritten tree is in no pinned commit |
| CheckpointTheorems.SaveAfterStoppedPop | src/jarn/agent/checkpoint.py:684-698 | after a pop stopped at a gap the next save makes the whole tail readable again |
| CheckpointTheorems.SaveAfterStoppedClear | src/jarn/agent/checkpoint.py:684-698 | after a clear stopped after one deletion the next save brings the other entries back; after a later stop it does not |
| CheckpointTheorems.RedoTakesBackUndo | src/jarn/agent/checkpoint.py:860-912 | one redo restores tree, undo stack and redo stack as they were before a saved undo, from any world that agrees with the undone one off the excluded paths |
| CheckpointTheorems.UndoTakesBackRedo | src/jarn/agent/checkpoint.py:860-912 | a redo leaves the overwritten tree pinned on top of undo, and one undo takes the redo back |
| CheckpointTheorems.UndoTakesBackRestore | src/jarn/agent/checkpoint.py:978-1015 | a restore that could be preceded by a snapshot ends at its target, empties redo, and is taken back by one undo of any session |
| CheckpointTheorems.LateStoreBringsBack | src/jarn/agent/checkpoint.py:657-698 | whatever happens between the unlocked and the locked half of a snapshot, it ends pinned on top of undo, and one undo brings back the captured tree of the moment it was built |
| CheckpointTheorems.UndosThenRedos | src/jarn/agent/checkpoint.py:702-912 | `k` undos and then `k` redos bring back the tree, the undo trees and the redo stack |
| CheckpointTheorems.PreviewedUndo | src/jarn/agent/checkpoint.py:702-858 | whatever happens after a preview, an undo that quotes it succeeds if and only if top entry and captured tree are the previewed ones and nothing else stands in the way; it ends at the previewed target; otherwise nothing changes |
| Renderer.FindBlankLine | src/jarn/repl_renderer.py:50-55 | the first blank line from an offset on, if there is one |
| Renderer.StableCut | src/jarn/repl_renderer.py:47-56 | returns the greatest blank-line boundary with an even number of fences before it, or -1 when there is none |
| Renderer.FencesAcrossNewline | src/jarn/repl_renderer.py:53-53 | the non-overlapping fence count is additive across a newline |
| Renderer.FencesFrom | src/jarn/repl_renderer.py:53-53 | the count is one more than the count behind the leftmost marker |
| Renderer.FencesNone | src/jarn/repl_renderer.py:53-53 | a text in which no marker begins counts none |
| Renderer.BoundaryShift | src/jarn/repl_renderer.py:341-353 | after a committed prefix the boundaries of the rest are those of the whole text |
| Renderer.StreamingCut | src/jarn/repl_renderer.py:257-358 | after any chunking the committed text ends at the cut of the whole text, or exactly one newline short of it when the buffer starts with a newline |
| Renderer.TurnRenderer.CommittedIsCut | src/jarn/repl_renderer.py:257-358 | the same of the renderer object, at any time between chunks |
| Renderer.OneShortExample | src/jarn/repl_renderer.py:341-353 | a concrete text whose streamed cut is one newline short |
| Renderer.FlushKeeps | src/jarn/repl_renderer.py:341-358 | committing up to the last boundary leaves a buffer without a boundary after a committed prefix that is one |
| Renderer.CommitStable | src/jarn/repl_renderer.py:350-358 | one commit moves the cut part from the buffer to the printed blocks and loses nothing |
| Renderer.TurnRenderer.FlushStable | src/jarn/repl_renderer.py:341-358 | committed text plus buffer stay the text, and what was committed stays committed |
| Renderer.TurnRenderer.OnText | src/jarn/repl_renderer.py:257-267 | committed text plus buffer grow by exactly the chunk, and the invariant of the stream holds again |
| Renderer.TurnRenderer.CommitText | src/jarn/repl_renderer.py:360-368 | the blocks printed for a text are the whole text, blank blocks aside, and the buffer is empty |
| Decoding.DecodedIsEncoding | src/jarn/agent/local_backend.py:84-98 | a decoded character is encoded by exactly the octets taken |
| Decoding.EncodeTable | src/jarn/agent/local_backend.py:84-98 | ranges, lengths and bit groups of an encoding, as in section 3 of RFC 3629 |
| Decoding.EncodeExamples | src/jarn/agent/local_backend.py:84-98 | characters of the examples in section 7 of RFC 3629 |
| Decoding.EncodingIsDecoded | src/jarn/agent/local_backend.py:84-98 | every encoded character is decoded, whatever follows |
| Decoding.IncompleteIff | src/jarn/agent/local_backend.py:91-95 | octets are held back exactly when they begin some longer encoding |
| Decoding.DecodeInvertsEncode | src/jarn/agent/local_backend.py:84-98 | strict decoding succeeds exactly on encodings and inverts them |
| Decoding.ScanAppend | src/jarn/agent/local_backend.py:91-95 | decoding in two parts with the undecoded rest carried over is decoding the whole, failures included |
| Decoding.TranslateIsReplace | src/jarn/agent/local_backend.py:87-92 | one-pass newline translation equals the two replacements of the blocking path |
| Decoding.TranslateRemovesCr | src/jarn/agent/local_backend.py:87-90 | no CR is left, and a text without one is unchanged |
| Decoding.TranslateAtCr | src/jarn/agent/local_backend.py:87-90 | CR LF becomes one LF, and so does a lone CR |
| Decoding.TranslateSplit | src/jarn/agent/local_backend.py:91-98 | translation splits everywhere but between CR and LF |
| Decoding.NewlineKeeps | src/jarn/agent/local_backend.py:91-98 | holding a final CR back makes the translated pieces add up to the translation of the whole |
| Decoding.DecodeKeeps | src/jarn/agent/local_backend.py:443-446 | one more chunk extends what has been returned to what the longer input decodes to, or fails when that input fails |
| Decoding.FlushCompletes | src/jarn/agent/local_backend.py:447-452 | the final flush completes the blocking path's text, and fails only when the blocking path fails |
| Decoding.TextDecoder.Decode | src/jarn/agent/local_backend.py:84-98 | one call of the decoder object; a failing call leaves it as it was |
| Decoding.Pump | src/jarn/agent/local_backend.py:436-459 | for every split into chunks the texts of a pump add up to the blocking path's text, and an error is recorded exactly when a read fails or the whole is undecodable |
| Supervision.RunKeeps | src/jarn/agent/local_backend.py:429-522 | under every interleaving each pump's texts and end marker are all accounted for in its buffer, the queue and what the supervisor took |
| Supervision.Drained | src/jarn/agent/local_backend.py:488-496 | once both end markers have been taken, the supervisor has taken every text of a stream |
| Supervision.SupervisionIsSafe | src/jarn/agent/local_backend.py:407-522 | a result means that the process has exited, both pipes were fully drained and the strings are the blocking path's; a failed read or undecodable stream is raised and never a success; no result means the deadline has passed |
| Supervision.EveryRunCanFinish | src/jarn/agent/local_backend.py:429-522 | from every state of every run that is before its deadline and has no verdict, some steps without the clock end in the verdict due: the first reader error, or else all the texts of both streams |
| Supervision.Completes | src/jarn/agent/local_backend.py:436-498 | the steps: each lowers the work left in pumps, queue and loop |
| Supervision.DeadlineDecidesIff | src/jarn/agent/local_backend.py:481-522 | past the deadline a supervision without a verdict can only end without a result, if and only if it does not stand between the deadline test and the exit test with both end markers taken |
| Supervision.LateRun | src/jarn/agent/local_backend.py:481-509 | in the first case every run of any length keeps that, so no late result can come back |
| Supervision.LateResult | src/jarn/agent/local_backend.py:481-489 | in the other case a result comes back although the deadline passes between the two tests |
| Supervision.ResultPastDeadline | src/jarn/agent/local_backend.py:481-522 | a concrete run of this kind, from the start of a command |
| Supervision.DeadlineReached | src/jarn/agent/local_backend.py:481-509 | past the deadline the verdict is reached within four steps of the supervisor, and it is a time-out unless the exit test, already reached, finds everything done |
| Supervision.VerdictStays | src/jarn/agent/local_backend.py:500-522 | no later step of a pump, of the process or of the clock changes a verdict |
| Rollback.Installation.Replace | src/jarn/update.py:1076-1077 | a rename moves one file, fails where the system refuses or the file is missing, and is counted when it lands on a taken name |
| Rollback.Installation.RunRollback | src/jarn/update.py:1026-1164 | which answer is given under which conditions; succeeds if and only if two distinct binaries exist, all checks pass and the four committing steps work; then they are swapped, the staging name is free and the manifest updated; otherwise the manifest is unchanged and, when restores work or the message says so, the files too; both binaries always survive and no rename lands on a taken name |
| Rollback.Installation.Exchange | src/jarn/update.py:1074-1086 | activates the candidate or, when the undoing rename works, leaves the files as they were |
| Rollback.Installation.Commit | src/jarn/update.py:1128-1164 | retains and records, or restores files as they were, and tells the two apart |
| Rollback.Installation.Return | src/jarn/update.py:1139-1143 | exchanges back what had been retained, or keeps both binaries |
| Rollback.Installation.Restore | src/jarn/update.py:1090-1092 | restores what had not been retained, or keeps both binaries |
| Rollback.Ends | src/jarn/update.py:1128-1147 | binaries in their own places are the old files, and in each other's places they are swapped |
| Rollback.SwapTwice | src/jarn/update.py:1026-1164 | swapping twice restores the placement |
| Rollback.Installation.RollbackTwice | src/jarn/update.py:1026-1164 | a rollback of a successful rollback succeeds unless its own checks or committing steps fail, and then every file is where it was |
| Activation.Installer.Capture | src/jarn/codex_dependency.py:476-489 | a backup restores to exactly the captured slot; anything but a link, a file or nothing is refused |
| Activation.Installer.Activate | src/jarn/codex_dependency.py:695-717 | publishes both links if and only if captures, publishes and smoke check work; a failure with working restores leaves both slots as captured; after every single change each slot holds its old content or the new link |
| ArgCaps.CapArg | src/jarn/agent/tool_arg_redact.py:54-98 | the recursion over the shared mutable budget computes the specified cap, flag and remaining budget |
| ArgCaps.CapDict | src/jarn/agent/tool_arg_redact.py:72-80 | the dictionary loop with its early break, against the walk over the first children |
| ArgCaps.CapList | src/jarn/agent/tool_arg_redact.py:85-96 | the list loop with its early break, against the walk over the first children |
| ArgCaps.CapBounds | src/jarn/agent/tool_arg_redact.py:22-98 | every text is at most 2,000 long, containers nest at most 6 deep and hold at most 100 items, for every input |
| ArgCapLimits.TextIsPrefix | src/jarn/agent/tool_arg_redact.py:60-66 | a text keeps as many of its first characters as it has, 2,000 and the budget allow, and is flagged exactly when it loses some |
| ArgCapLimits.StopsOnlyAtLimits | src/jarn/agent/tool_arg_redact.py:72-75 | a walk stops early only at the hundredth child or with the budget used up |
| ArgCapLimits.SmallIsWhole | src/jarn/agent/tool_arg_redact.py:54-98 | a value within all limits is only redacted, unflagged, and costs the length of its texts |
| ArgCapLimits.SmallCallIsWhole | src/jarn/agent/tool_arg_redact.py:34-51 | a call within all limits is only redacted, without any mark |
| ArgCaps.BudgetConserved | src/jarn/agent/tool_arg_redact.py:54-98 | with distinct keys kept text lengths plus the budget left add up to the budget before |
| ArgCaps.BudgetBound | src/jarn/agent/tool_arg_redact.py:54-98 | for every input, keys that read the same included, kept text lengths and budget left fit the budget before |
| ArgCaps.TruncatedIff | src/jarn/agent/tool_arg_redact.py:54-98 | with distinct keys the flag is set exactly when the result differs from the fully redacted value |
| ArgCaps.UnmarkedIsWhole | src/jarn/agent/tool_arg_redact.py:54-98 | for every input a value without the flag is the fully redacted one |
| ArgCaps.DictWholeIff | src/jarn/agent/tool_arg_redact.py:72-80 | for every dictionary the result is the redacted one if and only if, for each key, what its last visited entry became is the redacted value of its last entry; so a mark is in vain exactly when all that was cut is overwritten |
| ArgCaps.RekeyedSameIff | src/jarn/agent/tool_arg_redact.py:72-80 | the same of any two dictionaries built from the same keys |
| ArgCaps.OverwrittenEntry | src/jarn/agent/tool_arg_redact.py:72-80 | a dictionary with two keys that read the same is flagged although nothing is missing |
| ArgCaps.SanitizeToolArgs | src/jarn/agent/tool_arg_redact.py:34-51 | the loop over all arguments of a call computes the specified dictionary |
| ArgCaps.CallConserved | src/jarn/agent/tool_arg_redact.py:45-47 | with distinct keys inside them all arguments of one call keep and leave exactly 20,000 characters |
| ArgCaps.CallBound | src/jarn/agent/tool_arg_redact.py:34-51 | for every call the texts in the result hold at most 20,000 characters in all, and every value in it is bounded; keys, omission notes and scalars are not counted |
| ArgCaps.CallLookup | src/jarn/agent/tool_arg_redact.py:45-50 | for every call and key, what stands there was written by the last argument that writes it, as its key or as the mark of a truncated one |
| ArgCapLimits.KeyIsNotCapped | src/jarn/agent/tool_arg_redact.py:72-80 | a key of any length is kept whole, and costs nothing |
| ArgCaps.CallReports | src/jarn/agent/tool_arg_redact.py:46-50 | an argument whose key and mark no other argument writes is in the result within bounds, with a mark beside it exactly when something of it is missing |
| ArgCaps.MarkOverwritten | src/jarn/agent/tool_arg_redact.py:46-50 | an argument named like another's mark overwrites it |
| PromptModules.LeastOf | src/jarn/agent/prompt_modules.py:194-201 | the loop returns the first of the least candidates |
| PromptModules.GroupByName | src/jarn/agent/prompt_modules.py:187-189 | groups modules by name, in the order in which the names first appear |
| PromptModules.LeastOfEach | src/jarn/agent/prompt_modules.py:193-203 | takes the best candidate of each name |
| PromptModules.Register | src/jarn/agent/prompt_modules.py:186-206 | the registry lists the best module of each name by priority and name |
| PromptModules.BestIsLeast | src/jarn/agent/prompt_modules.py:194-201 | the chosen module is of the name and no module of the name comes before it |
| PromptModules.SelectedFacts | src/jarn/agent/prompt_modules.py:193-206 | one module per name, and (priority, name) orders them totally |
| PromptModules.CatalogPicks | src/jarn/agent/prompt_modules.py:190-203 | every name is listed, by a module that no other of the name precedes in priority, description and source |
| PromptModules.CatalogInOrder | src/jarn/agent/prompt_modules.py:204-206 | the registry is listed by priority and then by name |
| PromptModules.OrderFreeIff | src/jarn/agent/prompt_modules.py:186-206 | the registry is the same for every order of discovery if and only if no two different modules of one name tie for least |
| PromptModules.TieShows | src/jarn/agent/prompt_modules.py:190-203 | every such tie gives two orders with different registries |
| PromptModules.TieOfTwo | src/jarn/agent/prompt_modules.py:190-203 | two different modules of one name with equal keys: the one discovered first is listed |
| PromptModules.TieExample | src/jarn/agent/prompt_modules.py:190-203 | a concrete pair of this kind |
| PromptAssembly.RenderModule | src/jarn/agent/prompt_modules.py:133-162 | without a budget the stripped text, with one the budgeter's text if it fits; a module's own budgeter cannot make it exceed its budget, and it is flagged exactly when its text was changed |
| PromptAssembly.RenderAll | src/jarn/agent/prompt_modules.py:231-238 | every item that enters the prompt is not empty and carries its token count |
| PromptAssembly.RenderedAre | src/jarn/agent/prompt_modules.py:125-130 | the items are the rendered modules, in order, that are eligible, trusted, active, not for one turn, and not empty, unless the prompt is overridden |
| PromptAssembly.CutItem | src/jarn/agent/prompt_modules.py:260-271 | the cut aims at one token below the excess; a cut item is that text, or empty if nothing was cut, and strictly cheaper than before |
| PromptAssembly.CutDecreases | src/jarn/agent/prompt_modules.py:253-272 | every round empties an item or makes the last one cheaper, so the loop ends |
| PromptAssembly.Trim | src/jarn/agent/prompt_modules.py:252-272 | the loop ends, its `break` is never reached, and the joined text fits the budget |
| PromptAssembly.KernelIntact | src/jarn/agent/prompt_modules.py:240-243 | the stripped kernel leads the text, whole |
| PromptAssembly.ContentsAre | src/jarn/agent/prompt_modules.py:242-242 | every item that is not empty is joined, in order |
| PromptAssembly.JoinOneMore | src/jarn/agent/prompt_modules.py:240-243 | one more item adds the separator and its content |
| PromptAssembly.TrimmedIsSuffix | src/jarn/agent/prompt_modules.py:252-272 | only a suffix of the priority order is emptied, at most one item is partly cut, and an item is touched only if the text that ends with it was too long |
| PromptAssembly.TrimOnlyWhenNeeded | src/jarn/agent/prompt_modules.py:252-272 | a prompt that fits is not changed |
| PromptAssembly.Assemble | src/jarn/agent/prompt_modules.py:223-278 | fails exactly when the budget is below the kernel; otherwise the text is the joined modules with the kernel intact, within the budget, trimmed as stated |
| GrepFilter.LastSeparator | src/jarn/agent/read_filter.py:367-369 | the last separator of a count line, if there is one |
| GrepFilter.AbsoluteForms | src/jarn/agent/read_filter.py:314-331 | the absolute lines are exactly those with a leading slash, a drive letter with its root, or a network share |
| GrepFilter.OtherLinesStay | src/jarn/agent/read_filter.py:350-352 | lines that are no path, not indented and not empty are kept in every mode |
| GrepFilter.FilterLineMode | src/jarn/agent/read_filter.py:372-385 | keeps the lines that name no blocked path, and reports whether there was one |
| GrepFilter.FilterContentMode | src/jarn/agent/read_filter.py:388-427 | keeps the lines that belong to no blocked header, and reports whether there was one |
| GrepFilter.FilterGrepContent | src/jarn/agent/read_filter.py:334-364 | the three modes with their notices, against the filter function |
| GrepFilter.FilterIdempotent | src/jarn/agent/read_filter.py:334-427 | for every text and mode, filtering a filtered result changes nothing and reports nothing removed |
| GrepFilter.CountLinePathOf | src/jarn/agent/read_filter.py:367-369 | the path of a count line is the path it was printed with |
| GrepFilter.KeptGroup | src/jarn/agent/read_filter.py:402-426 | a printed group is kept or dropped as a whole, whatever was skipped before it |
| GrepFilter.KeptPrint | src/jarn/agent/read_filter.py:372-427 | the lines kept from a printed result are the lines of the groups that are not blocked |
| GrepFilter.AnyBlockedIff | src/jarn/agent/read_filter.py:338-340 | some group is blocked exactly when one at some position is |
| GrepFilter.FilterCommutesWithPrint | src/jarn/agent/read_filter.py:334-427 | for paths of those three forms, and match lines that begin with a space or a tab, filtering a printed result is printing the groups that are not blocked, with the notice, and something is removed exactly when some group is blocked |
| Background.ProcessManager.PruneExited | src/jarn/agent/background.py:204-237 | one prune step of the history: marks exited jobs, returns exactly those not marked before, and retires what is too old or too many |
| Background.ProcessManager.MarkExited | src/jarn/agent/background.py:216-227 | the loop marks and returns exactly the exited jobs not marked before |
| Background.ProcessManager.Reserve | src/jarn/agent/background.py:282-290 | refuses exactly when as many registered jobs as the limit are running, although it counts records; otherwise the id was never issued before |
| Background.ProcessManager.Register | src/jarn/agent/background.py:314-323 | a reserved id has no record yet, so registering it adds one and replaces none |
| Background.ProcessManager.Start | src/jarn/agent/background.py:271-332 | the locked sections of one start, as three steps of the history; a job is recorded exactly when it was not refused and its child was spawned |
| Background.AliveAreRunning | src/jarn/agent/background.py:282-284 | in every run the records of children still alive are the running jobs, one for one |
| Background.PendingHasNoRecord | src/jarn/agent/background.py:322-323 | in every run an id reserved and not registered has no record |
| Background.RetiredIsPrefix | src/jarn/agent/background.py:229-234 | age and count retire one prefix of the finished records and leave at most twenty |
| Background.PruneKeepsRecent | src/jarn/agent/background.py:204-237 | a prune drops no running job and keeps a most recent suffix of at most twenty finished ones |
| Background.PruneKeeps | src/jarn/agent/background.py:216-236 | spelled out: of the finished records, in the order in which they ended, exactly those survive that are among the last twenty and ended at most 300 seconds ago |
| Background.FullIs | src/jarn/agent/background.py:283-284 | a registry is full when the registered jobs that have not exited reach the limit |
| Background.RunKeeps | src/jarn/agent/background.py:188-332 | the registry invariant holds after every interleaving of ticks, exits, sweeps, reservations and registrations |
| Background.ReapedExactlyOnce | src/jarn/agent/background.py:204-265 | in every interleaving ids are unique, running jobs are on record, and a job is in exactly one reaped batch once its unreaped record is gone and in none before |
| Background.ReservedIsFresh | src/jarn/agent/background.py:282-290 | in every run a reservation that is not refused issues an id never issued before, also when the spawn of the earlier one failed |
| RepoMap.BuildXrefCounts | src/jarn/agent/repomap.py:266-280 | the nested loops count, for every stem, the entries that mention it |
| RepoMap.ReferencesAreFiles | src/jarn/agent/repomap.py:266-280 | with distinct paths a count is the number of other files that mention the stem |
| RepoMap.Rank | src/jarn/agent/repomap.py:287-311 | the loop and the sort give the scored files, best first, ties by path |
| RepoMap.RankIgnoresOrder | src/jarn/agent/repomap.py:287-311 | the ranked list does not depend on the order of discovery and is strictly ordered |
| RepoMap.ScoreIgnoresOrder | src/jarn/agent/repomap.py:300-309 | a score depends on the set of files only |
| RepoMap.ScoreIs | src/jarn/agent/repomap.py:290-309 | a score spelled out: top-level symbols, other files that mention the stem, levels above the deepest file, and ten for a path in focus |
| RepoMap.RankedAre | src/jarn/agent/repomap.py:304-311 | the ranked list holds every file with its score, best first, ties by path |
| RepoMap.BlockLines | src/jarn/agent/repomap.py:569-574 | the lines of an entry in both forms |
| RepoMap.Render | src/jarn/agent/repomap.py:544-566 | the header and then the rendered blocks, in the forms specified |
| RepoMap.FormOf | src/jarn/agent/repomap.py:552-564 | the full form if it fits, the compact one if only that fits, and the end otherwise |
| RepoMap.RenderEntries | src/jarn/agent/repomap.py:551-564 | the loop with its fallback and its break renders exactly the specified forms |
| RepoMap.FormsFit | src/jarn/agent/repomap.py:549-564 | the summed block costs never exceed the greater of the budget and the header cost |
| RepoMap.FormsArePrefix | src/jarn/agent/repomap.py:551-564 | the rendered entries are a prefix of the ranked list, compact only where the full form does not fit, and the list stops only where neither form fits |
| Texts.SplitJoin | src/jarn/agent/read_filter.py:380-385 | splitting joined lines gives the lines back |
| Texts.StripIs | src/jarn/agent/prompt_modules.py:140-140 | stripping takes spaces off both ends and nothing else |
| Texts.BlankIff | src/jarn/repl_renderer.py:354-354 | a text is blank exactly when stripping leaves nothing |
| Sorting.SortIsStable | src/jarn/agent/background.py:229-232 | records that ended at the same time stay in the order of registration |
| Sorting.LexIs | src/jarn/agent/repomap.py:311-311 | strings are ordered by the first character at which they differ, a proper beginning first |
| Sorting.SortIgnoresOrder | src/jarn/agent/repomap.py:311-311 | sorting by a total order does not depend on the order of its input |

## Left out

- Git subprocesses, hashing, path quoting and file/directory name clashes: a commit is its tree and
  subject, trees are maps, and a refused `git restore` leaves the tree alone.
- Ref writes that fail without stopping the operation, a failing unlink during a restore (the
  source goes on with the rest), and failing `rev-parse` calls.
- Git refuses a restore when neither the index nor the snapshot holds a file, an undo to an empty
  snapshot with an empty index included; this is one of the refusals of `Env.applyFails`.
- HEAD, index and ignore rules that change between operations.
- The file lock: a locked block is one step; user edits fall between steps.
- Checkpoints.CheckpointManager.Snapshot: states the two halves run back to back; the theorems over
  runs take the locked half as a step of its own, so that other sessions may act in between, and
  `CheckpointTheorems.LateStoreBringsBack` says what then still holds.
- `find_for_turn`, thread aliases, `list`, `diff_stat`, `has_uncheckpointed_changes` and the text of
  subjects and messages; the session tag of a subject is a structured field.
- The live-sink path, Rich drawing, reasoning, tool lines, separators and widths of the renderer.
- `_TailTracker`, `_finalize_output`, heartbeats, killing and joining with timeouts: display, or
  after the verdict.
- Locales other than UTF-8.
- A staging name that appears between the check and the first rename of a rollback; what a smoke
  check does is a boolean; the manifest write is all or nothing.
- Creation of parent directories and cleanup of temporary names in `_publish_symlink`: a publish
  works or changes nothing.
- ArgCaps.CapArg: keys are strings already and a tuple is a list; `Scalar` stands for every value
  that passes through unchanged.
- ArgCaps.TruncatedIff: needs distinct keys within each dictionary, as keys that read the same
  overwrite each other in the source; `UnmarkedIsWhole` is the half that
  holds for every input, and `DictWholeIff` says when a mark is in vain.
- ArgCaps.BudgetConserved: needs distinct keys within each dictionary, as what is overwritten has
  used up budget; `BudgetBound` is the inequality that holds for every input.
- ArgCaps.CallConserved: needs distinct keys within each argument, for the same reason; `CallBound`
  is the bound that holds for every call.
- ArgCaps.CallReports: speaks of arguments whose key and mark no other argument writes and whose
  dictionaries have distinct keys; `CallLookup` says for every call what stands where.
- Token counting, truncation, redaction and pathlib's view of a name are parameters or fields.
- `resolve`, `statuses`, the date module and the budget overrides of the prompt registry.
- The formatter of search results is not part of this model; its output format is taken from the
  description at `src/jarn/agent/read_filter.py:341-352`.
- Exit listeners, lifetime limits, `kill`, `status` and `shutdown` of the process registry, and a
  strict bound on concurrent jobs, which the source does not keep as it checks and registers under
  separate holds of the lock.
- Background.ProcessManager.PruneExited: a record is a value with id and finish time; captured
  output and temporary directories are not modelled.
- Repository map caches, symbol extraction and file discovery; scores are integers, as every
  summand is.
