# Verification of the memory tools

A Dafny model of the parts of this program that must not go wrong quietly: code moved to another
address, scripts that patch a live process and are undone in any order, the assembler front end,
the cheat-table files, the assistant's conversation, and a few searches and list algorithms. Each
module follows one file or routine of the program. Code that works step by step is modelled as
classes and methods with the same branches, and proved against specification functions; what the
program promises is then proved about those functions. `dafny verify dfyconfig.toml` checks it all.
Lemmas turn automatic induction off, so every induction is written out in the lemma's body.

The results, hardest first:

- **Moved code means the same** (`Relocator*.dfy`, `Arm64.dfy`, `ArmEncoding.dfy`). `Arm64` is a machine with
  registers, flags and memory that runs A64 code; encodings are those of sections C4.1 and C6.2 of
  the Arm Architecture Reference Manual (DDI 0487). Any run of the source block, of any length and
  from any instruction, is matched by a run of the relocated code that ends in the corresponding
  place with everything equal but the scratch register, x30 after a call, and what the block itself
  must not depend on. Instructions that do not depend on their address are arbitrary steps. Which code
  is relocated, and why other code is not, is stated for all inputs.
- **Scripts disabled in any order** (`UndoLog.dfy`, `Handover.dfy`, `Restore.dfy`, `Activation.dfy`,
  `AutoAssembler.dfy`, `Session.dfy`, `Layers.dfy`, `LateUndo.dfy`). `Layers` is a transition system in
  which every enabled script is a layer that knows what it wrote and what it will put back, and in
  which enables, disables and retries may fail part way; in every run each byte is what the newest
  enabled script that wrote it put there, and the initial byte when there is none, unless a failed
  enable left it behind and something else touched it before that was undone. `LateUndo` says exactly
  when it is right even then. The classes `Activation`, `AutoAssembler` and `Session` patch, hand
  originals over, restore, fail and retry as `core/autoasm.cpp` does, and `Session` keeps the history
  of its calls and proves that it is always a run of `Layers`. Writes to the process may fail half
  way. `ReadBefore.dfy` is about what a running script is shown of the memory it patched.
- **The front end** (`Labels.dfy`, `LabelLayout.dfy`, `Conditionals.dfy`, `TryExcept.dfy`,
  `TryAcceptance.dfy`). What the sizing passes settle on is where the emission pass puts the code, end
  to end; flat lists with markers mean what the nested blocks mean, and which lists are accepted is
  stated exactly.
- **Cheat tables** (`TableForest.dfy`, `TableText.dfy`, `TableReader.dfy`, `TableRoundTrip.dfy`,
  `XmlText.dfy`, `XmlReference.dfy`, `JsonInteger.dfy`, `JsonQuoted.dfy`, `PointerExpression.dfy`).
  The written text of any entry list is read back without failing; exactly the forests in preorder
  come back unchanged, and one save and load turns every other list into such a forest.
- **The conversation** (`AgentChat.dfy`). Whatever the server answers, the user refuses and another
  thread cancels, the transcript stays valid for its provider, and no tool changes anything without
  a yes.
- **Smaller algorithms** (`SignatureSearch.dfy`, `RowTree.dfy`, `DryRun.dfy`). `Texts.dfy` and
  `Memory.dfy` hold what the others share.

What the model found out about the code:

- `readBeforeScript` computes the ends of the range it reads and of each logged patch as address plus
  size. At the top of the address space an end wraps to zero and nothing is laid over, so a script
  is shown its own patch. In any run, what is shown at a byte is the earliest original among the
  patches that do not end at the top, or the byte there now when the range itself ends at the top
  (`Activations.SeenExactly`). `Activations.ReadBeforeExact` says for every log when that is what the
  run found, `ReadBefore.RightExactlyWhenHidden` for which patches and ranges it is so in every run:
  exactly when no byte of the range is exposed. `ReadBefore.TopByteIsSeenPatched` and
  `ReadBefore.PatchToTheTopIsSeen` show the two ways to fail. A script that patches and reads below
  the top is always right (`Activations.ReadBelowTop`).
- A failed enable whose rollback failed too keeps its undo outside of the list of live scripts, so
  nothing is handed over between that undo and scripts that come and go. Tried again before anything
  else touched its bytes it ends where the enable began (`Layers.RetriedAtOnce`). After other scripts
  were enabled or disabled, `LateUndo.LateUndoExactly` says for any number of them in any order when
  it still does what an undo at once would have done: at each byte of the undo, if no script enabled
  since holds it, the disables since must have left it as the enable found it; if one does, the
  newest such must have written just that value, and what the enable had left must make no difference
  to what they will restore. There are two ways to fail: `LateUndo.LateUndoResurrects` (a disabled script's byte
  comes back) and `LateUndo.LateUndoOverwrites` (a script enabled since is overwritten and will
  restore what the failed enable had left).
- A turn that fails before any tool ran takes the user's text out of the transcript again, but not
  when the number of rounds is set to zero or less; `AgentChats.AgentChat.Send` states it exactly.
- A `{$try}` block may have any number of `{$except}`; the last one counts. Everything before it, other
  `{$except}` lines included, is the first branch: when that can execute, the leftover `{$except}` stops
  the script, and otherwise the block is accepted with its last branch (`TryAcceptance.ManyExcepts`,
  `TryAcceptance.SecondExcept`). It can execute when the assertions of all of it hold.
- The dry run keeps a write that does not fit into one of its blocks beside the real memory, and loses
  the bytes of it that lie in a block. `DryRun.DryRunProcess.Write` says exactly when a write is one of
  flat memory, and `DryRun.LostAtTheEdge` shows one that is not.
- Grouping rows that are not neighbours may change who is under whom: a row between them does not
  always fall out below the group, and a member may come under another member. `RowTree.UnderHeaderExactly`
  and `RowTree.NestingKept` say exactly when, `RowTree.GroupingReparents` shows both at once.
- A label that is defined at two addresses cannot be resolved; with code of fixed size that, and code
  that cannot be laid out, is the only way to fail (`Labels.ResolvesExactlyWhen`).
- A pointer chain is read back as written exactly when its base is trimmed, not empty and does not
  start with a bracket (`PointerExpressions.ChainRoundTrip`).

## Model

| member | source | states |
|---|---|---|
| RelocatorTheorem.RelocationPreservesRuns | arch/aarch64_relocator.cpp:77-148 | For every source run of any length there is a run of the relocated code from the corresponding slot that ends in the corresponding place (the mapped slot inside the block, the same address outside) with equal memory, flags and registers except those relocation may change, if the block does not let these influence anything else |
| RelocatorTheorem.StepMoves | arch/aarch64_relocator.cpp:104-146 | One source instruction and its whole slot lead from equal states to equal states and corresponding places |
| RelocatorTheorem.CallsReturnBehindTheCall | arch/aarch64_relocator.cpp:69-73 | The link of a relocated BL comes back, through padding only, to the slot of the instruction after the BL, moved or not |
| RelocatorTheorem.SlotsTileTheOutput | arch/aarch64_relocator.cpp:91-107 | Every slot of a successful relocation, one word each when nothing moves, ends exactly where the first pass starts the next, and the last at the end of the output |
| RelocatorTheorem.InnerBranchesStayNear | arch/aarch64_relocator.cpp:100-103 | A branch to a target inside the block always encodes in one word, so it needs neither a veneer nor a scratch register |
| RelocatorSuccess.RelocatesExactlyWhen | arch/aarch64_relocator.cpp:77-148 | For every code, both addresses, all options and either verdict of the disassembler: the code is relocated exactly when its length is a positive multiple of four of at most 1 MiB, both addresses are multiples of four, the block and its slots end inside the address space, the scratch register is at most 30, the disassembler accepts it, and, unless it stays where it is, every operand lies in the address space and every branch or literal is near its new place or may be reached the long way |
| RelocatorSuccess.FailsWith | arch/aarch64_relocator.cpp:80-143 | Otherwise it fails with the first check that fails, in order, or with what keeps the first instruction that cannot move: an operand outside the address space, a far branch that is forbidden or lacks a scratch register, or a far literal that lacks one |
| RelocatorSuccess.RoomIsTaken | arch/aarch64_relocator.cpp:19-26 | Slots are 4 bytes for a copy, 16 for an address, 20 for a branch or a literal load and 24 for a conditional branch, by the decoded instruction; each instruction starts behind the slots before it, and a block that stays is unchanged |
| Relocator.RelocateAarch64 | arch/aarch64_relocator.cpp:77-148 | The whole relocation, as the specification function of which `RelocatorSuccess` says when it succeeds, why it fails and how long the output is, and `RelocatorTheorem` what the output does |
| Relocator.FirstPass | arch/aarch64_relocator.cpp:91-98 | The offset of every slot and the total size |
| Relocator.SecondPass | arch/aarch64_relocator.cpp:104-147 | The emitted words, or the first instruction's error |
| Relocator.CodeBuffer.EmitBranch | arch/aarch64_relocator.cpp:60-74 | Near branch, indirect veneer through the scratch register or x30, or an error with nothing emitted |
| Relocator.CodeBuffer.EmitLiteral | arch/aarch64_relocator.cpp:131-143 | Near literal load, or address constant and register load, or an error |
| Relocator.CodeBuffer.EmitConstant | arch/aarch64_relocator.cpp:34-38 | MOVZ and three MOVKs appended |
| RelocatorEncoding.KindAgrees | arch/aarch64_relocator.cpp:10-18 | The mask tests classify a word as the architecture decodes it: copied words are exactly those that use no operand relative to their own address |
| ArmEncodings.LowestFirst | arch/aarch64_relocator.cpp:27-33 | Words are read and emitted as four bytes, the lowest first |
| ArmEncodings.Branches | arch/aarch64_relocator.cpp:13 | B and BL with any offset are branches, to the masks and to the decoder alike, with the fields where the architecture has them |
| ArmEncodings.ConditionalBranches | arch/aarch64_relocator.cpp:14 | B.cond with any condition and offset is a conditional branch, to the masks and to the decoder alike, with the fields where the architecture has them |
| ArmEncodings.CompareBranches | arch/aarch64_relocator.cpp:15 | CBZ and CBNZ of either width compare and branch, to the masks and to the decoder alike, with the fields where the architecture has them |
| ArmEncodings.TestBranches | arch/aarch64_relocator.cpp:16 | TBZ and TBNZ of any bit test and branch, to the masks and to the decoder alike, with the fields where the architecture has them |
| ArmEncodings.Addresses | arch/aarch64_relocator.cpp:12 | ADR and ADRP with any 21-bit immediate compute an address, to the masks and to the decoder alike, with the fields where the architecture has them |
| ArmEncodings.LiteralLoads | arch/aarch64_relocator.cpp:17 | The seven literal loads load from a literal, to the masks and to the decoder alike, with the fields where the architecture has them |
| RelocatorEncoding.RelativeExact | arch/aarch64_relocator.cpp:52-59 | `relative` succeeds exactly for equally aligned targets within the asymmetric signed range, and its field, read back signed and times four, reaches the target |
| RelocatorEncoding.AbsoluteExact | arch/aarch64_relocator.cpp:43-51 | `absolute` is exact addition, refused exactly when the sum leaves the address space |
| RelocatorEncoding.TargetIsDecoded | arch/aarch64_relocator.cpp:108-117 | The target computed for an operand is the address the instruction uses |
| RelocatorEncoding.DecodeInverted | arch/aarch64_relocator.cpp:121-127 | The inverted word is a branch of the same kind with the opposite condition over the rest of its slot |
| RelocatorSimulation.ConstantRun | arch/aarch64_relocator.cpp:34-38 | Running MOVZ and three MOVKs puts any 64-bit value in the register and changes nothing else |
| RelocatorSimulation.BranchRun | arch/aarch64_relocator.cpp:60-74 | Running the emitted branch words reaches the target, with x30 behind the branch for a link |
| RelocatorSimulation.NopRun | arch/aarch64_relocator.cpp:145 | Padding changes nothing and falls through to the end of the slot |
| RelocatorSimulation.SlotHolds | arch/aarch64_relocator.cpp:104-146 | Each slot of the output holds its own instruction's padded words |
| RelocatorSlots.AddressSlot | arch/aarch64_relocator.cpp:108-113 | An ADR or ADRP slot leaves the register with the source instruction's address |
| RelocatorSlots.CondSlot | arch/aarch64_relocator.cpp:114-130 | A conditional slot goes where the source branch goes, taken or not |
| RelocatorSlots.LiteralSlot | arch/aarch64_relocator.cpp:131-143 | A literal slot loads what the source loads, near or far |
| Layers.AnyOrderDisable | core/autoasm.cpp:2151-2299 | Over all interleavings of enables, disables and retries, any of which may fail part way, each settled byte is what the newest enabled script that wrote it put there, or, if a disable of that very script failed, one of the bytes its undo writes; and the initial byte once there is none. A byte is settled unless a failed enable left it behind and it was not undone before anything else touched it |
| Layers.SettledThroughout | core/autoasm.cpp:2348-2364 | A byte that no failed enable left behind is settled at every moment |
| Layers.RetriedAtOnce | core/autoasm.cpp:2348-2364 | A failed enable that could not be rolled back and whose undo is tried again next never happened |
| LateUndo.LateUndoExactly | core/autoasm.cpp:2348-2364 | If other scripts are enabled and disabled first, any number in any order, the late undo leaves the memory and the restores that an undo at once would have led to, exactly under a condition on each byte of the undo that names only the layers before, the events since, the undo and what the enable had left |
| LateUndo.LateRetry | gui/mainwindow.cpp:6472-6507 | The same inside any run: the enable fails at one moment, and its undo is tried again at a later one |
| LateUndo.LateUndoIsRight | core/autoasm.cpp:2094-2149 | With no failed disable, all layers are right after the late undo exactly under that condition |
| LateUndo.LateUndoAfterOne | core/autoasm.cpp:2248-2262 | After one disable: exactly when the two restores agree wherever they meet |
| LateUndo.LateUndoAfterEnable | core/autoasm.cpp:2248-2262 | After one enable: exactly when, wherever the script wrote over the undo, it found and wrote just what the undo puts back |
| LateUndo.LateUndoResurrects | core/autoasm.cpp:2248-2262 | A failing case: the older script's byte is back and no script is left to restore it |
| LateUndo.LateUndoOverwrites | core/autoasm.cpp:2248-2262 | Another: the script enabled since is overwritten, and will restore what the failed enable had left |
| Layers.AllDisabledRestores | core/autoasm.cpp:2094-2098 | With every script disabled and every byte settled, memory is the initial memory |
| Layers.EveryRunKeeps | core/autoasm.cpp:2094-2149 | The invariant of every run, byte by byte: each layer's restore value is what the next older layer holding the byte wrote there, and memory shows the newest, or the pending undo of a failed enable holds what it should show |
| Layers.DisableKeeps | core/autoasm.cpp:2125-2148 | Handing originals to the next newer holder keeps all layers right whichever layer leaves |
| Sessions.Session.Enable | core/autoasm.cpp:3219-3228 | In any state: success is an enable of the layered undo; a failed one that rolled back, as every one on a reliable process does, leaves everything as it was; any other is a failed enable whose undo holds the found value of every byte that is not as before. It succeeds only when every patch lies in mapped memory, and on a reliable process always then |
| Sessions.Session.UndoEnable | core/autoasm.cpp:2151-2299 | Trying that undo again, in any state, is a retry of the layered undo: committed, it puts back all it holds, and memory is what it was before the enable if nothing else happened since; otherwise the same undo still holds what is not as before. A reliable process always succeeds |
| Sessions.Session.NewestScriptShows | core/autoasm.cpp:2094-2149 | In every state of every history a settled byte is the last write there of the newest live script that covers it, or, if a disable of that script failed, a byte it saved or was handed; and the initial byte when none covers it |
| Sessions.Session.Disable | core/autoasm.cpp:2151-2299 | In any state: a committed disable is one of the layered undo and leaves only the allocations that could not be freed; an uncommitted one keeps its undo, frees nothing, changes only bytes it would restore, to bytes it saved or was handed, and can be retried |
| Sessions.DisabledMemory | core/autoasm.cpp:2248-2262 | Memory after a committed cleanup is what the layered undo prescribes |
| Sessions.NewerInherits | core/autoasm.cpp:2270-2274 | A newer script restores, after the handovers it got, what the layered undo prescribes for it |
| Sessions.FirstIsNewest | core/autoasm.cpp:2130-2144 | The script a byte is handed to is the one whose newest older holder is the script that leaves |
| Assembler.AutoAssembler.Cleanup | core/autoasm.cpp:2151-2299 | Committed: all bytes restored and verified but those that passed to newer scripts, each of which got its override, and every allocation freed or left to free; otherwise no handover, nothing freed and only restorable bytes changed, to saved ones. Checked code in none of the script's states is refused and left alone, all of memory with it. With a reliable process, untouched code and mapped ranges it succeeds |
| Assembler.OwnedUnderHook | core/autoasm.cpp:2066-2092 | After another script was enabled over it, a script still owns its code exactly when every byte written over checked code is one it knows; so otherwise it cannot be disabled first |
| Assembler.AutoAssembler.Run | core/autoasm.cpp:2309-2364 | Success: all of the section's patches are in memory and logged, and an activation joins the live scripts. Failure: no script joins, and either memory is as before, which on a reliable process it always is, or the undo holds the found value of every byte that is not, all of them bytes the section asked to write. A run succeeds only when every patch lies in mapped memory, and on a reliable process always then |
| Assembler.AutoAssembler.PatchAll | core/autoasm.cpp:2603-2655 | The patches are made in order up to the first that fails, each logged before it is written; all of them are made only when each lies in mapped memory, and on a reliable process always then |
| Assembler.AutoAssembler.RunDisableSection | core/autoasm.cpp:3246-3293 | Changed code is refused before the section writes anything. Otherwise the section's writes stay and override what is restored, and are no conflict for the restore; a failed section leaves memory and overrides as they were; a refused one leaves the overrides, and changed at most bytes the section writes. On a reliable process with untouched code the section fails exactly when some write of it is not in mapped memory |
| Assembler.AutoAssembler.DisableWithSection | core/autoasm.cpp:3295-3319 | Where no newer script wrote over it, a committed disable leaves each byte at the section's last write there, else the restored value if the script wrote there, else unchanged; a failed section leaves the plain restore. Otherwise the undo and the live scripts stay and only bytes of the section or the script may have changed. Changed code is refused, with nothing done. With a reliable process and untouched code the section fails exactly when some write of it is not in mapped memory, and with mapped ranges the disable succeeds |
| Assembler.AutoAssembler.Rollback | core/autoasm.cpp:2348-2364 | Undoing a partial activation, whatever of it landed, restores the memory it found when the restore completes, which it does on a reliable process: its own ownership check and verification accept it; otherwise the undo is kept whole and only logged bytes changed |
| Assembler.RunWrites | core/autoasm.cpp:2603-2655 | After a successful run every byte is the script's last write there |
| Assembler.LastRequest | core/autoasm.cpp:2603-2655 | The last patch over a byte is what a run leaves there |
| Assembler.SectionRestores | core/autoasm.cpp:3275-3282 | With the section's writes as overrides, a script restores the last of them where it has an original |
| Handovers.PlanHandovers | core/autoasm.cpp:2099-2149 | Each address is either still restored with its earliest original, or handed with that value to exactly one script, the oldest newer one that wrote it |
| Handovers.PassesMeans | core/autoasm.cpp:2125-2144 | A byte passes exactly when unverified data outside allocations was saved there and a newer script wrote it, and goes to the oldest such script |
| Handovers.HandOverPatch | core/autoasm.cpp:2126-2146 | One patch's bytes split by the newer scripts' ranges, oldest first |
| Handovers.SplitOpen | core/autoasm.cpp:2134-2143 | What one range takes from the open intervals and what stays open |
| Handovers.OriginalAt | core/autoasm.cpp:2115-2124 | The bytes restored on an interval: the earliest write's original of each |
| UndoLog.OverrideOriginals | core/autoasm.cpp:2002-2012 | Every saved original the override covers, and nothing else, takes its bytes |
| UndoLog.FirstDecides | core/autoasm.cpp:2250-2259 | The first patch over a byte whose allocation still stands decides what is restored there |
| UndoLog.OverriddenOriginal | core/autoasm.cpp:2006-2011 | After an override a covered address is restored to the override's byte, every other address as before |
| UndoLog.AppliedRestores | core/autoasm.cpp:2169 | With overrides applied in order the last one over an address decides what is restored there |
| UndoLog.LastDecides | core/autoasm.cpp:2002-2012 | The last override over a byte decides |
| UndoLog.DropRange | core/autoasm.cpp:2015-2033 | The dropped range is restored by nothing, every other address as before |
| UndoLog.PiecesAre | core/autoasm.cpp:2015-2033 | What is left of a patch are its parts before and behind the dropped range, each with its saved and written bytes and in all else like the patch |
| UndoLog.DroppedOriginal | core/autoasm.cpp:2018-2031 | The pieces around a dropped range restore what the whole did |
| Restore.CodeOwnershipConflict | core/autoasm.cpp:2066-2092 | No conflict means every byte of verified code is in some saved state of the operation; on a reliable process the converse holds too |
| Restore.OwnedMeans | core/autoasm.cpp:2066-2092 | Code is owned when every byte of verified patches is one that some patch of the script, not in a released allocation, saved or wrote there |
| Restore.FirstMismatch | core/autoasm.cpp:2226-2247 | No mismatch means every saved range holds the earliest originals; on a reliable process the converse holds too. What is returned is the address of the first range that does not |
| Restore.WriteBack | core/autoasm.cpp:2250-2259 | Writing the originals back newest first leaves the earliest of each byte, and touches no other byte even when it fails, and no byte with anything but a saved value |
| Restore.RestoreBytes | core/autoasm.cpp:2248-2262 | Success is verified restoration; failure changed only bytes of saved ranges; mapped ranges on a reliable process are restored |
| Restore.FreeAll | core/autoasm.cpp:2281-2292 | Every allocation is freed or left, each as often as it was given |
| Activations.RollbackIsExact | core/autoasm.cpp:2603-2655 | Replaying a run's log in reverse is the memory the run found, for any overlapping patches |
| Activations.RunOwnsItsState | core/autoasm.cpp:2066-2092 | The ownership check accepts the run's own state, a partly landed last write included |
| Activations.ReadBeforeExact | core/autoasm.cpp:2579-2590 | For every log of a run: `readBeforeScript` shows what the run found exactly when at each exposed byte of the range (written by the script, and the range or the earliest patch there ends at the top of the address space) what is left standing happens to equal it |
| Activations.SeenExactly | core/autoasm.cpp:2579-2590 | For every log and range, the byte shown is the earliest original among the patches that do not end at the top of the address space, or the byte there now if there is none or the range itself ends at the top |
| Activations.ReadBelowTop | core/autoasm.cpp:2579-2590 | It shows what the run found whenever neither the range nor any of the script's patches in it ends at the top |
| ReadBefore.RightExactlyWhenHidden | core/autoasm.cpp:2579-2590 | For given patches and range it is right in every run exactly when no byte of the range is exposed |
| ReadBefore.TopByteIsSeenPatched | core/autoasm.cpp:2584-2588 | A read of the topmost byte that fails |
| ReadBefore.PatchToTheTopIsSeen | core/autoasm.cpp:2584-2588 | A read that ends below the top and fails, because the patch goes on to the top |
| Activations.WriteKeepsLog | core/autoasm.cpp:2609-2619 | A logged write, landed or not, keeps the log true of the memory before the run |
| Activations.Activation.PatchMemory | core/autoasm.cpp:2603-2655 | The original is saved before anything is written: a failure either changed nothing or left one more log entry, and every byte that differs from what the run found is logged. Success writes all bytes and nothing outside of them; a mapped patch on a reliable process succeeds. A write that fails is tried once more, unless it is code of another architecture |
| Activations.Activation.ReadBeforeScript | core/autoasm.cpp:2579-2590 | The bytes read with the log laid over them in reverse |
| Labels.ResolvedThenEmitted | core/autoasm.cpp:1430-1594 | When one of the first eight passes changes nothing and every named label is defined, emission stops only at copied or moved code that is gone or changed size; otherwise it writes every line where sizing had it and binds every label to the address already used for it |
| LabelLayout.EndToEnd | core/autoasm.cpp:3098-3107 | Then code stands end to end: with no line between them that goes on elsewhere, each write begins where the one before it ended, modulo 64 bits, and a label defined between two writes stands for that same address |
| LabelLayout.GoneTo | core/autoasm.cpp:2657-3107 | After a line that goes on elsewhere, the first write or label behind it is at the place gone to |
| LabelLayout.LineGivesCode | core/autoasm.cpp:2657-3107 | What a line writes, where it is: the assembler's code for its text with every name replaced by the label's address, the bytes copied or the code moved; and a line writes nothing only when it has no code |
| LabelLayout.WritersMade | core/autoasm.cpp:2657-3107 | Each write is made by one line, in the order of the lines |
| Labels.EmissionAgrees | core/autoasm.cpp:2657-3107 | The same line by line, from settled labels |
| Labels.ResolvedIsSettled | core/autoasm.cpp:1430-1592 | What the passes return is settled: all definitions of a label are at its address, so one at two addresses never converges |
| Labels.PassesExactly | core/autoasm.cpp:1430-1592 | The labels are resolved exactly when one of the passes changes nothing, to what that pass left |
| Labels.LineSized | core/autoasm.cpp:1431-1587 | How a line is sized: where it goes on, which label it moves, how many bytes it takes, and when sizing stops at it |
| Labels.ResolvesExactlyWhen | core/autoasm.cpp:1430-1594 | For code whose sizes and targets do not depend on labels, resolving succeeds exactly when the code can be laid out and no label is defined at two places |
| Labels.UnchangedIsSettled | core/autoasm.cpp:1589-1590 | A pass changes nothing exactly when the labels are settled |
| Labels.SameText | core/autoasm.cpp:1391-1428 | With every named label defined, the assembler is given the text it was sized with |
| Labels.ResolveForwardLabels | core/autoasm.cpp:1382-1594 | The passes over the labels in place, eight at most, and the sizes recorded for moved code |
| Labels.SizingPass | core/autoasm.cpp:1431-1587 | One pass |
| Labels.EmitLines | core/autoasm.cpp:2657-3107 | The emission loop |
| Conditionals.ExpandsToMeaning | core/autoasm.cpp:3598-3707 | On nested blocks the stack machine gives the text the blocks mean, having asked the evaluator only the conditions on the path taken, in order, and stops where the meaning stops |
| Conditionals.BlockExpanded | core/autoasm.cpp:3598-3707 | A block expands to its first branch when its condition holds and to the other one when it does not; only that branch asks more, and the text behind it follows. Without an answer everything is refused |
| Conditionals.TextExpanded | core/autoasm.cpp:3612-3618 | Text outside blocks is kept |
| Conditionals.NeverExpanded | core/autoasm.cpp:3598-3707 | A directive without a condition, or a misspelt one, refuses the text wherever it stands |
| Conditionals.ExpandsExactlyBlocks | core/autoasm.cpp:3598-3707 | It succeeds exactly on the text of nested blocks with at most one else each whose conditions all get an answer |
| Conditionals.ExpandConditionalBlocks | core/autoasm.cpp:3598-3707 | The loop with its stack |
| TryExcept.SelectsAsNested | core/autoasm.cpp:1659-1725 | Selecting branches on the flat list is selecting in the nested blocks |
| TryExcept.BlockSelected | core/autoasm.cpp:1596-1725 | Of a block its body is chosen, with all its own bodies, when every assertion anywhere in the body holds or there is no target, and what is chosen of the handler when some assertion fails; what stands behind is chosen for itself |
| TryExcept.LineSelected | core/autoasm.cpp:1659-1725 | A line outside blocks is kept |
| TryExcept.SelectionDropsMarkers | core/autoasm.cpp:1659-1725 | For any list, what is selected is a subsequence without markers |
| TryExcept.BodyKeepsBodies | core/autoasm.cpp:1596-1657 | Inside a body that can execute every nested block keeps its body |
| TryAcceptance.AcceptedExactly | core/autoasm.cpp:1659-1725 | Which flat lists are accepted, and as what: exactly those whose blocks, as they are met, pair up their markers in both branches, with the last except outside of inner blocks as the border, and so on in the branch taken |
| TryAcceptance.ManyExcepts | core/autoasm.cpp:1659-1725 | A block with any number of excepts is refused when everything before the last one can execute, and is its last branch otherwise |
| TryAcceptance.SecondExcept | core/autoasm.cpp:1680-1689 | For two excepts: refused exactly when what precedes the last can execute, that is when both the parts before it can; otherwise the last part is chosen |
| TryExcept.SelectTryExceptBranches | core/autoasm.cpp:1659-1725 | The recursive loop over the lines |
| TryExcept.FindBounds | core/autoasm.cpp:1677-1694 | The scan for a block's last except and its end |
| TryExcept.TryBranchCanExecute | core/autoasm.cpp:1596-1657 | A branch can execute exactly when there is no target or every assertion in it holds |
| TableReaders.TextRoundTrip | core/ct_file.cpp:924-959 | Loading a saved table never fails; it gives the table itself exactly when that is a forest in preorder with unique non-negative ids and at most 64 levels, and such a forest in any case |
| TableReaders.AnyTextGivesForest | core/ct_file.cpp:1178-1417 | Reading any text gives unique ids and parents before their children |
| TableReaders.WrittenIsRead | core/ct_file.cpp:1178-1417 | Reading what the writer wrote gives the nested lists it wrote |
| TableReaders.DeepTextRefused | core/ct_file.cpp:1178-1182 | The text of nested lists is read without complaint exactly when no more than 64 lists are in each other |
| TableReaders.FindMatchingClose | core/ct_file.cpp:1142-1160 | Jumping from mark to mark finds the close that brings the count of opens to zero |
| TableReaders.ExtentMeans | core/ct_file.cpp:1186-1222 | A record goes to its matching close, which must come before the end of its list; without a list in it, all of it is its own |
| TableReaders.NestedMeans | core/ct_file.cpp:1196-1222 | Otherwise its own elements end where the first list opens, and that list is nested in it if it is closed within the record |
| TableReaders.CloseMatches | core/ct_file.cpp:1142-1160 | The matching close is where opens less closes first come down to none |
| TableReaders.TableReader.ParseEntries | core/ct_file.cpp:1178-1417 | The loop over the records of a block, with their nested lists |
| TableReaders.ReadStep | core/ct_file.cpp:1183-1416 | The next whole record is read with its own elements, then the list nested in it, then what follows it |
| TableReaders.TableReader.UnusedId | core/ct_file.cpp:1405-1411 | One more than the largest id, or the first gap when that is the largest there is |
| TableReaders.LoadTable | core/ct_file.cpp:1783-1795 | The outermost list of the text |
| TableReaders.TableMeans | core/ct_file.cpp:1783-1795 | The entries are those of the first list if it is closed; other text has none, and that is no fault |
| TableForests.SavedExactlyOnce | core/ct_file.cpp:924-959 | Whatever the parent links are (cycles, duplicate or dangling ids), every entry is written once and nested no deeper than the reader follows |
| TableForests.ParentMeans | core/ct_file.cpp:924-937 | An entry is nested in the first one that has its parent id, unless that is itself or it names none; children are in the order of the table |
| TableForests.SavedUnderParents | core/ct_file.cpp:941-959 | Whatever the parent links are, what is nested in an entry names it as its parent |
| TableForests.SavedTops | core/ct_file.cpp:954-959 | On top of a saved table are first all entries without a parent, then what no root leads to, both in the order of the table |
| TableTexts.WriteTable | core/ct_file.cpp:924-960 | The text of the roots and of the sweep over what no root leads to |
| TableTexts.LinkChildren | core/ct_file.cpp:924-937 | Each entry's children in order, and whether it is one |
| TableTexts.TableWriter.WriteEntry | core/ct_file.cpp:941-953 | One entry and what is nested in it, unless it was written before |
| TableRoundTrips.RoundTrip | core/ct_file.cpp:1178-1417 | The round trip on nested lists, in both directions |
| TableRoundTrips.ReloadSettles | core/ct_file.cpp:1178-1417 | What one save and load makes of a table, further ones keep |
| TableRoundTrips.EntriesKept | core/ct_file.cpp:941-953 | Entry for entry the loaded table has the saved fields, in the order written |
| TableRoundTrips.LoadKeeps | core/ct_file.cpp:1403-1416 | Ids stay unique and each parent is an entry before its children |
| TableRoundTrips.FreshMeans | core/ct_file.cpp:1405-1411 | A fresh id is 1, one more than the largest, or the first free number when the largest is the last 32-bit integer |
| TableRoundTrips.LoadsExactly | core/ct_file.cpp:1178-1182 | Nested lists load without complaint exactly when no more than 64 are in each other |
| TableRoundTrips.ForestIsWritten | core/ct_file.cpp:941-958 | A listed forest is written as the nested lists of that forest |
| TableRoundTrips.ForestIsRead | core/ct_file.cpp:1183-1416 | The nested lists of a forest are read as that forest, ids unchanged |
| XmlTexts.EscapeRoundTrip | core/ct_file.cpp:1448-1472 | Unescaping the escaped form of any text gives the text |
| XmlTexts.NoMarkup | core/ct_file.cpp:255-267 | Escaped text has no angle brackets or quotes |
| XmlReferences.EscapesOnly | core/ct_file.cpp:255-267 | Only the four characters are escaped, each by its name |
| XmlReferences.NamedRead | core/ct_file.cpp:1460-1464 | Each of the five references by name is read as its character |
| XmlReferences.LiteralRead | core/ct_file.cpp:1451-1457 | A CDATA section is copied up to its end, or the end of the text |
| XmlReferences.NumericExactly | core/ct_file.cpp:1421-1446 | A reference by number is read exactly when it has a digit and at most ten characters between its marks, all of them digits of a code point that is no surrogate; otherwise its ampersand is kept |
| XmlReferences.EveryNumberRead | core/ct_file.cpp:1421-1431 | Every code point can be written by its number, in decimal or in hexadecimal of either case |
| XmlReferences.Utf8Decodes | core/ct_file.cpp:1432-1443 | The bytes of a code point are its UTF-8 form |
| XmlReferences.TagRead | core/ct_file.cpp:970-979 | An element's text goes from the first opening tag of its name to the first closing tag after that |
| XmlReferences.NoTag | core/ct_file.cpp:970-979 | Without such tags there is none |
| XmlTexts.FieldsRoundTrip | core/ct_file.cpp:970-979 | Of fields with different tags each is found by its own and unescapes to its value; a tag that is not there gives nothing |
| XmlTexts.XmlEscape | core/ct_file.cpp:255-267 | The loop over the characters |
| XmlTexts.XmlUnescape | core/ct_file.cpp:1448-1472 | The loop over CDATA sections, references and characters |
| JsonIntegers.JsonInteger | core/ct_file.cpp:1512-1585 | For a number token, the result is v exactly when the token's exact value, fraction and exponent included, is the integer v and v is in the type's range |
| JsonQuoted.QuotedInteger | core/ct_file.cpp:1512-1535 | For quoted text, the result is v exactly when the text is an integer in base ten, or with its prefix eight or sixteen, between white space, of value v in the type's range |
| JsonQuoted.ReadsQuoted | core/ct_file.cpp:1516-1535 | Every such text of a 64-bit magnitude is read as its value |
| JsonQuoted.NumeralsRead | core/ct_file.cpp:1516-1535 | An integer of 64-bit magnitude written in decimal, octal or hexadecimal, with a sign and white space, is read as itself, and a larger one is refused |
| JsonIntegers.CutOff | core/ct_file.cpp:1550-1558 | An exponent past the cut-off leaves no representable integer |
| JsonIntegers.DecimalMagnitude | core/ct_file.cpp:1536-1573 | The magnitude of an unsigned token |
| JsonIntegers.ShiftDigits | core/ct_file.cpp:1560-1573 | Removing zeros or appending them as the exponent and the places say |
| PointerExpressions.ChainRoundTrip | core/ct_file.cpp:1846-1866 | A chain with offsets is read back as written exactly when its base is trimmed, not empty and does not start with a bracket |
| PointerExpressions.ReadIsStable | core/ct_file.cpp:1846-1866 | What was read as a chain is read again from the text written for it |
| PointerExpressions.LevelRead | core/ct_file.cpp:1854-1862 | One level is peeled whatever white space is around its parts; nothing behind the bracket is offset zero |
| PointerExpressions.OffsetForms | core/ct_file.cpp:1824-1843 | An offset with or without a sign and 0x, in digits of either case, is 64 bits of two's complement, negated after a minus |
| PointerExpressions.OffsetExactly | core/ct_file.cpp:1824-1843 | Nothing else is an offset |
| PointerExpressions.BuildPointerExpression | core/ct_file.cpp:1800-1813 | Brackets from the inside out, the first offset outermost |
| PointerExpressions.LevelWritten | core/ct_file.cpp:1800-1813 | Each level is its inside in brackets, a sign, and lower-case digits, also for zero |
| PointerExpressions.ParsePointerExpression | core/ct_file.cpp:1846-1866 | Peeling one bracket level at a time |
| PointerExpressions.ParseSignedHexOffset | core/ct_file.cpp:1824-1843 | A sign, perhaps 0x, and hex digits modulo 64 bits |
| AgentChats.AgentChat.Send | core/agent_chat.cpp:147-262 | The transcript stays valid and the log of approvals proper; a turn that fails before any call was answered restores the messages exactly when a request could have been made at all or no model was chosen; once cancelled nothing is sent, asked or run. At most as many requests as rounds are sent; unless the user stopped it, the turn succeeds exactly when the last reply could be read and calls no tool, and otherwise there was no model, the last reply could not be read or the rounds were used up |
| AgentChats.AgentChat.Round | core/agent_chat.cpp:187-259 | One request: it fails exactly when it was stopped or the reply cannot be read, finishes exactly when the reply calls no tool, and otherwise answers the calls |
| AgentChats.AgentChat.AnswerCalls | core/agent_chat.cpp:209-254 | Every call of a reply gets exactly one result, in order: for each of the first sixteen what `Perform` gave for it, and for every later one a note that it did not run; what is asked and run is just what those first ones did, and none runs after the user stopped the turn |
| AgentChats.AgentChat.Perform | core/agent_chat.cpp:229-238 | A call runs exactly when the turn was not stopped, its arguments are an object, and it needs no approval or was approved; nothing is asked or run exactly when the turn was stopped, the arguments are no object, or approval is needed and nobody can give it; each refusal has its own text and is an error |
| AgentChats.ChangesAreApproved | core/agent_chat.cpp:44-52 | In every history, a tool that changes something ran only right after a yes to that very call, the user was asked about no other tool, and only valid transcripts were sent |
| AgentChats.SixteenPerReply | core/agent_chat.cpp:212-224 | Between two requests at most sixteen tools ran |
| AgentChats.AgentChat.ParseReply | core/agent_chat.cpp:94-145 | A reply adds at most one assistant message: the blocks as they came, or the text and the calls that have a function, in order; the saved calls are the calls returned |
| AgentChats.AnthropicTurns | core/agent_chat.cpp:163-174 | A valid Anthropic transcript alternates from the user on, and each turn after calls answers exactly those |
| AgentChats.OpenAiResults | core/agent_chat.cpp:248-250 | In a valid OpenAI transcript the results of a message's calls follow it one by one |
| AgentChats.TextIsRequestable | core/agent_chat.cpp:163-174 | Adding the user's text to a valid transcript gives one the model can be asked with |
| AgentChats.TextIsLast | core/agent_chat.cpp:163-174 | The user's text comes last and everything said before is kept |
| AgentChats.ReplyPends | core/agent_chat.cpp:110-113 | After a reply its calls, and nothing else, wait for results |
| AgentChats.ResultsComplete | core/agent_chat.cpp:252-253 | Results in the provider's form complete the transcript |
| SignatureSearch.CountMatches | analysis/signature.cpp:44-71 | In overlapping chunks of any size: with complete reads the lesser of two and the number of matches, and always the lowest match; called incomplete only when some read inside the range came back short |
| SignatureSearch.CountInBuffer | analysis/signature.cpp:26-40 | The same in one buffer |
| SignatureSearch.MakeSignatureIn | analysis/signature.cpp:126-183 | With complete reads the pattern is that of the first instructions that match once, and is called unique exactly when it matches once, at the address |
| SignatureSearch.UniqueExactlyWhen | analysis/signature.cpp:140-177 | Code gets a unique signature exactly when the pattern of some number of its first instructions within the limit matches once |
| SignatureSearch.OnlyAddress | analysis/signature.cpp:126-136 | A pattern that matches once over all ranges matches at one address |
| RowTree.HiddenByCollapse | core/address_list.hpp:35-49 | A row is hidden exactly when some collapsed row has it under it |
| RowTree.DescendantRange | core/address_list.hpp:21-28 | Exactly the rows under a row |
| RowTree.ExpandGroupDeletion | core/address_list.hpp:135-148 | The selected rows and those under them, ascending |
| RowTree.DeletionIsLeast | core/address_list.hpp:127-134 | That set is closed under descendants, and no smaller such set holds the selection |
| RowTree.DeletionKeepsTree | core/address_list.hpp:127-134 | In the list left after the removal a kept row is under exactly the kept rows it was under before |
| RowTree.MoveRangePermutation | core/address_list.hpp:56-75 | Which row comes to each position; nothing moves when the block is empty or outside the list or the destination is |
| RowTree.MoveReorders | core/address_list.hpp:50-55 | No row is lost or doubled; block and rest keep their order, and the block stands before the row at the destination |
| RowTree.GroupSelection | core/address_list.hpp:92-125 | Header, members and the other rows in order; the header has the least indent of the members, each member is one deeper than it was, and the other rows keep theirs |
| RowTree.MembersAreUnderHeader | core/address_list.hpp:77-86 | Under the new indents every member is in the header's range |
| RowTree.UnderHeaderExactly | core/address_list.hpp:83-85 | Another row comes under the header exactly when it stood after the first member and no row that is not selected, from there up to it, is as shallow as the header |
| RowTree.MemberNesting | core/address_list.hpp:81-83 | A member is under another after grouping exactly when the members from there to it were all deeper |
| RowTree.NestingKept | core/address_list.hpp:81-83 | No member loses a member above it, and the nesting of two members is kept exactly when no shallow row that is not selected stood between them |
| RowTree.NeighboursKeepNesting | core/address_list.hpp:81-83 | Members with only members between them keep their nesting |
| RowTree.GroupingReparents | core/address_list.hpp:83-85 | A grouping after which a row that was not selected is under the header, and a member under another it was not under |
| DryRun.DryRunProcess.Read | core/agent_tools.cpp:251-263 | What is read is what the flat view of memory, writes and blocks has there; it falls short exactly when no block holds the whole range and the process lacks a byte of it, and stops at a byte that the process lacks |
| DryRun.DryRunProcess.Write | core/agent_tools.cpp:264-272 | A write changes the view of its own range and nothing else: all of it when a block holds the range, otherwise the bytes that the process has; it is a write of flat memory exactly when a block holds the range or the blocks have the same bytes already |
| DryRun.LostAtTheEdge | core/agent_tools.cpp:264-272 | A write over the edge of a block loses the byte that belongs in the block |
| DryRun.DryRunProcess.Allocate | core/agent_tools.cpp:274-285 | A block of whole 64 KiB steps that holds the size, at the first free of 32768 steps from the preferred address, or from 0x10000000; zeros in the view, nothing else changed |
| DryRun.OverlapShares | core/agent_tools.cpp:302-312 | A spot is free when it shares no address with what is mapped or allocated |

## Left out

Of the relocator:
- Instructions that the fragment does not decode are steps that do not depend on their address; faults of a literal load, self-modifying code and code that reads the relocated block as data are not modelled.
- The disassembler's verdict is a parameter. The theorems add that the block holds no unallocated encodings of the fragment, which that verdict stands for in the program.

Of the auto assembler:
- Page protections, threads that still run in patched memory, pinned images and retired address spaces, unmapped ranges, globalalloc blocks, symbols and locks.
- The any-order theorem is about data patches outside of allocations, with no `[DISABLE]` section and no other writer; overlapping code patches are refused (`Assembler.OwnedUnderHook`, `Assembler.AutoAssembler.Cleanup`), not handed over.
- Reads and comparisons in pieces of 64 KiB and merged ranges; the model compares range by range.
- A retry takes the undo that the failed attempt returned, as callers do.
- Assembler.AutoAssembler.Cleanup: leaves out ranges unmapped since, threads that stand in the code, page protections, symbols and pinned images, because a process here is its mapped bytes only.
- Sessions.Session.Disable: the same, for the same reason.
- Restore.FreeAll: leaves out allocations that were released before, which the program skips, because nothing else frees them here.
- Activations.Activation.PatchMemory: leaves out unlogged writes into globalalloc blocks and the change of page protections before the retry, because both belong to allocations and pages, which are not modelled.
- Labels.EmitLines: leaves out patches that fail and directives with other effects, because `Activations` has the first and the second emit no code.
- Assembler.AutoAssembler.Run: takes the patches a section makes as given, because assembling them is the subject of `Labels`.
- Tokenising of scripts, comments, numbers, `{$lua}` and `{$ccode}` blocks; `Conditionals`, `TryExcept` and `Labels` start from tokens and lines. Assembling, resolving names and evaluating conditions are arbitrary functions.
- Labels.ResolvedThenEmitted: says nothing about a line that names a declared label no line defines; sizing has a placeholder for it and emission leaves the name.

Of the cheat tables:
- The markup is a list of tokens in `TableText` and `TableReader`; `XmlText` covers what is between two tags. Hotkeys, attributes, and the fields themselves are opaque text.
- TableReaders.TableReader.UnusedId: ids beyond the largest 32-bit integer are not wrapped, because a table with that many entries does not fit in memory.
- JsonIntegers.JsonInteger: a token may not come within 20 of the largest size, because none that long can exist.
- TableReaders.TableReader.ParseEntries: the flag for a valid format is cleared here by lists nested too deep only, because other malformed fields are opaque text.
- PointerExpressions.BuildPointerExpression: the smallest 64-bit offset is excluded, because negating it is undefined in the program.
- Saving to disk, the native JSON format around its integers, and obfuscation.

Of the rest:
- Requests, their headers and bodies, and the text of error messages of the assistant; what a tool does.
- SignatureSearch.MakeSignatureIn: which bytes of an instruction are wildcards is given, and memory does not change during the search.
- DryRun.DryRunProcess.Read: addresses do not wrap, because blocks are placed far below the top.
- Mono, IL2CPP and PE readers, listings, scans, hotkeys and the user interface.
