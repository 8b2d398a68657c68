# Verified models of the QMK firmware core

The firmware turns a scanned key matrix into reports. This project models the parts of it where events,
memory or time can be lost, and proves what keeps them from being lost:

- **Tap-hold keys** (`Tapping*.dfy`): the state machine that decides between tap and hold, its queue of
  waiting events, and the loop that offers every event to the machine and then drains the queue. The
  keymap, layer state and per-key settings are an arbitrary environment that may change before every call
  of `process_tapping`; ticks may come at any time. A run is any sequence of events from the initial state.
- **Speculative hold** (`Speculative*.dfy`): modifiers applied before a mod-tap key settles, one by one.
- **Deferred executor** (`Deferred*.dfy`): the wrapping 8-bit token allocator and the scheduler on a
  wrapping 32-bit clock, with callbacks that call back into the table; `DeferredClock.dfy` and
  `DeferredTask.dfy` follow it in true time.
- **Layers** (`Layer*.dfy`): the bit-sliced cache that lets a release find the layer of its press.
- **EEPROM drivers** (`PagedMemory.dfy`, `Eeprom*.dfy`): block writes in chunks against a device that
  wraps inside a page.
- **UF2 files** (`Uf2*.dfy`): writing from binaries and Intel HEX records, byte by byte, reading, and the way back. The
  layout is the one of the "File format" section of Microsoft's UF2 specification.
- **CRC8** (`Crc*.dfy`): both checksum routines as polynomial division, and the errors they always notice.
- **Matrix** (`Matrix*.dfy`): the ghost test and the differ that turns scans into key events.
- **Pipeline** (`Pipeline.dfy`): the differ feeding the tap-hold machine.
- **Bluefruit LE** (`RingBuffer.dfy`, `Sdep.dfy`, `At*.dfy`, `Report*.dfy`): SDEP packets, the AT
  commands that carry reports, and the retrying report queue down to the packets it sends.
- **Mouse keys** (`Mouse*.dfy`): the inertia integrator, and which way the mouse goes.

`Clock.dfy` holds the fixed-width types and wrapping clock readings, `Rings.dfy` the circular buffer that
the tapping queue and the Bluefruit queues share.

Code that updates state in place is modelled by classes and loops with the source's own variables, and
every such method is proved equal to a function on values. The theorems are about those functions, so they
hold of the methods.

## Where the code does not do what one would expect

For each of these the exact condition under which the expected behaviour does hold is proved, and a run or
input that violates it.

- *Tap-hold agreement.* With alternating keys, arrivals that find the queue empty or a key unsettled,
  constant settings and no overflow, a key can still be pressed as a tap and released as a hold. One cause
  is the restart at `quantum/action_tapping.c:615`, which makes a queued press the tapping key without
  scanning the queue, so that a later release of the same key settles it although its own release is still
  queued (`TappingStuck.DisagreeingRun`). The release of an unsettled key is safe, whatever comes later,
  exactly when it is late or no event of that key is queued ahead of it (`TappingExact.SafeReleaseIffFirst`).
  The other cause is that ages are compared modulo 65536 ms: the scan settles a press on the first queued
  release of its key, whatever the term is, exactly when no later one looks younger
  (`TappingAgreement.ScanFindsFirstIff`), and a run in which one does is `TappingWrap.MisleadingRun`.
  `TappingAgreement.TapHoldAgreement` is proved under these two conditions.
- *Speculative modifiers.* When two tracked keys own the same modifier, settling one takes it away from the
  other: all modifiers of the remaining keys stay applied exactly when no key that is gone shares one with them
  (`SpeculativeBits.StaysAppliedIff`, `SpeculativeBits.SharedModifierGoes`).
- *Self-cancelling callbacks.* A callback that cancels itself and queues anew can be given its own token
  back in its own slot, and the task then takes the new entry for the old one: exactly when as many values
  are usable between the counter and that token as slots are free below its own, and it makes more requests
  than those slots (`DeferredRequeue.RequeueMissedIff`). `DeferredRequeue.RequestIsLost` is such a history.
- *EEPROM.* The I2C bus address is worked out from the start of the block only
  (`drivers/eeprom/eeprom_i2c.c:135`), so on devices that encode part of the location in it a write is
  faithful exactly when the block stays in the bank it starts in (`EepromWrite.FaithfulIffOneBank`). Over SPI
  a failed read fills the buffer with zeros, so an update is lost exactly when the read fails, only zeros
  were to be written, and the memory holds something else (`EepromWrite.SpiUpdateLostIff`).
- *UF2 reader.* A block without the magic numbers is not skipped: the message for it adds a number to a
  string and raises an exception (`util/uf2conv.py:52`). A file is read only if every block has them
  (`Uf2Decode.ReadNeedsMagic`), and a block without them, put anywhere into a file that is read, makes the
  reader fail (`Uf2Decode.ForeignBlockFails`).
- *UF2 families.* The zeros for gaps are written before it is asked whose family a block is
  (`util/uf2conv.py:75-79`), so one family whose data lie together in a file is read as its image exactly when
  the data of the other families have no gaps (`Uf2Families.ForeignGapsLeakIff`, `Uf2Families.GapLeaks`).
- *SDEP reassembly.* The room left is passed through an eight-bit parameter, so a text comes back exactly
  when it is no longer than `resplen` modulo 256 (`Sdep.RestoredIff`).
- *Report queue.* A command that failed in the middle is sent again from its first packet, and the module
  hears what got through before in front of it: what it hears is what was sent, with nothing left over,
  exactly when no try failed in the middle (`ReportQueue.RunHeardIff`, `ReportQueue.KeyReportCorrupted`). The
  commands of each completed report get through once and in order exactly when no attempt on a mouse report
  failed between its two commands, and a motion gets through once more for every such attempt
  (`ReportDelivery.EachCommandOnceIff`, `ReportDelivery.MotionCount`, `ReportDelivery.MotionIsRepeated`). With
  the ring full and an answer pending, the loop that queues a new report never ends, as it does not read the
  answer; `ReportDelivery.AcceptedIff` says exactly when it ends and `ReportDelivery.LoopNeverEnds` is a run
  that gets there.
- *Mouse keys.* The comment at `quantum/mousekey.c:453` says that a release clears the movement unless the opposite
  direction is held. The code asks which key of the axis was pressed last: releasing that one clears the
  movement even if the opposite key is held (`MouseMotion.DirectionIff`, `MouseMotion.HeldKeyLosesCharge`).

## Model

| member | source | states |
|---|---|---|
| Clock.TimerDiff16IsAge | platforms/timer.h:28 | a 16-bit difference of two readings is the true age when that is less than one wrap |
| Clock.SignedDiff32IsDistance | platforms/timer.h:29 | a 32-bit difference read as signed is the true distance within half a wrap |
| Rings.ContentsEnqueue | quantum/action_tapping.c:664-670 | storing at the head and advancing it appends to the queue the ring stands for, when the ring is not full |
| Rings.ContentsDequeue | quantum/action_tapping.c:184 | advancing the tail drops the oldest entry and no other |
| Rings.ContentsUpdate | quantum/action_tapping.c:726-733 | writing through a slot changes exactly the entry queued there |
| Tapping.Process | quantum/action_tapping.c:255-653 | offering a record never lengthens or shortens the queue, never rewrites what was handed on, and keeps the record's event |
| Tapping.ScanIndex | quantum/action_tapping.c:725-740 | the scan finds the first queued release of the tapping key within the term, or none |
| TappingEngine.Engine.constructor | quantum/action_tapping.c:132-135 | the statics start in the reset state with an empty queue |
| TappingEngine.Engine.ProcessRecord | quantum/action.c:280-283 | ticks are dropped, other records handed on |
| TappingEngine.Engine.WaitingBufferEnq | quantum/action_tapping.c:659-675 | queues a record unless seven are queued; ticks count as queued and leave no trace |
| TappingEngine.Engine.WaitingBufferClear | quantum/action_tapping.c:681-684 | empties the queue |
| TappingEngine.Engine.WaitingBufferTyped | quantum/action_tapping.c:690-697 | true exactly when the opposite transition of the same key is queued |
| TappingEngine.Engine.FindCandidate | quantum/action_tapping.c:725-728 | the loop over the ring finds the slot of the first candidate |
| TappingEngine.Engine.WaitingBufferScanTap | quantum/action_tapping.c:714-741 | settles the tapping key and its queued release as a tap, as the specification says |
| TappingEngine.Engine.ProcessTapping | quantum/action_tapping.c:255-653 | the state machine on the ring does, branch by branch, what the specification says, including the changes to the offered record |
| TappingEngine.Engine.DrainTail | quantum/action_tapping.c:184-192 | one turn of the draining loop, with the record in the ring changed in place |
| TappingEngine.Engine.ActionTappingProcess | quantum/action_tapping.c:150-201 | a whole call: offer, queue or overflow, drain |
| TappingInvariant.ProcessKeepsInvariant | quantum/action_tapping.c:255-653 | every offer keeps the machine invariant and the events queued |
| TappingInvariant.RunKeepsInvariant | quantum/action_tapping.c:150-201 | every run keeps it, whatever the environments answer |
| TappingInvariant.ReachableInvariant | quantum/action_tapping.c:714-720 | in every reachable state a released tapping key counts a tap, counts are at most 15, queued presses are untouched, and at most 7 events are queued |
| TappingInvariant.OverflowResets | quantum/action_tapping.c:164-171 | an overflow leaves the initial state |
| TappingInvariant.TapCancelIsDead | quantum/action.c:518-528 | for a key that holds on other key presses no press is ever handed on as an interrupted tap, so the branch that cancels such taps is dead |
| TappingOrder.ProcessTakes | quantum/action_tapping.c:255-653 | an offer puts the record it consumes behind everything of its key that is already through, and takes nothing else |
| TappingOrder.OfferJoinsLine | quantum/action_tapping.c:158-172 | a fresh event joins its key's line at the end, or before what is queued |
| TappingOrder.Conservation | quantum/action_tapping.c:150-201 | in every run without overflow the events of a key fed in are, as a multiset, those handed on, plus its press while unsettled, plus those queued |
| TappingOrder.OnlyReleasesAreMadeUp | quantum/action_tapping.c:516-528 | the only other records handed on are releases made up for keys tapped more than once |
| TappingOrder.KeyOrder | quantum/action_tapping.c:150-201 | with alternating keys and drained arrivals each key's events are handed on in the order fed in |
| TappingProgress.HoldBack | quantum/action_tapping.c:421-504 | while a key is unsettled no other press is handed on before its own, only releases of other keys none of whose presses is queued |
| TappingProgress.LateTickSettles | quantum/action_tapping.c:547-555 | a tick settles an unsettled key as held exactly when its 16-bit age has reached the term |
| TappingProgress.DrainOneWorks | quantum/action_tapping.c:184-192 | each turn of the draining loop brings the machine strictly nearer to idle unless a key is unsettled |
| TappingProgress.TicksDrainEverything | quantum/action_tapping.c:150-201 | at most 23 late enough ticks leave no event queued and no key unsettled |
| TappingProgress.TwoTicksPerEvent | quantum/action_tapping.c:643-650 | while no key is unsettled n queued events need at most 2n ticks of whatever times |
| TappingDecision.OfferDecides | quantum/action_tapping.c:300-555 | an unsettled key settles as a hold exactly when the record offered is 16-bit late, releases another key whose press is queued under permissive hold, or presses a key under hold on other key press; as a tap exactly when it is the own release within the term; otherwise it stays unsettled, interrupted by presses |
| TappingDecision.DecidedIsQueued | quantum/action_tapping.c:313-346 | the record that settles a key waits behind the others, the own release marked with the tap |
| TappingDecision.OfferPasses | quantum/action_tapping.c:421-449 | a record that settles nothing is handed on at once exactly when it is the release of a key none of whose presses is queued and need not be retained; otherwise it waits |
| TappingDecision.DrainOneDecides | quantum/action_tapping.c:184-192 | the same decisions for the head of the queue |
| TappingDecision.CallDecides | quantum/action_tapping.c:150-201 | a whole call settles an unsettled key as the record says, or else as the first queued record that decides says, or not at all, told from the records handed on |
| TappingDecision.PressStarts | quantum/action_tapping.c:263-293 | with no key unsettled or remembered a pressed tap-hold key is held back, or is a tap at once when its release is queued in time; any other key is handed on; a key tapped more than once is released first |
| TappingDecision.ReleaseHandedOn | quantum/action_tapping.c:507-513 | with no key unsettled a release is handed on, the tapping key's own with its press's tap; the key is remembered exactly when that came within its term |
| TappingDecision.RepeatedPress | quantum/action_tapping.c:602-616 | a released key pressed again within its term counts one tap more, up to 15, exactly when within the quick-tap term and not interrupted; otherwise it starts over unsettled |
| TappingDecision.RepeatedPressDecides | quantum/action_tapping.c:602-616 | the same for a whole call |
| TappingDecision.OtherPressAfterTap | quantum/action_tapping.c:617-637 | another key pressed within the term takes the place of a released one, or interrupts it |
| TappingDecision.TapForgotten | quantum/action_tapping.c:643-650 | past its term a released key is forgotten and the record waits |
| TappingDecision.NestedTap | quantum/action_tapping.c:371-403 | a key tapped while a tap-hold key is down: the four events are handed on in order, and the tap-hold key counts as tapped exactly when it is not set to permissive hold and is released within its term |
| TappingAgreement.ScanFindsFirstIff | quantum/action_tapping.c:725-740 | the scan settles on the first queued release of the tapping key or on none, whatever the term is, exactly when no later one looks younger on the 16-bit clock |
| TappingAgreement.WindowTells | platforms/timer.h:28 | that is so for every queued press when the events are queued in the order of their times and span less than one wrap |
| TappingAgreement.ScanFindsOwnRelease | quantum/action_tapping.c:725-740 | then, if the next queued event of the tapping key is its release, the scan settles on that one |
| TappingAgreement.DrainOneAgrees | quantum/action_tapping.c:184-192 | every turn of the draining loop keeps the agreement of presses and releases |
| TappingAgreement.RunAgrees | quantum/action_tapping.c:150-201 | it is kept by every run of alternating events without overflow in which events arrive drained, ages tell which release comes first, and an unsettled key's release within its term finds no event of its key queued |
| TappingAgreement.TapHoldAgreement | quantum/action_tapping.c:150-201 | in such a run every physical release is handed on as a tap exactly when its own press was, unless a release made up with the press's tap came in between |
| TappingExact.BehindQueueBreaks | quantum/action_tapping.c:602-616 | an unsettled key's release that arrives within its term behind queued events of its key breaks agreement in some later environment |
| TappingExact.SafeReleaseIffFirst | quantum/action_tapping.c:313-346 | whatever is consulted on its arrival, that release is safe in every later environment exactly when it is late or no event of its key is queued ahead of it |
| TappingStuck.DisagreeingRun | quantum/action_tapping.c:602-616 | a run of eleven calls with alternating keys, drained arrivals, ages that tell and constant settings in which a press is handed on as a tap and its own release as a hold, so that release is not answered |
| TappingWrap.MisleadingRun | quantum/action_tapping.c:725-740 | a run of eight calls in which only the ages mislead, a press is settled on the second release of its key, and the first is handed on as a hold |
| TappingPlain.TapQualifies | quantum/action_tapping.c:313-346 | the conditions of the agreement theorem are met by a plain tap, which is handed on as a press and a release of one tap |
| SpeculativeHold.PressedKeepsBacked | quantum/action_tapping.c:767-821 | a press keeps tracked keys distinct, at most eight, and every speculative modifier owned by one of them |
| SpeculativeHold.SettledKeepsBacked | quantum/action_tapping.c:832-892 | so does a settlement, as a hold from the middle of the list or as a tap that cuts it off; the settled key is no longer tracked |
| SpeculativeHold.NoModifierLeaks | quantum/action_tapping.c:767-892 | after any sequence of both no modifier is applied that no tracked key owns, and none when no key is tracked |
| SpeculativeBits.UnpackOwns | quantum/action_tapping.c:793-795 | a packed key owns modifiers of the left hand when bit 4 is clear and of the right hand when it is set |
| SpeculativeBits.PressAccepted | quantum/action_tapping.c:767-816 | a press is taken on exactly when there is room, its key is an untracked mod-tap key with a modifier neither held nor applied, and the settings agree |
| SpeculativeBits.PressAdds | quantum/action_tapping.c:808-816 | then exactly the modifiers applied before and the key's own are applied |
| SpeculativeBits.SettleRemoves | quantum/action_tapping.c:832-892 | a hold removes its key from the list, a tap its key and all later ones, or everything when it is not in the list |
| SpeculativeBits.SettleClears | quantum/action_tapping.c:843-886 | while a key remains a modifier is applied after a settlement exactly when it was before and none of the keys that are gone owns it |
| SpeculativeBits.AppliedIffAddedAndKept | quantum/action_tapping.c:767-892 | after any sequence of both a modifier is applied exactly when a press added it and no key that owns it has been settled or cut off since |
| SpeculativeBits.StaysAppliedIff | quantum/action_tapping.c:843-886 | a settlement leaves all modifiers of the remaining keys applied exactly when no key that is gone shares one with them |
| SpeculativeBits.SharedModifierGoes | quantum/action_tapping.c:864-886 | a run in which a modifier of a key still tracked is taken away |
| SpeculativeHold.Speculation.FindKey | quantum/action_tapping.c:757-765 | index of the key or the number of keys |
| SpeculativeHold.Speculation.KeyPress | quantum/action_tapping.c:767-821 | the press handler over the array and its counter |
| SpeculativeHold.Speculation.RemoveEntry | quantum/action_tapping.c:850-853 | shifting the later entries down removes exactly one entry |
| SpeculativeHold.Speculation.KeySettled | quantum/action_tapping.c:832-892 | the settlement handler over the array and its counter |
| DeferredExec.FirstUsable | quantum/deferred_exec.c:30-40 | the search finds the least number of increments to a usable token, or that there is none among the 256 values |
| DeferredTable.Table.TokenCanBeUsed | quantum/deferred_exec.c:18-28 | true exactly for non-zero tokens that no entry has |
| DeferredTable.Table.AllocateToken | quantum/deferred_exec.c:30-40 | the wrapping search ends, within 256 steps, with the first usable value, or with none |
| DeferredTable.Table.DeferExecAdvanced | quantum/deferred_exec.c:46-73 | claims the first free slot with a new token and a deadline modulo 2^32 |
| DeferredTable.Table.ExtendDeferredExec | quantum/deferred_exec.c:75-93 | moves the deadline of the entry with the token |
| DeferredTable.Table.CancelDeferredExec | quantum/deferred_exec.c:95-116 | empties the entry with the token |
| DeferredTable.Table.Task | quantum/deferred_exec.c:118-157 | a pass or nothing, with callbacks that call back into the table between the reads and writes of an entry; which of the two is DeferredTask.TaskPassesIffLater |
| DeferredTokens.HistoryKeepsDistinct | quantum/deferred_exec.c:46-157 | in every history of calls and passes, with callbacks calling back in any way, live tokens are distinct |
| DeferredTokens.SearchIsShort | quantum/deferred_exec.c:30-40 | with a free slot the search skips at most one value for each entry of the table |
| DeferredTokens.DeferSucceeds | quantum/deferred_exec.c:46-73 | a call succeeds exactly when its arguments are valid, a slot is free and a token value is unused; up to 255 slots one always is |
| DeferredTokens.ExtendMovesOne | quantum/deferred_exec.c:75-93 | extending succeeds exactly for a live token and a delay, and moves that entry's deadline and nothing else |
| DeferredTokens.CancelFreesOne | quantum/deferred_exec.c:95-116 | cancelling succeeds exactly for a live token, and frees that slot and nothing else |
| DeferredTokens.ReissueGap | quantum/deferred_exec.c:30-40 | no token value is issued before the counter can have come round to it, whatever calls are made here and however far allocations in other tables move the counter |
| DeferredTokens.FreshTokenGap | quantum/deferred_exec.c:30-40 | a token just issued stays away while fewer than 256 increments are possible |
| DeferredTokens.SelfCancelDetected | quantum/deferred_exec.c:128-138 | a callback that cancels itself, among any other calls, is recognised when its calls cannot carry the counter round to its own token |
| DeferredRequeue.FilledWithIff | quantum/deferred_exec.c:46-73 | after any number of valid requests a free slot carries an unused token exactly when as many values are usable before that token as slots are free below, and there are more requests than those slots |
| DeferredRequeue.RequeueMissedIff | quantum/deferred_exec.c:133-153 | so a callback that cancels itself and makes any number of valid requests is missed under exactly that condition, and otherwise its slot is left alone |
| DeferredRequeue.SingleRequeueMissedIff | quantum/deferred_exec.c:133-153 | one request is missed exactly when no earlier slot is free and no value on the way to the callback's own token is usable |
| DeferredRequeue.RequestIsLost | quantum/deferred_exec.c:133-153 | a history of a two-slot table in which the new entry is erased |
| DeferredTiming.DueIffReached | quantum/deferred_exec.c:131 | within half a wrap an entry is due exactly when its trigger time has been reached |
| DeferredTiming.LaterCallSetsAhead | quantum/deferred_exec.c:64 | a deadline set during a pass lies ahead of the pass's clock |
| DeferredTiming.PassRunsOldEntries | quantum/deferred_exec.c:126-155 | a pass runs entries that were due when it began, each slot at most once, and none deferred or extended during it |
| DeferredTiming.TurnOfOneShot | quantum/deferred_exec.c:147-153 | a callback that returns 0 frees its slot, and what else it did stays |
| DeferredTiming.PeriodicTriggers | quantum/deferred_exec.c:141-146 | a callback that always returns d has the trigger times t0, t0+d, t0+2d, ... however late each pass is |
| DeferredClock.TraceIsHistory | quantum/deferred_exec.c:46-157 | a history with true times, forgetting them, is the history of the executor |
| DeferredClock.HistoryKeepsSynced | quantum/deferred_exec.c:64 | along every history each live trigger is its true trigger modulo 2^32 |
| DeferredClock.TurnRunsIff | quantum/deferred_exec.c:130-133 | with its true trigger within half a wrap of the pass a slot runs exactly when it is live and that has been reached |
| DeferredClock.NeverEarly | quantum/deferred_exec.c:118-157 | in every history of calls and passes in which that is so no callback runs before its true trigger time |
| DeferredClock.PeriodicInstants | quantum/deferred_exec.c:141-146 | the k-th run of a callback that always returns d has true trigger t0 + k*d and happens no earlier |
| DeferredTask.TaskPassesIffLater | quantum/deferred_exec.c:118-123 | a call of the task within half a wrap of the last pass makes a pass exactly when its instant is later |
| DeferredTask.WorkIsHistory | quantum/deferred_exec.c:118-157 | along any run of calls and tasks at true instants the executor does what its history with one pass for each new latest instant does |
| DeferredTask.PassesIncrease | quantum/deferred_exec.c:118-123 | passes are made at distinct, increasing instants |
| DeferredTask.PassAtIff | quantum/deferred_exec.c:118-123 | a pass is made at an instant exactly when that was later than all before at some call of the task |
| DeferredTask.EveryMillisecond | quantum/deferred_exec.c:118-123 | while the clock does not go back every millisecond at which the task is called gets its pass |
| DeferredTask.ReachedIsFired | quantum/deferred_exec.c:126-133 | in the next call at a later instant a live entry that no callback before it touches runs exactly when its true trigger time has been reached |
| DeferredTask.OverdueRunsNext | quantum/deferred_exec.c:118-157 | the same after any run |
| LayerCache.SpliceBits | quantum/action_layer.c:255 | the branch-free update sets or clears one bit of the byte and leaves the other seven |
| LayerCache.RowIsMap | quantum/action_layer.c:251-273 | reading back an update gives the layer's low bits, and the other seven entries sharing the bytes are unchanged |
| LayerCache.FitsIff | quantum/action_layer.c:268-270 | a layer survives the cache exactly when it is below 2^bits |
| LayerCache.TopLayer | quantum/action_layer.c:342-362 | the highest active layer with an action of its own for the key, or layer 0 |
| LayerCache.OthersLeaveSource | quantum/action_layer.c:279-308 | no operation other than a press of the key changes the layer remembered for it |
| LayerCache.UnpressedIsBase | quantum/action_layer.c:242 | a key never pressed has layer 0 remembered |
| LayerAnswers.RunStores | quantum/action_layer.c:42-138 | the layers in force are those stored last |
| LayerAnswers.AnswersFromForemost | quantum/action_layer.c:311-336 | along every run a press, and whatever bypasses the cache, is answered from the highest layer that is on then and has an action of its own for the key, or layer 0 |
| LayerAnswers.ReleaseFindsPress | quantum/action_layer.c:311-336 | over any interleaving a release is answered from the same layer as that key's last press, the highest that spoke for it then |
| LayerAnswers.ReleaseWithoutPress | quantum/action_layer.c:296-308 | without such a press, and off the matrix, from layer 0 |
| LayerEngine.Engine.UpdateCache | quantum/action_layer.c:251-257 | the loop over the bytes changes exactly the one entry |
| LayerEngine.Engine.ReadCache | quantum/action_layer.c:263-273 | the loop over the bytes reads the entry |
| LayerEngine.Engine.GetLayer | quantum/action_layer.c:342-362 | the downward loop finds the top layer |
| LayerEngine.Engine.LayerStateSet | quantum/action_layer.c:132-138 | replaces the layer state by what the module and keyboard hooks make of it, and nothing else |
| LayerEngine.Engine.DefaultLayerStateSet | quantum/action_layer.c:42-48 | replaces the default layer state by what its hooks make of it, and nothing else |
| LayerEngine.Engine.UpdateSource | quantum/action_layer.c:279-283 | remembers the layer for keys of the matrix only |
| LayerEngine.Engine.ReadSource | quantum/action_layer.c:296-307 | the layer remembered, 0 off the matrix |
| LayerEngine.Engine.StoreOrGetAction | quantum/action_layer.c:318-336 | stores on press, reads on release, and returns the action of the layer that LayerAnswers speaks of |
| LayerEngine.LayerRoundTrip | quantum/action_layer.c:251-273 | a layer number survives the eight-bit form and the bits of the cache |
| PagedMemory.WriteWithinPage | drivers/eeprom/eeprom_i2c.c:115-135 | on a device that wraps inside a page a write that ends within its page is a plain one |
| PagedMemory.AddressOfBytes | drivers/eeprom/eeprom_i2c.c:49-55 | the address bytes are the big-endian address modulo the range they can tell apart |
| EepromWrite.WriteBlockIsSplice | drivers/eeprom/eeprom_i2c.c:105-141 | inside one bank the memory ends up with exactly the region replaced, with one transaction for each page touched |
| EepromWrite.FaithfulIffOneBank | drivers/eeprom/eeprom_i2c.c:135 | a block is written faithfully exactly when it ends in the bank it starts in |
| EepromWrite.UpdateIsWrite | drivers/eeprom/eeprom_driver.c:52-58 | an update leaves the memory as a write would and sends nothing when it was so already |
| EepromWrite.SpiUpdateLostIff | drivers/eeprom/eeprom_spi.c:119-138 | an update over SPI is lost exactly when the read fails, only zeros were to be written, and the memory holds something else |
| EepromWrite.WholePageLands | drivers/eeprom/eeprom_i2c.c:80-82 | a whole page is written in one transaction, whichever bank it lies in |
| EepromDriver.FillTargetAddress | drivers/eeprom/eeprom_i2c.c:49-55 | fills in the address bytes and nothing behind them |
| EepromDriver.I2cEeprom.ReadBlock | drivers/eeprom/eeprom_i2c.c:89-94 | the buffer gets what the device's address counter runs over from the addressed location on, or keeps what it held when there is no such location |
| EepromDriver.I2cEeprom.WriteBlock | drivers/eeprom/eeprom_i2c.c:105-141 | the chunk loop over the packet buffer |
| EepromDriver.I2cEeprom.CopyChunk | drivers/eeprom/eeprom_i2c.c:123-125 | the copy loop with its eight-bit counter, for pages of up to 255 bytes |
| EepromDriver.I2cEeprom.UpdateBlock | drivers/eeprom/eeprom_driver.c:52-58 | read, compare, write |
| EepromDriver.I2cEeprom.Erase | drivers/eeprom/eeprom_i2c.c:73-82 | afterwards every byte is zero if the bus address carries what the address bytes leave out or they leave out nothing; otherwise the bytes beyond their range are unchanged |
| EepromDriver.SpiEeprom.WriteBlock | drivers/eeprom/eeprom_spi.c:155-225 | wherever it stops, exactly a prefix of the buffer is written, one transaction a page, and the prefix is whole or ends with a page at the chunk whose wait or start failed |
| EepromDriver.SpiEeprom.ReadBlock | drivers/eeprom/eeprom_spi.c:119-153 | the region, or zeros when the wait or the start fails |
| EepromDriver.SpiEeprom.UpdateBlock | drivers/eeprom/eeprom_driver.c:52-58 | read, compare, write over SPI: with all writes getting through the specified memory, otherwise the old one with a prefix written |
| Uf2Format.PackedWord | util/uf2conv.py:134-136 | each packed 32-bit word is read back at its place |
| Uf2Format.EncodedCarries | util/uf2conv.py:149-166 | an encoded block is 512 bytes and carries the flags, address, size, family and data that a reader looks at |
| Uf2Decode.ReadNeedsMagic | util/uf2conv.py:51-53 | a file is read only if every block has both magic words |
| Uf2Decode.ForeignBlockFails | util/uf2conv.py:51-53 | a block without them, put anywhere into a file that is read, makes the reader fail |
| Uf2Decode.ReadNext | util/uf2conv.py:60-86 | the next block of a family is accepted exactly when its gap is a whole number of words of at most 10 MB, and extends the output by the gap and the payload |
| Uf2Decode.ReadsImage | util/uf2conv.py:37-109 | a file of one family, with any other flags and any blocks marked as not for flash, is read exactly when the gaps between its parts are in order, and yields their memory image and start address |
| Uf2Decode.ImageHolds | util/uf2conv.py:75-79 | every payload is in the image at its address minus the base |
| Uf2Decode.GapsAreZero | util/uf2conv.py:75-77 | every byte of the image that no payload covers is zero |
| Uf2Families.ReadsFamilies | util/uf2conv.py:37-109 | a file of several families is read exactly when the gaps inside each run of blocks of one family are in order; the output is the images of the wanted runs with the gaps of the others as zeros between them, and nothing when several families were met and none is wanted |
| Uf2Families.ForeignGapsLeakIff | util/uf2conv.py:62-79 | one family read out of such a file is its image exactly when the data of the others have no gaps |
| Uf2Families.GapLeaks | util/uf2conv.py:75-79 | a file of three blocks out of which a page is read with 256 zeros behind it |
| Uf2Encode.SplitJoin | util/uf2conv.py:47-49 | cutting a file into 512-byte blocks gives back the blocks it was joined from |
| Uf2Encode.BinaryRoundTrip | util/uf2conv.py:121-142 | decoding an encoded binary under its family gives the binary zero-padded to a multiple of 256 and its start address, which an empty one leaves as it was |
| Uf2Encode.PagesHoldCells | util/uf2conv.py:193-199 | ascending data bytes end up in ascending pages, each at its address |
| Uf2Encode.HexRoundTrip | util/uf2conv.py:168-205 | ascending HEX data converted to UF2 and back has every byte at its address |
| Uf2Layout.BinaryFile | util/uf2conv.py:121-142 | block i of a binary's file carries number i of as many as the file has, both magic words and the final one, the family and its flag, its address and 256 bytes of the binary filled up with zeros, and no tags |
| Uf2Layout.HexFile | util/uf2conv.py:149-166 | so does block i of a HEX file for its page; a device type is announced in the flags and follows the data behind its tag exactly when it is not zero |
| Uf2Layout.CellsPlaced | util/uf2conv.py:183-199 | every data byte is placed at its offset behind the upper address set last |
| Uf2Layout.NothingBehindEnd | util/uf2conv.py:187-188 | nothing behind the end-of-file record is placed |
| Uf2Layout.UncoveredIsErased | util/uf2conv.py:144-147 | page bytes that no data covers are 0xFF |
| Uf2Layout.BinaryWrittenIff | util/uf2conv.py:134-136 | a binary is written exactly when every block's address fits 32 bits |
| Uf2Layout.HexWrittenIff | util/uf2conv.py:156-158 | HEX records are written exactly when every byte's address does and the number of pages does |
| Uf2Converter.Converter.constructor | util/uf2conv.py:20-21 | the globals' initial values |
| Uf2Converter.Converter.ConvertToUf2 | util/uf2conv.py:121-142 | the writer's loops produce the specified file, or fail when an address does not fit |
| Uf2Converter.Converter.BinaryBlockOf | util/uf2conv.py:128-141 | one block: flags, header, padded chunk, padding and final magic |
| Uf2Converter.Converter.ConvertFromUf2 | util/uf2conv.py:37-109 | the reader's loop yields the specified output and start address, or the specified failure |
| Uf2Converter.Converter.ReadBlock | util/uf2conv.py:47-108 | one block against the current address, family and output |
| Uf2Converter.Converter.ConvertFromHexToUf2 | util/uf2conv.py:168-205 | the loop over records builds the specified file and sets the start address to that of the first data record |
| Uf2Converter.Converter.PutRecord | util/uf2conv.py:193-199 | the bytes of a record go to their pages, new pages being filled with 0xFF |
| Uf2Converter.Converter.Encode | util/uf2conv.py:149-166 | one page as a block, with the extension tag when there is a device type |
| Crc8.CrcLinear | quantum/crc.c:64-72 | the checksums of two messages differ by the checksum, from zero, of their difference |
| Crc8.CollisionIff | quantum/crc.c:46-74 | whether two messages of one length collide depends on their difference only |
| Crc8.OneByteDetected | quantum/crc.c:46-74 | messages that differ in one byte only have different checksums |
| Crc8.TwoBytesUndetectedIff | quantum/crc.c:46-74 | a difference in two neighbouring bytes goes unnoticed exactly when the second is what the first becomes |
| Crc8.BurstDetected | quantum/crc.c:46-74 | a run of at most eight wrong bits across two bytes is always noticed |
| Crc8.TableIsBitwise | quantum/crc.c:27-44 | every table entry is what eight single-bit turns compute |
| Crc8.Bitwise | quantum/crc.c:59-74 | the bit loop computes the specified checksum |
| Crc8.BitwiseWide | quantum/crc.h:27-31 | a register wider than eight bits yields the same byte |
| Crc8.ByTable | quantum/crc.c:46-57 | the table loop computes the specified checksum |
| CrcRemainder.FeedDivides | quantum/crc.c:64-72 | fed with single bits the register is the remainder of a division by the polynomial, with the quotient given |
| CrcRemainder.CrcIsTheRemainder | quantum/crc.c:46-74 | the checksum is the one remainder of the message times x^8, with the start value added in front, on division by the polynomial |
| CrcRemainder.ChecksumsAre | quantum/crc.c:46-74 | so the bit loop divides by x^8+x^5+x^4+1 and the table by x^8+x^2+x+1, both starting from 0xFF |
| MatrixBits.TwoOrMoreIff | quantum/keyboard.c:242-245 | clearing the lowest bit leaves something exactly when two columns are set |
| Matrix.RealKeysAre | quantum/keyboard.c:230-240 | exactly the pressed columns that the keymap defines |
| Matrix.GhostIff | quantum/keyboard.c:247-269 | a row is ghosted exactly when another row has two of the same keymap columns pressed |
| Matrix.GhostHasPartner | quantum/keyboard.c:247-269 | a ghosted row always has a ghosted partner |
| Matrix.RowChangesReplay | quantum/keyboard.c:620-631 | the changes of a row alternate for each key and lead from the old row to the new one |
| Matrix.RunReplays | quantum/keyboard.c:586-637 | over any run of scans each key's events strictly alternate and matrix_previous is their replay |
| Matrix.EventsFollowMatrix | quantum/keyboard.c:612-634 | after a scan the events say of every key what the matrix reads, except in ghosted rows, which report nothing |
| Matrix.ScanInOrder | quantum/keyboard.c:612-634 | a scan reports its changes in the order of rows and columns, each key at most once, and executes exactly those that are to be processed and did not wake the host |
| Matrix.AllExecuted | quantum/keyboard.c:625-627 | with key presses processed and no wake-up keys every change is executed |
| MatrixTask.Scanner.GetRealKeys | quantum/keyboard.c:230-240 | the loop over a shifted mask |
| MatrixTask.Scanner.HasGhostInRow | quantum/keyboard.c:247-269 | the loop over the other rows decides the ghost test |
| MatrixTask.Scanner.ReportRow | quantum/keyboard.c:620-631 | the column loop reports exactly the changed columns, in order |
| MatrixTask.Scanner.Task | quantum/keyboard.c:586-637 | a whole scan, and whether anything changed |
| Pipeline.ScannedInputsAlternate | quantum/keyboard.c:612-634 | the events of any run of scans, fed on with ticks in between, alternate for every key |
| Pipeline.NoStuckKeyAfterScans | quantum/action_tapping.c:150-201 | so presses and releases agree on tap or hold from matrix to output, under the arrival conditions |
| RingBuffers.RingBuffer.constructor | drivers/bluetooth/ringbuffer.hpp:6-7 | an empty queue |
| RingBuffers.RingBuffer.Enqueue | drivers/bluetooth/ringbuffer.hpp:21-32 | appends unless one slot is left |
| RingBuffers.RingBuffer.Get | drivers/bluetooth/ringbuffer.hpp:34-48 | the oldest entry, removed when committed |
| RingBuffers.RingBuffer.Peek | drivers/bluetooth/ringbuffer.hpp:66-68 | the oldest entry, the queue unchanged |
| RingBuffers.RingBuffer.Empty | drivers/bluetooth/ringbuffer.hpp:50-52 | true exactly for the empty queue |
| RingBuffers.RingBuffer.Size | drivers/bluetooth/ringbuffer.hpp:54-60 | the number of entries |
| Sdep.FragmentsFrame | drivers/bluetooth/bluefruit_le.cpp:382-394 | all packets but the last are full and announce more, the last announces the end, and together they are the text |
| Sdep.RestoredIff | drivers/bluetooth/bluefruit_le.cpp:307-334 | reassembly restores a fragmented text exactly when it is no longer than the buffer size modulo 256 |
| Sdep.CutOff | drivers/bluetooth/bluefruit_le.cpp:324-337 | in a buffer of at most 255 bytes longer texts are cut off, and the final zero stays inside exactly for shorter ones |
| Sdep.SdepRoundTrip | drivers/bluetooth/bluefruit_le.cpp:307-394 | sending and receiving are inverse for exactly those texts |
| Sdep.HearFragments | drivers/bluetooth/bluefruit_le.cpp:382-394 | the first packets of a text add its beginning to what the module holds, and all of them complete a command, behind whatever was left over |
| Sdep.SendCommand | drivers/bluetooth/bluefruit_le.cpp:382-394 | the fragmenting loop sends the packets in order up to the first failure |
| AtCommands.TextFits | drivers/bluetooth/bluefruit_le.cpp:558-591 | every command fits its buffer; a key report takes three packets and a consumer report two |
| AtDecode.MotionSaid | drivers/bluetooth/bluefruit_le.cpp:571-577 | the motion command, read back, says the two motions, the scroll and the pan, in that order and with their signs |
| AtDecode.ButtonsSaid | drivers/bluetooth/bluefruit_le.cpp:578-591 | the button command names each of the first three buttons exactly when it is pressed, and says 0 exactly when none of the eight is |
| AtDecode.KeysSaid | drivers/bluetooth/bluefruit_le.cpp:558-562 | the key command, read back, says the modifiers and the six keys |
| AtDecode.UsageSaid | drivers/bluetooth/bluefruit_le.cpp:564-569 | the consumer command, read back, says the usage |
| Sdep.ReadResponse | drivers/bluetooth/bluefruit_le.cpp:307-337 | the receiving loop stores the reassembled text, ends it with a zero and changes nothing behind that; it fails on a missing or foreign packet |
| ReportQueue.RunConserves | drivers/bluetooth/bluefruit_le.cpp:249-269 | under any failures the reports accepted are those whose last command got through followed by those waiting, in order, each once |
| ReportQueue.RunHeardIff | drivers/bluetooth/bluefruit_le.cpp:249-269 | in every run the module hears exactly the commands reported as sent, with nothing left over, exactly when no try failed in the middle, and hears just those commands exactly when none was sent after such a try |
| ReportQueue.KeyReportCorrupted | drivers/bluetooth/bluefruit_le.cpp:382-394 | a key report of which one packet got through is sent again from the start and heard as its first sixteen characters followed by the whole |
| ReportDelivery.EachCommandOnceIff | drivers/bluetooth/bluefruit_le.cpp:249-269 | in every run the commands that got through are those of the completed reports, each once and in order, exactly when no attempt on a mouse report failed between its two commands |
| ReportDelivery.MotionCount | drivers/bluetooth/bluefruit_le.cpp:571-591 | a motion gets through as often as its report is completed, plus once for every such attempt |
| ReportDelivery.HeardExactlyOnce | drivers/bluetooth/bluefruit_le.cpp:249-269 | with neither kind of failure the module hears the commands of every accepted report that no longer waits, each once |
| ReportDelivery.MotionIsRepeated | drivers/bluetooth/bluefruit_le.cpp:571-591 | a run in which a mouse report's second command fails and its motion gets through twice |
| ReportDelivery.FullAndPendingBlocks | drivers/bluetooth/bluefruit_le.cpp:610-612 | with the ring full and an answer pending the loop of a new report changes nothing, however long it turns |
| ReportDelivery.LoopNeverEnds | drivers/bluetooth/bluefruit_le.cpp:598-613 | one report that is sent and 39 more lead there, and the next report is never accepted |
| ReportDelivery.AcceptedIff | drivers/bluetooth/bluefruit_le.cpp:610-612 | a report is accepted exactly when there is room, or no answer is pending and the oldest report gets through before an attempt leaves one pending |
| ReportProgress.TaskSendsIff | drivers/bluetooth/bluefruit_le.cpp:249-269 | a call of the task sends the oldest report exactly when one waits and no answer is pending or the pending one is read |
| ReportProgress.QueryTakesAnswer | drivers/bluetooth/bluefruit_le.cpp:374-380 | a command of the driver's own takes the pending answer away, so that the next call of the task sends |
| ReportProgress.RoomIff | drivers/bluetooth/ringbuffer.hpp:21-32 | a report finds room at once exactly when fewer than 39 wait |
| ReportProgress.TasksDeliver | drivers/bluetooth/bluefruit_le.cpp:249-269 | after any run as many successful calls of the task as reports wait send all of them, in order |
| ReportSender.Sender.ReadOne | drivers/bluetooth/bluefruit_le.cpp:219-247 | takes the pending answer away or changes nothing |
| ReportSender.Sender.NoteSent | drivers/bluetooth/bluefruit_le.cpp:396-406 | waits for room and notes that an answer is pending |
| ReportSender.Sender.SendCommand | drivers/bluetooth/bluefruit_le.cpp:366-406 | the packets of one command up to the first that fails, and an answer noted as pending when all got through |
| ReportSender.Sender.ProcessItem | drivers/bluetooth/bluefruit_le.cpp:545-596 | the packets of one report's commands up to the first that fails |
| ReportSender.Sender.SendOne | drivers/bluetooth/bluefruit_le.cpp:249-269 | one attempt on the oldest report, which leaves the ring only when all its commands got through |
| ReportSender.Sender.SendReport | drivers/bluetooth/bluefruit_le.cpp:598-639 | the loop that queues a new report |
| ReportSender.Sender.Task | drivers/bluetooth/bluefruit_le.cpp:499-500 | the periodic task's share of the queue |
| ReportSender.Sender.WaitForAnswers | drivers/bluetooth/bluefruit_le.cpp:271-280 | waits until no answer is pending |
| ReportSender.Sender.Query | drivers/bluetooth/bluefruit_le.cpp:374-394 | a command whose answer is awaited: waits until none is pending and sends its packets |
| MouseInertia.InertiaStep | quantum/mousekey.c:287-303 | a frame keeps the velocity within the limit, shrinks it strictly when the direction is neutral, and otherwise moves it towards the limit |
| MouseInertia.HeldGrows | quantum/mousekey.c:296-300 | from rest a direction held for n frames gives velocity n, up to the limit |
| MouseInertia.UnitFollowsVelocity | quantum/mousekey.c:131-156 | the reported unit has the sign of the velocity, is zero only at rest, stays within range, and is to the left or up at most one faster |
| MouseInertia.RunIsBounded | quantum/mousekey.c:287-338 | over every run of presses, releases and frames both velocities stay within the limit and frame 0 means the rest state |
| MouseInertia.MotionFollowsVelocity | quantum/mousekey.c:318-330 | in every run the reported motion is within range and follows the velocities once the animation repeats |
| MouseInertia.CoastingStep | quantum/mousekey.c:318-338 | with both directions neutral a frame strictly shrinks each velocity and keeps its sign |
| MouseInertia.ComesToRest | quantum/mousekey.c:318-338 | then the animation is back in the rest state within mk_time_to_max frames, whatever run came before |
| MouseMotion.DirectionIff | quantum/mousekey.c:410-461 | in every run an axis has the direction of a key exactly when that key was pressed and has since been neither released nor followed by a press on its axis |
| MouseMotion.HeldKeyLosesCharge | quantum/mousekey.c:453-461 | a run in which a key still held loses its direction, and one in which it was pressed last and keeps it |
| MouseMotion.PressTurns | quantum/mousekey.c:410-417 | a press turns its axis, right and down counting up, sets its share of the report to one first step before the movement repeats, and leaves the other axis and both velocities |
| MouseMotion.HeldKeyMoves | quantum/mousekey.c:287-338 | whatever came before, a key held for more frames than full speed takes gives its axis velocity and motion of its sign; from rest one frame does |
| MouseMotion.RestReportsNothing | quantum/mousekey.c:318-330 | after a frame an axis at rest has nothing left to report |
| MouseMotion.FullSpeed | quantum/mousekey.c:131-156 | at full velocity the motion is the set speed and one more, within range |
| MouseMotion.CoastsBy | quantum/mousekey.c:290-294 | a coasting axis keeps the share of its velocity that friction leaves, rounded toward zero |
| MouseKeys.Device.Unit | quantum/mousekey.c:115-156 | the unit, and the frame marked as started |
| MouseKeys.Device.Inertia | quantum/mousekey.c:287-303 | the new velocity is within the limit, strictly smaller and of the same sign when the direction is neutral, and otherwise further in that direction or at its limit |
| MouseKeys.Device.On | quantum/mousekey.c:410-416 | a cursor key pressed |
| MouseKeys.Device.Off | quantum/mousekey.c:453-461 | a cursor key released |
| MouseKeys.Device.Task | quantum/mousekey.c:307-338 | one call of the task: the animation, the reported motion and the reset |

## Left out

- Tap-hold options: CHORDAL_HOLD, FLOW_TAP_TERM, RETRO_SHIFT, combos, swap hands and one-shot keys are off, SPECULATIVE_HOLD is modelled on its own, and only key events and ticks are fed in; encoder, combo and other event kinds are not.
- `process_record` is an output log; what it does to modifiers, layers and reports is not modelled, except that the keymap and settings may change arbitrarily before the next call.
- `TappingEngine.Engine.ProcessTapping` takes the offered record by value and returns it changed, where the source passes a pointer into the ring; the caller writes it back.
- TappingAgreement.TapHoldAgreement: needs arrivals that find the queue empty or a key unsettled, queued releases whose ages tell which comes first, and an unsettled key's release within its term that finds no event of its key queued; without either of the last two it is false (see above).
- TappingOrder.KeyOrder: per key only, because the code hands on releases ahead of other keys' presses and says so.
- TappingInvariant.OverflowResets: says only that an overflow leaves the initial state; the call of `clear_keyboard` is not modelled.
- SpeculativeHold: the callback, the flow term and the look at the queue are one arbitrary condition of each press; keyboard reports and delays are not modelled.
- Deferred executor: one table is followed, and allocations in other tables show as arbitrary moves of the shared counter; a callback is its sequence of calls and the value it returns. The wrapper with the default table is not modelled.
- DeferredTokens.SelfCancelDetected: gives a sufficient condition only for callbacks that mix other calls with the cancel; for a cancel followed by requests DeferredRequeue.RequeueMissedIff is exact.
- DeferredTiming.PassRunsOldEntries: needs deadlines set during a pass to lie less than half a wrap ahead.
- DeferredTask.TaskPassesIffLater: needs a call of the task within half a wrap of the last pass, as 32-bit differences tell no more.
- DeferredClock.NeverEarly: needs true triggers within half a wrap of every pass that looks at them, as 32-bit differences tell no more.
- Layer operations are modelled as storing a new layer state, which is what each of them does. STRICT_LAYER_RELEASE is not modelled.
- LayerEngine.Engine.UpdateSource: covers keys of the matrix; encoder entries have a cache of their own that works alike.
- LayerEngine.Engine.ReadSource: the same.
- EEPROM drivers: bus calls always succeed on I2C, and on SPI each wait or start may fail; write times, write-protect pins, and status registers are not modelled. Pages hold at most 255 bytes on I2C because the copy loop counts in eight bits. The word and double-word wrappers repeat the block operations.
- UF2: HEX text is taken as parsed records, and drive discovery, arguments, family names and the C array writer are not modelled. The printed header information is dropped, so the families met are a set without addresses.
- Uf2Families.ReadsFamilies: covers files in which every block for flash names its family; blocks that name none occur in files of one family only (Uf2Decode.ReadsImage).
- Uf2Converter.Converter.ConvertFromUf2: says nothing about the start address after a failure, as the script ends there.
- CRC8: the two routines use different polynomials, so no agreement between them is stated.
- Matrix: `matrix_scan`, debouncing, ticks, debug printing and `switch_events` are inputs or not modelled; rows have up to 32 columns.
- SDEP: the bits on the wire, the waits and the look at the final line of a response are not modelled; a packet's length is that of its payload, at most 127 bytes.
- Report queue: connection polling and timeouts are not modelled; whether and when an answer is read is an arbitrary outcome of each attempt. The module is taken to put packets together as the driver does.
- ReportDelivery.AcceptedIff: a call that still waits when its outcomes are used up counts as not accepted.
- Mouse keys: wheel, buttons, acceleration keys and the other acceleration modes are not modelled; whether a report is sent is not either. Friction is 1 to 255 and the time to full speed 1 to 127, as their eight-bit use needs.
- The VIA and raw HID handlers, haptic, joystick, digitizer, LED and battery code, the encoder queue and `ring_buffer.h` would only repeat what is here or are plumbing over drivers.
