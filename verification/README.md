# Verification of the RTL8723A driver's algorithms

A Dafny 4.11 model of the parts of this Wi-Fi driver that carry real algorithms, with proofs of what
they keep over whole runs or over every input. `dafny verify dfyconfig.toml` checks everything.

## What is modelled

Each part comes as a specification on values, with its laws, and as the code: classes, arrays and
loops in the shape of the C functions, proved to do what the specification says.

- **Receive reordering** (`block_ack.dfy`, `reorder_session.dfy`, `reorder.dfy`). The linked list and
  the twelve-bit window of the driver refine the buffer of section 9.21.7.6 of IEEE Std 802.11-2012:
  a map of held frames under unwrapped sequence numbers. Arrivals, the reordering timer, its handler
  and the late cancellation are interleaved steps of one session.
- **Aggregates, fragments and the frame pool** (`amsdu.dfy`, `defrag_spec.dfy`, `recv_frames.dfy`).
  Taking an A-MSDU apart, putting fragments together, and the queues receive frames travel through.
- **Command thread and power handshake** (`power.dfy`, `cmd_thread.dfy`). Enqueuers, the consuming
  thread, other tasks, the CPWM interrupt and the RPWM timer with its work item, interleaved at the
  grain of their locks, with CONFIG_LPS_LCLK and CONFIG_LPS_RPWM_TIMER on.
- **Register tables** (`phy_table.dfy`, `phy_condition.dfy`, `phy_registers.dfy`). The loop that interprets flat if /
  else-if / else / end tables, against structured semantics, and what of it the hardware sees.
- **eFuse map write** (`efuse.dfy`). Cutting a byte range into word-enabled section packets.
- **Information elements** (`bytes.dfy`, `tlv.dfy`, `ie_parse.dfy`, `p2p_attr.dfy`). Printing,
  searching, parsing and removing elements in place, and removing P2P attributes one level deeper.
- **NAT2.5 bridge database** (`nat25_spec.dfy`, `scdb_spec.dfy`, `nat25.dfy`). A heap of hash chains
  with back links, refining a map with use counts, and the remembered sender that shortcuts it.
- **DHCP checksum** (`dhcp_checksum.dfy`). The incremental update after setting the broadcast flag.
- **Scan table** (`lists.dfy`, `scan_spec.dfy`, `scan_table.dfy`). A fixed pool split between a free
  and a scanned list, with eviction of the oldest.
- **Access point accounting** (`ap_spec.dfy`, `ap_caps.dfy`). Per-station restriction bits, counters,
  the ERP element and the HT operation mode.

## What the proofs found

Where the code does not do what one would expect of it, it is modelled as it is, and the exact
condition is proved.

- rtw_register_cmd_alive succeeds with the firmware still asleep if the driver has already left power
  save on its side (`RegisterTooEarly`).
- A task that unregisters in power save while its acknowledgement is still to come leaves the request
  standing, and the firmware wakes up for nobody (`UnregisterSleepsExactly`, `AwakeForNobody`).
- With the hardware gone, a request for S2 declares the firmware awake and nobody wakes the command
  thread: exactly its own request and the re-send after an RPWM timeout strand it (`StrandsExactly`,
  `HardwareLossStrands`, `ResendWithoutHardware`; the runs are `AskingExample` and `LossExample`).
- A conditional without an else arm makes the table interpreter take its end line for a branch
  (`MissingElseLosesWrite`). The tables on which it still writes the right lines are exactly those of
  `Survives` (`InterpretsExactly`). There the register writes are right too
  (`SurvivesWritesRight`), and only there if the lines can be told apart by what they write
  (`WritesRightExactly`; without that, `RightByAccident`).
- amsdu_to_msdu loses a last subframe that is a bare header, and everything past 64 subframes
  (`RecoversExactly`, `BareHeaderLost`).
- The checksum update adds the whole flags word instead of the bit that changed, so it is right only
  for requests without other flags (`AcceptedExactly`, `OtherFlagRejected`); a request without a
  checksum gets one (`WithoutChecksum`).
- The scan table stamps entries with a 32-bit clock but compares them in the machine's word: on a
  64-bit machine the victim of an eviction is the stalest only while no two stamps straddle a wrap of
  the clock (`StalestUnlessWrapped`, `WrapEvictsYounger`), and a wrap makes an entry just heard count as
  expired (`ExpiredIsOld`, `WrapExpires`). Evictions, unlike frees, do not spare pinned
  entries (`UpdateEffect`, `PinnedEvicted`).
- The Barker preamble bit of the ERP element is refreshed only together with the non-ERP bit
  (`BarkerExactly`, `BarkerIsOfLastTurn`, `BarkerMissing`). The greenfield and 20 MHz restrictions of
  a station outlive a new association without them (`BitsTellHistory`), so that the HT operation mode
  can be wrong for the stations as they are (`ModeRightExactly`, `ModeLingers`). With `ht_option` set
  the mode never changes (`ModeFrozen`).
- A receive frame that is freed or queued again while it is in the free queue leaves
  free_recvframe_cnt one too high, and nothing else does (`FreeRecvframe`, `EnqueueRecvframe`,
  `FreedTwice`).
- The bridge's sender check compares MAC addresses only: a packet from a second IP address of the
  remembered sender refreshes the entry of the first (`RefreshesOwnExactly`, `SecondAddressStays`).
  The receive path's shortcut follows a station that takes over an IP address, the database does not
  (`NamesAgreeExactly`, `TakenOver`), and the shortcut can outlive the entry (`ShortcutAgrees`,
  `ShortcutOutlives`); with one station to an IP address neither misleads (`OwnerIsAnswered`).
- rtw_ies_remove_ie runs over the end if and only if the broken remainder of a buffer matches
  (`RemoveIe`); the search for a P2P attribute never ends if and only if it comes to another one whose
  length field is 0xFFFD (`SearchEndsExactly`).

One result is about what cannot happen with a single receive tasklet: if a second arrival came
between the unlocking and the timer cancellation of a first one, frames could be held with no timer
running (`OverlapStrands`, `OverlapExample`).

## Model

| member | source | states |
|---|---|---|
| BlockAck.AscendingLists | core/rtw_recv.c:2525-2629 | the frames released by one window move are exactly the held ones of the range, each once, in increasing order |
| BlockAck.NearestIsSender | include/rtw_recv.h:181-182 | the unwrapped number chosen for a twelve-bit number is the sender's own if and only if the sender is within half the sequence space of the window |
| BlockAck.AdvanceEffect | core/rtw_recv.c:2525-2629 | a window move releases in order, conserves every frame, and leaves a start no held frame is below |
| BlockAck.ReceiveEffect | core/rtw_recv.c:2397-2464 | an arrival never moves the window back, keeps held frames strictly inside the window, and a refused frame changes nothing |
| BlockAck.GiveUpEffect | core/rtw_recv.c:2788-2809 | a timeout on a non-empty queue releases at least one frame and moves the start; on an empty one it changes nothing |
| BlockAck.AdvanceExactly | core/rtw_recv.c:2525-2629 | a window move to a number releases exactly the frames below it and those from it on without a gap, and starts at the first number from it on that is not held |
| BlockAck.ReceiveExactly | core/rtw_recv.c:2397-2464 | an arrival is taken exactly if its number is not below the start and not held; the window then moves only as far as it must to reach it, and on over numbers held without a gap |
| BlockAck.GiveUpExactly | core/rtw_recv.c:2788-2809 | one timeout releases exactly the first held frame and those that follow it without a gap; the new start is the first number above them that is not held |
| BlockAck.HeldBound | core/rtw_recv.c:2397-2464 | a window of n numbers holds at most n - 1 frames |
| ReorderSession.StepKeeps | core/rtw_recv.c:2632-2809 | every step of arrivals, cancellation, timer and handler keeps the invariant, and takes nothing released back |
| ReorderSession.EveryRun | core/rtw_recv.c:2397-2809 | over every run frames are released in strictly increasing unwrapped order, each accepted frame is released once or still held, at most wsize - 1 are held, and frames held imply a timer or handler on the way |
| ReorderSession.HeldForGap | core/rtw_recv.c:2397-2809 | over every run an accepted frame is kept back only for a gap: the window's start is below it, and nothing was accepted under that number |
| ReorderSession.TimerAfterArrival | core/rtw_recv.c:2765-2775 | after an accepted arrival and its cancellation the timer runs exactly if frames are held |
| ReorderSession.TimerAfterHandler | core/rtw_recv.c:2788-2809 | the handler sets the timer again exactly if frames are still held or there were none |
| ReorderSession.ExpiryExactly | core/rtw_recv.c:2788-2809 | an expiry makes the handler wait exactly if the timer was running and none waits yet |
| ReorderSession.WindowOnlyAdvances | core/rtw_recv.c:2397-2464 | over every run the unwrapped window start never moves back and releases are never withdrawn |
| ReorderSession.SenderOrder | core/rtw_recv.c:2397-2629 | if no frame strays half the sequence space from the window, frames come up in the sender's own order, across any number of wraps |
| ReorderSession.OverlapStrands | core/rtw_recv.c:2765-2775 | if a second arrival could come between an unlocking and the cancellation it owes, frames would be held without a timer exactly if no handler waits, the window has more than one number, and the arriving number lies above the start |
| ReorderSession.OverlapExample | core/rtw_recv.c:2765-2775 | a run of such overlapping arrivals that strands a frame |
| Reorder.SnLessCompares | include/rtw_recv.h:181-182 | on numbers at most half the space apart, comparing transmitted numbers compares unwrapped ones |
| Reorder.ShiftArithmetic | core/rtw_recv.c:2444-2453 | the two cases of the window shift are one subtraction modulo 4096 |
| Reorder.InsertIntoHeld | core/rtw_recv.c:2467-2522 | inserting into the list adds exactly that number to the held map |
| Reorder.AscendingIsPrefix | core/rtw_recv.c:2525-2629 | the frames below a number are the first part of the sorted list |
| Reorder.ReleasedIsAdvance | core/rtw_recv.c:2525-2629 | taking frames off the list's front up to a gap is one move of the reference window |
| Reorder.ReorderCtrl.CheckIndicateSeq | core/rtw_recv.c:2397-2464 | accepts a frame exactly if its unwrapped number is not below the start, and moves the twelve-bit start as the unwrapped one |
| Reorder.ReorderCtrl.EnqueueReorder | core/rtw_recv.c:2467-2522 | inserts in order and adds the frame to the held map, or refuses exactly a number already held |
| Reorder.ReorderCtrl.IndicateInOrder | core/rtw_recv.c:2525-2629 | releases what the reference buffer's window move releases, forced or not |
| Reorder.ReorderCtrl.IndicateReorder | core/rtw_recv.c:2722-2786 | one arrival does to list, window, releases and timer what the reference buffer says |
| Reorder.ReorderCtrl.TimeoutHandler | core/rtw_recv.c:2788-2809 | one timeout does what giving up on the gap does in the reference buffer |
| Reorder.Replay | core/rtw_recv.c:2397-2809 | driven through any events, the control block ends where the session of the reference buffer ends |
| Amsdu.SplitLayout | core/rtw_recv.c:2246-2321 | of any laid out A-MSDU the payloads are handed up unchanged and in order, up to 64, the buffers to be had, and a last bare header |
| Amsdu.RecoversExactly | core/rtw_recv.c:2246-2321 | every subframe comes out exactly when there are at most 64, a buffer for each, and the last is not a bare header |
| Amsdu.BareHeaderLost | core/rtw_recv.c:2251-2252 | an aggregate of two subframes of which one comes out |
| Amsdu.SplitSound | core/rtw_recv.c:2246-2321 | of arbitrary bytes, whatever is handed up are the payloads of subframes the bytes begin with |
| Amsdu.DropsIf | core/rtw_recv.c:2251-2321 | bytes that run into a truncated subframe within the loop's limits are dropped altogether |
| Amsdu.DropsOnlyIf | core/rtw_recv.c:2251-2321 | and no others are |
| Amsdu.AmsduToMsdu | core/rtw_recv.c:2223-2321 | the index loop terminates in bounds and computes the split of what is left behind MAC header and IV |
| Amsdu.SplitFrom | core/rtw_recv.c:2251-2321 | the loop itself, from any start |
| DefragSpec.MergedIsWhole | core/rtw_recv.c:2048-2083 | merging fragments gives the first header, all bodies in order and the last ICV; the other ICVs are gone |
| DefragSpec.Reassembles | core/rtw_recv.c:2096-2202 | whatever a queue held before, the fragments of a frame arriving in order give that frame and leave the queue empty |
| DefragSpec.PassesBy | core/rtw_recv.c:2134-2137 | an unfragmented frame goes up as it came and leaves the queue alone |
| DefragSpec.OnlyFragmentsCount | core/rtw_recv.c:2134-2163 | a queue is what the fragments alone make of it |
| DefragSpec.ReassemblesAmong | core/rtw_recv.c:2096-2202 | the fragments of a frame give it with any unfragmented frames in between |
| DefragSpec.MergesLatest | core/rtw_recv.c:2096-2202 | after any history, a merged frame is made of the latest fragments, consecutive, numbered from 0 and closed by one without more |
| DefragSpec.HoldsLatest | core/rtw_recv.c:2139-2163 | a queue always holds the latest fragments of its history |
| DefragSpec.HoldsExactly | core/rtw_recv.c:2139-2191 | a queue holds exactly the fragments since the last one that began or ended a frame |
| DefragSpec.OneReachesBack | core/rtw_recv.c:2139-2191 | which determines what it holds |
| RecvFrames.SoundUnlinked | core/rtw_recv.c:155-188 | unlinking a frame leaves every frame in exactly the list it is linked into and the counter right |
| RecvFrames.SoundLinked | core/rtw_recv.c:209-277 | linking a frame in hand does |
| RecvFrames.MovedStep | core/rtw_recv.c:307-327 | moving a queue's frames one by one to the free queue is moving a prefix of it |
| RecvFrames.EmptiedIs | core/rtw_recv.c:307-327 | where the frames of an emptied queue then are: in order at the tail of the free queue |
| RecvFrames.RecvPriv.constructor | core/rtw_recv.c:58-110 | all 256 frames start in the free queue |
| RecvFrames.RecvPriv.AllocRecvframe | core/rtw_recv.c:155-188 | takes the head of a queue, counting if it is the free one, or fails exactly on an empty queue |
| RecvFrames.RecvPriv.EnqueueRecvframe | core/rtw_recv.c:256-277 | takes a frame out of wherever it is and puts it at a queue's tail, no other moving; free_recvframe_cnt is then the length of the free queue, or one more if the frame came from there, and all else is in order exactly if it did not |
| RecvFrames.RecvPriv.FreeRecvframe | core/rtw_recv.c:209-254 | moves a frame to the tail of the free queue; free_recvframe_cnt is then its length, or one more if the frame was free already |
| RecvFrames.FreedTwice | core/rtw_recv.c:209-254 | a frame of a fresh pool freed once more makes the count 257 over 256 frames |
| RecvFrames.RecvPriv.FreeRecvframeQueue | core/rtw_recv.c:307-327 | a whole queue goes to the free queue in order, no other queue changes, no frame is lost |
| RecvFrames.MergeFragments | core/rtw_recv.c:2040-2083 | merges exactly if the fragments are numbered in order, and then holds the merged bytes |
| RecvFrames.RecvPriv.RecvframeDefrag | core/rtw_recv.c:2010-2093 | returns a frame exactly if the queue holds fragments 0, 1, .. in order, the first one with everything merged; the queue ends empty and all other frames are free |
| RecvFrames.RecvPriv.RecvframeChkDefrag | core/rtw_recv.c:2096-2218 | an unfragmented frame is handed on as it is, whoever sent it; otherwise does to the sender's queue what the value model says, hands on at most one frame, and leaves every other frame in one queue |
| RecvFrames.RecvPriv.QueueFragment | core/rtw_recv.c:2139-2163 | a first fragment flushes the queue, the others are appended; nothing is handed on |
| RecvFrames.RecvPriv.FinishFragments | core/rtw_recv.c:2176-2191 | the last fragment yields the merged frame or nothing, and empties the queue |
| PowerSpec.SetRpwmKeeps | core/rtw_pwrctrl.c:346-433 | a request keeps the handshake sound, alternates the toggle bit, and arms the timer whenever it starts to wait |
| PowerSpec.RegisterEffect | core/rtw_pwrctrl.c:1013-1114 | a refused registration leaves an acknowledgement owed; a granted one means an awake firmware exactly if power save was in force or it was awake already |
| PowerSpec.RegisterExactly | core/rtw_pwrctrl.c:1013-1114 | what is asked of the firmware, and when: S2, or S3 with the radio pinned on, exactly in power save with the firmware below that and told to sleep; refused exactly in power save with the firmware asleep |
| PowerSpec.RegisterTooEarly | core/rtw_pwrctrl.c:1071-1114 | a registration granted with the firmware asleep |
| PowerSpec.UnregisterEffect | core/rtw_pwrctrl.c:1185-1252 | unregistering lowers the level only when no task is left, and wakes nobody |
| PowerSpec.UnregisterExactly | core/rtw_pwrctrl.c:1185-1252 | S0 is asked for exactly if the last task goes in power save, the firmware counts as above S0 and was last asked for another level |
| PowerSpec.UnregisterSleepsExactly | core/rtw_pwrctrl.c:1185-1252 | the last task to go in power save leaves the firmware told to sleep if and only if it was so before or the firmware counted as above S0 |
| PowerSpec.CpwmEffect | core/rtw_pwrctrl.c:866-906 | a report of S2 or above ends the wait, sets the level reported, changes nothing else, and raises the semaphore exactly if one was expected and the command thread is registered; one that was not expected is ignored |
| PowerSpec.SetPsModeEffect | core/rtw_pwrctrl.c:511-611 | changing the mode keeps the handshake sound and never makes a registered task's firmware sleep |
| PowerSpec.SetPsModeExactly | core/rtw_pwrctrl.c:511-611 | entering power save asks for S0 exactly if nobody is registered, leaving it for S4 exactly if the firmware was told to sleep |
| PowerSpec.ResendEffect | core/rtw_pwrctrl.c:953-966 | a re-send asks for S2 or above again with acknowledgement and re-arms the timer |
| PowerSpec.ResendExactly | core/rtw_pwrctrl.c:953-966 | a re-send is written exactly while an acknowledgement is awaited |
| PowerSpec.StoppedAsksNothingLow | core/rtw_pwrctrl.c:381-400 | a stopped driver asks for no level below S2, and for others as ever |
| PowerSpec.ResendWithoutHardware | core/rtw_pwrctrl.c:381-391 | a re-send makes the firmware count as awake exactly if the hardware is gone |
| CmdProtocol.StepKeeps | core/rtw_cmd.c:293-510 | every interleaved step keeps the protocol's invariant |
| CmdProtocol.NoLostWakeUp | core/rtw_cmd.c:293-510 | whenever the thread is blocked on an empty semaphore with work queued and no enqueuer about to raise it, CMD_ALIVE is set, S2 was asked for, and an acknowledgement is owed that a timer chases |
| CmdProtocol.HandledInOrder | core/rtw_cmd.c:185-225 | commands handled followed by commands queued are the commands accepted, in order |
| CmdProtocol.RpwmDiscipline | core/rtw_pwrctrl.c:346-433 | over every run a level below S2 is asked for only while no task is registered, re-sends included, and toggle bits alternate |
| CmdProtocol.AwakeWhileDraining | core/rtw_cmd.c:408-500 | a thread that began a drain with the firmware awake has it awake throughout |
| CmdProtocol.GrantedExactly | core/rtw_cmd.c:396-416 | the thread gets to its queue exactly if power save is not in force or the firmware is awake |
| CmdProtocol.TasksExactly | core/rtw_pwrctrl.c:1057-1295 | what other tasks register and unregister, and that reception, events and the radio ask for nothing |
| CmdProtocol.TimerExactly | core/rtw_pwrctrl.c:921-1010 | an expiry starts the work item, and the work item goes on, exactly while an acknowledgement is awaited |
| CmdProtocol.TokensBounded | core/rtw_cmd.c:293-510 | over every run the semaphore holds no more tokens than commands were queued and reports came |
| CmdProtocol.SleepsAgain | core/rtw_cmd.c:408-510 | with no other task in power save, a thread that drains its queue leaves the firmware at S0, with one write |
| CmdProtocol.AwakeForNobody | core/rtw_pwrctrl.c:1185-1207 | a task that leaves before its acknowledgement comes: the firmware is awake with no task registered |
| CmdProtocol.OnlyCpwmWakes | core/rtw_pwrctrl.c:866-966 | cpwm rises to S2 only through the CPWM handler, called by interrupt or by the work item's own read |
| CmdProtocol.DrainsQueue | core/rtw_cmd.c:416-500 | once draining, the thread alone handles every queued command and then unregisters |
| CmdProtocol.AckDrains | core/rtw_cmd.c:373-510 | from any wait, one acknowledgement lets the thread alone finish everything queued |
| CmdProtocol.AckServes | core/rtw_cmd.c:373-510 | from any wait, once the acknowledgement has come every command queued by then is handled in whatever run follows, as soon as the thread has had two steps more than there are commands |
| CmdProtocol.HardwareLossStrands | core/rtw_pwrctrl.c:921-966 | a re-send leaves a waiting thread with nobody to wake it exactly if the hardware is gone |
| CmdProtocol.StrandsExactly | core/rtw_pwrctrl.c:381-391 | with the hardware gone, a step leaves the thread waiting with commands queued and nobody to wake it if and only if it is the re-send it waits for, or its own request for S2, with no token and no enqueuer on the way; every other step keeps the protocol's invariant |
| CmdProtocol.RefusalRuns | core/rtw_cmd.c:373-510 | a run to a refused thread that waits for an acknowledgement |
| CmdProtocol.LossExample | core/rtw_pwrctrl.c:921-966 | a run to the re-send of a waiting thread; with the hardware gone at that point the thread stays blocked with a command queued |
| CmdProtocol.AskingExample | core/rtw_pwrctrl.c:1013-1114 | a run to a thread about to ask for S2, which the loss of the hardware strands |
| CmdThread.Replay | core/rtw_cmd.c:293-510 | the code's regions, the lock-protected power functions among them, driven through any events: queue, semaphore, thread and power state end where the protocol does |
| PhyTable.ShippedCondition | hal/HalHWImg8723A_RF.c:24-52 | what the condition word of the shipped tables selects |
| PhyCondition.ConditionHolds | hal/HalHWImg8723A_RF.c:24-52 | what any condition word says of board, interface and platform |
| PhyTable.InterpretsExactly | hal/HalHWImg8723A_RF.c:219-286 | for every table the loop writes exactly the table lines the structure means, without reading past the end, if and only if every conditional without an arm to take is one it survives |
| PhyRegisters.SurvivesWritesRight | hal/HalHWImg8723A_RF.c:219-286 | where it survives them, the hardware gets exactly the register writes the structure means, whole words or bytes |
| PhyRegisters.WritesRightExactly | hal/HalHWImg8723A_RF.c:219-286 | where no two lines ask for the same register write and no line under a branch looks like an if line, it gets them if and only if the loop survives |
| PhyRegisters.RightByAccident | hal/HalHWImg8723A_RF.c:219-286 | without that, a table on which other lines make the same register writes |
| PhyTable.ElseMakesRight | hal/HalHWImg8723A_RF.c:219-286 | with an else arm in every conditional the loop is right on every board, interface and platform |
| PhyTable.MissingElseLosesWrite | hal/HalHWImg8723A_RF.c:255-265 | a smallest table it gets wrong |
| PhyTable.TailSelected | hal/HalHWImg8723A_RF.c:255-282 | where some arm is taken, the conditional writes that arm and the loop goes on behind its end |
| PhyTable.TailUnselected | hal/HalHWImg8723A_RF.c:255-265 | where none is, the loop arrives at the end line as at a branch |
| PhyTable.AfterNone | hal/HalHWImg8723A_RF.c:255-265 | exactly what may follow such an end line with the right lines still written |
| PhyTable.EndTaken | hal/HalHWImg8723A_RF.c:266-282 | where an end line taken for a branch holds, the lines written are never the right ones |
| PhyTable.ReadAndConfig | hal/HalHWImg8723A_RF.c:219-286 | the index loop terminates, reads past the end exactly if the model says so, and writes the lines it says |
| PhyTable.ConfigureToMarker | hal/HalHWImg8723A_RF.c:266-275 | the inner loop writes the lines up to the next marker |
| Efuse.WordEnableDataRead | core/rtw_efuse.c:553-578 | each enabled word is taken from the source, the others stay |
| Efuse.ApplyMerges | core/rtw_efuse.c:553-578 | applying a packet is that merge on its section and nothing else |
| Efuse.EnableWord | core/rtw_efuse.c:728-757 | clearing a word's bit enables that word and no other |
| Efuse.SectionDone | core/rtw_efuse.c:738-782 | a section whose enabled words are exactly the changed ones brings the map to the new contents there |
| Efuse.FillSection | core/rtw_efuse.c:739-761 | the word loop enables a word exactly if its bytes change, reading within the map |
| Efuse.SectionWritten | core/rtw_efuse.c:763-781 | one more packet extends what has been written |
| Efuse.RewriteIsSilent | core/rtw_efuse.c:738-782 | writing what is there already emits no packet |
| Efuse.MapWrite | core/rtw_efuse.c:697-791 | applying the emitted packets to the 256-byte map replaces exactly the range written, a word enabled exactly if it changes; on failure, exactly the sections before the failing packet; a range that does not fit is refused |
| Tlv.DecodePrint | core/rtw_ieee80211.c:144-165 | decoding undoes printing, for every list of elements |
| Tlv.PrintDecode | core/rtw_ieee80211.c:144-165 | printing undoes decoding, for every buffer that decodes |
| Tlv.DecodeAfter | core/rtw_ieee80211.c:144-165 | elements printed in front of other bytes decode in front of them |
| Tlv.SetIe | core/rtw_ieee80211.c:144-165 | writes one element in place, and nothing else |
| Tlv.SetIes | core/rtw_ieee80211.c:144-165 | a buffer built element by element decodes to those elements |
| Tlv.Splits | core/rtw_ieee80211.c:1069-1083 | any bytes are whole elements followed by a remainder that is none |
| Tlv.SplitsOnce | core/rtw_ieee80211.c:1069-1083 | in one way only |
| Tlv.GetIe | core/rtw_ieee80211.c:223-254 | on any bytes, finds the first of the whole elements and the remainder that starts with the identifier, or there is none |
| Tlv.GetIeEx | core/rtw_ieee80211.c:268-305 | the same with an OUI, compared whatever the element's length |
| Tlv.FoundFits | core/rtw_ieee80211.c:268-305 | what is found is a whole element, with its exact data, if and only if it ends within the bytes searched |
| Tlv.ExactHits | core/rtw_ieee80211.c:268-305 | where elements and remainder are as long as the OUI is compared, what is found is the first match, or else a remainder that matches, and nothing is found exactly if there is neither |
| Tlv.FindId | core/rtw_ieee80211.c:223-254 | on whole elements rtw_get_ie finds the first with the identifier, with its exact data, exactly if there is one |
| Tlv.BuildAndFind | core/rtw_ieee80211.c:144-254 | in a buffer built by rtw_set_ie, rtw_get_ie finds the first element with an identifier and the data it was given, or there is none |
| Tlv.WithoutFirst | core/rtw_ieee80211.c:314-348 | removing matches is cutting the first and removing from what follows |
| Tlv.CutMatch | core/rtw_ieee80211.c:326-340 | closing the gap of one match leaves the rest of the removal to do |
| Tlv.RemoveIe | core/rtw_ieee80211.c:314-348 | on any bytes, from the offset on every match goes and every other element and the remainder keep bytes and order; the length is exact; the search runs over the end if and only if the remainder matches |
| IeParse.ParseElems | core/rtw_ieee80211.c:1059-1183 | fails exactly on buffers that are no concatenation of elements; says OK exactly if all are known; each field holds the last element that belongs in it |
| IeParse.LastById | core/rtw_ieee80211.c:1086-1169 | for an identifier that is not vendor specific, the field is its last occurrence |
| IeParse.SlotNamesId | core/rtw_ieee80211.c:1086-1169 | no two identifiers share a field |
| IeParse.SlotExactly | core/rtw_ieee80211.c:960-1169 | an element belongs in a field exactly if it has the field's identifier and, if vendor specific, one of its openings |
| IeParse.DecodeFails | core/rtw_ieee80211.c:1069-1083 | whole elements in front of a broken one do not decode |
| P2pAttr.SearchEndsExactly | core/rtw_ieee80211.c:1396-1422 | on any bytes the search comes to an end if and only if it comes to no attribute of another identifier whose length field is 0xFFFD |
| P2pAttr.GetP2pAttr | core/rtw_ieee80211.c:1379-1425 | on any bytes on which it ends: an attribute is found exactly if the header is right and the search stops inside the element, and with its 16-bit size |
| P2pAttr.FindAttr | core/rtw_ieee80211.c:1379-1425 | on whole attributes, it finds the first one with the identifier, with its exact length, or there is none |
| P2pAttr.P2pAttrRemove | core/rtw_ieee80211.c:1478-1508 | every attribute with the identifier goes, the others stay in order, the length byte follows, freed bytes are cleared |
| P2pAttr.CutAttr | core/rtw_ieee80211.c:1487-1497 | one cut leaves a consistent element with that attribute gone |
| P2pAttr.WithoutCut | core/rtw_ieee80211.c:1485-1505 | cutting a match does not change what remains of the others |
| P2pAttr.GetP2pIe | core/rtw_ieee80211.c:1325-1368 | on any bytes, finds the first place with identifier and OUI that is no further than MAX_IE_SZ, or there is none |
| P2pAttr.RemoveP2pAttr | core/rtw_ieee80211.c:1510-1530 | the beacon's elements afterwards are those before, but for the first P2P element without those attributes; a remainder stays; IELength shrinks and the tail is cleared |
| Nat25Spec.ExpiredIsOld | core/rtw_br_ext.c:140-147 | on the wrapping clock an entry has expired exactly if it is that many ticks old |
| Nat25Spec.RunLive | core/rtw_br_ext.c:399-510 | over every run use counts stay positive |
| Nat25Spec.LookupExactly | core/rtw_br_ext.c:399-472 | a lookup finds every address in the database, and answers and counts a use exactly if it is fresh |
| Nat25Spec.FindsExactly | core/rtw_br_ext.c:399-717 | over every run a lookup finds an address exactly if it was learned, and no flush and no pass that expired its last use came since |
| Nat25Spec.RecordIsLastLearned | core/rtw_br_ext.c:474-510 | over every run a record carries the MAC address and the time it was last learned with |
| Nat25Spec.UsesSinceBirth | core/rtw_br_ext.c:474-510 | from its birth on an entry has one use, one more for each fresh lookup, and one less for each pass that found it expired |
| Nat25Spec.MixedMoves | core/rtw_br_ext.c:308-366 | which bytes of an address decide its bucket, and how |
| Nat25Spec.MixedOfZeros | core/rtw_br_ext.c:308-366 | and where an address of zeros goes |
| Nat25Spec.UsesBalance | core/rtw_br_ext.c:399-510 | an entry's use count is its initial one plus fresh lookups minus passes that found it expired |
| Nat25Spec.LastsAsLongAsUsed | core/rtw_br_ext.c:628-717 | an expired entry survives exactly one pass fewer than it has uses |
| Nat25Spec.PassesCompose | core/rtw_br_ext.c:635-717 | a pass may be made bucket by bucket |
| ScdbSpec.EveryRun | core/rtw_br_ext.c:599-717 | over every run a remembered sender's entry is in the database |
| ScdbSpec.SendExactly | core/rtw_xmit.c:2673-2715 | what a packet sent leaves remembered, and the one record it stamps |
| ScdbSpec.ForgetsExactly | core/rtw_br_ext.c:599-717 | what is remembered is forgotten exactly when its entry goes, and then altogether |
| ScdbSpec.RefreshesOwnExactly | core/rtw_xmit.c:2673-2711 | a packet of the remembered sender refreshes the entry of its own IP address if and only if that is the remembered one, and no other entry but the remembered one |
| ScdbSpec.OthersStay | core/rtw_xmit.c:2673-2711 | as long as only that station sends, from whatever IP addresses, every record but the remembered one stays as it is |
| ScdbSpec.SecondAddressStays | core/rtw_xmit.c:2673-2711 | two packets from two IP addresses of a station, of which the second refreshes the entry of the first |
| ScdbSpec.ShortcutAgrees | core/rtw_br_ext.c:1226-1236 | the receive path's shortcut answers as the lookup would exactly if that finds a fresh entry with the remembered MAC address |
| ScdbSpec.RecordIsLastTaught | core/rtw_br_ext.c:474-510 | over every run a record carries the MAC address last learned for it |
| ScdbSpec.NamesAgreeExactly | core/rtw_br_ext.c:1226-1236 | over every run, while an entry is remembered, shortcut and database name the same station if and only if the one last learned is the one remembered |
| ScdbSpec.OwnerIsAnswered | core/rtw_br_ext.c:1226-1236 | if every IP address is used by one station only, neither ever answers with another one |
| ScdbSpec.TakenOver | core/rtw_br_ext.c:1226-1236 | a station that takes over an IP address: the shortcut names it, the database keeps the old one however much the new one sends |
| ScdbSpec.ShortcutOutlives | core/rtw_br_ext.c:1226-1236 | a run after which the shortcut answers for an address that is no longer in the database |
| Nat25.Bridge.constructor | core/rtw_br_ext.c:308-366 | sixteen empty chains are the empty map |
| Nat25.Bridge.PushLinks | core/rtw_br_ext.c:368-382 | pushing keeps a chain acyclic and its back links exact |
| Nat25.Bridge.DropLinks | core/rtw_br_ext.c:384-397 | unlinking through the back link takes out exactly that entry |
| Nat25.Bridge.Link | core/rtw_br_ext.c:368-382 | linking keeps keys unique and each entry in the bucket of its hash |
| Nat25.Bridge.Unlink | core/rtw_br_ext.c:384-397 | so does unlinking, with one address fewer |
| Nat25.Bridge.Find | core/rtw_br_ext.c:1337-1361 | finds the entry of an address exactly if there is one |
| Nat25.Bridge.LookupAndReplace | core/rtw_br_ext.c:399-472 | finds an address exactly if it is in the database, expired or not; copies its MAC address and counts a use exactly if it is fresh |
| Nat25.Bridge.InsertEntry | core/rtw_br_ext.c:474-510 | is the map's insert, or nothing if a new entry cannot be allocated |
| Nat25.Bridge.ExpireOne | core/rtw_br_ext.c:645-712 | one entry loses a use, and goes with its last, the cached one included |
| Nat25.Bridge.ExpireBucket | core/rtw_br_ext.c:637-714 | one bucket's walk is a pass over its addresses |
| Nat25.Bridge.ExpireAll | core/rtw_br_ext.c:628-717 | the whole walk is one pass over the map, and forgets the remembered sender exactly if its entry goes |
| Nat25.Bridge.CleanUp | core/rtw_br_ext.c:599-626 | leaves the empty map; what was remembered goes with its entry |
| Nat25.Bridge.CheckSender | core/rtw_xmit.c:2671-2715 | does to database and remembered sender what the model says; the remembered entry stays that of scdb_ip; the NAT handling is skipped exactly if an entry is remembered afterwards |
| Nat25.Bridge.CacheSender | core/rtw_xmit.c:2693-2703 | for a sender not remembered: its entry is remembered and refreshed if it is known, and none is otherwise |
| Nat25.Bridge.RefreshCached | core/rtw_xmit.c:2673-2683 | the remembered entry is still in the database, and refreshing it changes its time only |
| Nat25.Bridge.FindReceiver | core/rtw_br_ext.c:1226-1236 | answers from the remembered sender or from the database, as the model says |
| Nat25.Replay | core/rtw_br_ext.c:399-717 | driven through any events, hash chains and remembered sender end where the model does |
| DhcpChecksum.FoldKeepsResidue | core/rtw_br_ext.c:1326-1327 | folding carries keeps the residue modulo 0xffff and the distinction from zero |
| DhcpChecksum.VerifiesIffMultiple | core/rtw_br_ext.c:1324-1328 | a packet verifies exactly if its words sum to a positive multiple of 0xffff |
| DhcpChecksum.MarkedVerifies | core/rtw_br_ext.c:1322-1328 | a valid request without flags still verifies after the flag is set, in either byte order |
| DhcpChecksum.AcceptedExactly | core/rtw_br_ext.c:1322-1328 | a valid request is still accepted exactly if it had no other flag, or its checksum equals the new flags |
| DhcpChecksum.OtherFlagRejected | core/rtw_br_ext.c:1322-1328 | a valid request with another flag that is not accepted any more |
| DhcpChecksum.WithoutChecksum | core/rtw_br_ext.c:1322-1328 | what becomes of a request sent without a checksum, and when it is accepted |
| DhcpChecksum.MarkedCheckIsZero | core/rtw_br_ext.c:1328 | when the new checksum word is 0 |
| DhcpChecksum.DhcpFlagBcast | core/rtw_br_ext.c:1316-1329 | the loop terminates and two words change, as the model says, exactly if the flag was clear |
| ScanSpec.SameIsEquivalence | core/rtw_mlme.c:566-588 | being the same network is an equivalence |
| ScanSpec.SameIsIdentity | core/rtw_mlme.c:566-588 | a network is its address, its name and its ESS and IBSS bits, and nothing else |
| ScanSpec.SmoothedBetween | core/rtw_mlme.c:653-694 | smoothed signal values stay between the old and the new one |
| ScanSpec.SmoothedExactly | core/rtw_mlme.c:653-694 | which signals are taken over, kept, or moved a fifth of the way toward what was heard, rounded toward zero |
| ScanSpec.TimeAfterIs | core/rtw_mlme.c:737-754 | the comparison of stamps is right up to half the clock's range |
| ScanSpec.OldestCircular | core/rtw_mlme.c:737-754 | on a 32-bit machine, within half the clock's range, the victim is a stalest entry |
| ScanSpec.OldestPlain | core/rtw_mlme.c:737-754 | on a 64-bit machine the victim has the least last_scanned |
| ScanSpec.OldestIsFirst | core/rtw_mlme.c:737-754 | of entries stamped alike the first |
| ScanSpec.StalestUnlessWrapped | core/rtw_mlme.c:737-754 | there it is a stalest entry exactly if the clock has not wrapped between two stamps |
| ScanSpec.Fills | core/rtw_mlme.c:722-829 | networks heard one after the other fill the table in that order |
| ScanSpec.WrapEvictsYounger | core/rtw_mlme.c:737-775 | a full table, reached from the empty one, where an update puts out an entry 5 ticks old and keeps the one 26 ticks old |
| ScanSpec.UpdateKeepsDistinct | core/rtw_mlme.c:722-829 | an update never lists a network twice |
| ScanSpec.RemainingIs | core/rtw_mlme.c:243-288 | a pass frees exactly the entries that are not pinned and too old |
| ScanSpec.ExpiredIsOld | core/rtw_mlme.c:265-270 | an entry has expired exactly if it was heard that many whole seconds ago: on a 32-bit machine, and on a 64-bit one while the clock has not wrapped since |
| ScanSpec.PassLeaves | core/rtw_mlme.c:243-391 | a pass leaves exactly the entries that are pinned or were heard less than the lifetime ago |
| ScanSpec.WrapExpires | core/rtw_mlme.c:265-270 | on a 64-bit machine an entry heard 26 ticks ago that counts as older than a year |
| ScanSpec.FreesExactly | core/rtw_mlme.c:243-316 | what freeing one entry and a flush leave |
| ScanSpec.StepKeeps | core/rtw_mlme.c:206-391 | every operation keeps entries and free slots adding up to the pool, the count right, and networks distinct |
| ScanSpec.EveryRun | core/rtw_mlme.c:206-829 | so does every run |
| ScanSpec.EveryRunFromFresh | core/rtw_mlme.c:206-829 | in particular every run from the table as it is set up |
| ScanSpec.UpdateEffect | core/rtw_mlme.c:722-829 | an update lists the network heard with a new stamp; of the others only the victim of a full table goes, and none comes |
| ScanSpec.UpdateExactly | core/rtw_mlme.c:722-829 | the network heard is refreshed in its own place, or listed behind the others if a slot is free, or in the place of the oldest |
| ScanSpec.FreshIs | core/rtw_mlme.c:756-815 | what is listed of a network not seen before |
| ScanSpec.PinnedEvicted | core/rtw_mlme.c:756-775 | a full table, reached from the empty one, whose pinned entry an update puts out |
| ScanTable.MlmePriv.AllocNetwork | core/rtw_mlme.c:206-241 | takes the pool's head, reset and stamped, or fails exactly on an empty pool |
| ScanTable.MlmePriv.FreeNetworkNolock | core/rtw_mlme.c:290-316 | an entry goes back to the pool, whatever its age, exactly if it is not pinned |
| ScanTable.MlmePriv.FreeNetwork | core/rtw_mlme.c:243-288 | is the model's free: pinned and young entries stay |
| ScanTable.MlmePriv.FreeNetworkQueue | core/rtw_mlme.c:363-391 | is the model's pass over all entries |
| ScanTable.MlmePriv.FreeScanQueue | core/rtw_mlme.c:1159-1187 | empties the scanned queue into the pool, in order |
| ScanTable.MlmePriv.FindScanned | core/rtw_mlme.c:733-754 | finds the first entry of the same network, and the oldest if there is none |
| ScanTable.MlmePriv.UpdateScannedNetwork | core/rtw_mlme.c:722-829 | is the model's update, on the same pool of entries |
| ScanTable.WlanNetwork.UpdateEntry | core/rtw_mlme.c:621-694 | the assignments to the entry's network, in their order, are the update of the model |
| ScanSpec.RefreshEffect | core/rtw_mlme.c:621-829 | a network heard again stays the same network, keeps its pinning and association data, is stamped now, has its signals between the known and the heard ones, and the heard elements unless a beacon carries fewer |
| ApSpec.CountsStep | core/rtw_ap.c:1906-2150 | each counter stays the number of stations with its bit set |
| ApSpec.ErpStep | core/rtw_ap.c:1571-1603 | NON_ERP_PRESENT stays set exactly if there are non-ERP stations, although the update tests for one |
| ApSpec.EveryRun | core/rtw_ap.c:1571-2150 | both over every run of joins, re-joins and leaves |
| ApSpec.FreshIsSound | core/rtw_ap.c:2425-2445 | a freshly started access point meets both |
| ApSpec.ErpKept | core/rtw_ap.c:1571-1603 | over every run the ERP element keeps the bits the driver leaves alone, and stays as it is while it is not in use |
| ApSpec.ModeIsSettled | core/rtw_ap.c:1804-1872 | while ht_option is not set every step leaves the mode the counters call for, whatever it was, and updating again changes nothing |
| ApSpec.ModeFrozen | core/rtw_ap.c:1811-1812 | with ht_option set the mode never changes |
| ApSpec.BarkerExactly | core/rtw_ap.c:1596-1599 | after a step the Barker bit is right exactly if the event takes the number of non-ERP stations between 0 and 1, or the bit was right and the number of stations without short preambles is not so taken, or was wrong and it is |
| ApSpec.BarkerIsOfLastTurn | core/rtw_ap.c:1571-2150 | over every run from a fresh access point the Barker bit tells whether there were stations without short preambles when the presence of non-ERP stations last changed |
| ApSpec.BarkerMissing | core/rtw_ap.c:1911-1927 | a station without short preambles that does not show |
| ApSpec.BitsTellHistory | core/rtw_ap.c:1906-2150 | after every run a station counts as without greenfield, or limited to 20 MHz, exactly if it said so at some association since it last left; as otherwise restricted, exactly if its last word said so |
| ApSpec.ModeTellsHistory | core/rtw_ap.c:1804-1872 | after every run the HT operation mode is the one those histories call for |
| ApSpec.ModeRightExactly | core/rtw_ap.c:1804-1872 | it is the one the stations' last words call for exactly if no lifted greenfield restriction is the last of its kind, nor, where that decides, a lifted 20 MHz restriction |
| ApSpec.ModeLingers | core/rtw_ap.c:1994-2068 | a station that re-associates without restrictions leaves the mode mixed |
| ApCaps.MlmePriv.UpdateErpInfo | core/rtw_ap.c:1571-1603 | the element's bits become those the counters give, if it is there and in use |
| ApCaps.MlmePriv.HtOperationUpdate | core/rtw_ap.c:1804-1872 | computes the model's mode and reports changes exactly if it changed |
| ApCaps.MlmePriv.BssCapUpdateOnStaJoin | core/rtw_ap.c:1906-2077 | bits, counters, element and mode change as the model says; the beacon counts as changed exactly at first and last stations |
| ApCaps.MlmePriv.BssCapUpdateOnStaLeave | core/rtw_ap.c:2079-2150 | likewise, all bits cleared |
| ApCaps.Perform | core/rtw_ap.c:1906-2150 | among many stations, a join or leave is one step of the model and no other station changes |
| ApCaps.BeaconChangesExactly | core/rtw_ap.c:1906-2150 | the beacon counts as changed exactly when it changes whether there are stations of a kind it tells of |
| ApCaps.Replay | core/rtw_ap.c:1906-2150 | a fresh access point and its stations, driven through any joins and leaves, end where the model does, from a start all the run laws hold for |

## Left out

- Frames that bypass reordering, sessions with `enable` false, and session reset (core/rtw_recv.c:2644-2716).
- The reorder timer's real time: expiry is a step that may happen whenever the timer is armed.
- rtw_cmd_filter and the stop paths of rtw_cmd_thread (core/rtw_cmd.c:265-291, 400-422): every command is let in and the driver keeps running. Command results, callbacks and the freeing of command objects are not modelled.
- rtw_unregister_evt_alive (core/rtw_pwrctrl.c:1278-1295) releases the power lock without having taken it, and has no step.
- rtw_set_ps_mode's check before it takes the lock (core/rtw_pwrctrl.c:495-511), and what it tells the firmware besides RPWM.
- CPWM reports below S2: `Expected` rules them out, as the firmware does.
- Amsdu.AmsduToMsdu: says which payloads are handed up; rewriting their headers for Ethernet (core/rtw_recv.c:2323-2345) is not modelled.
- rtw_BT_efuse_map_write (core/rtw_efuse.c:794-891): the same loop over the Bluetooth map, with another packet writer.
- Nat25.Bridge.LookupAndReplace: the use count is an unbounded number here and a machine integer in the source.
- The protocol handlers that build network addresses and edit packets around the NAT2.5 database, and its PPPoE relay tags.
- DhcpChecksum.DhcpFlagBcast: starts where the request has been recognised; the header checks in front of it (core/rtw_br_ext.c:1296-1315) are not modelled.
- The table's other users: rtw_createbss_cmd_callback adds an entry without looking for the same network (core/rtw_cmd.c:2743). ScanTable.MlmePriv.FreeNetwork is for entries in the scanned queue.
- ApCaps.MlmePriv.UpdateErpInfo: the ERP element's first byte is a field; finding the element in the beacon is Tlv.GetIe's business. The beacon's transmission and the rate control updates are not modelled.
- `olbc_ht` and `ht_option` do not change while stations come and go.
- LEDs, USB and register access, encryption, rate adaptation and the frame builders: no algorithm, or large case tables with easy properties only.
- CmdThread.Replay: runs in which no command is filtered and the driver does not stop.
- RecvFrames.MergeFragments: takes the first fragment's buffer to be long enough for the whole frame; recvframe_put's refusal (include/rtw_recv.h:515-540) is not modelled.
- RecvFrames.RecvPriv.RecvframeDefrag: likewise.
- RecvFrames.RecvPriv.FinishFragments: likewise.
- RecvFrames.RecvPriv.RecvframeChkDefrag: likewise; the verdict of recvframe_chkmic is a parameter, and the bytes it trims are not modelled, nor are TKIP and AES.
- Efuse.MapWrite: not for 0 bytes at an odd address, where the source reads a byte of data all the same; the hardware read of the map is a parameter and the packet writer's failure is a call number.
- Tlv.GetIe: takes the memory to reach as far as the search reads, one length byte behind the limit if the remainder is one byte.
- Tlv.GetIeEx: likewise, and as far as the OUI is compared.
- Tlv.RemoveIe: for buffers of at most MAX_IE_SZ bytes, and where the OUI is compared for elements and a remainder no shorter than it. Where the source goes on to move up a negative number of bytes, the model stops. memcpy between overlapping ranges is taken to copy forwards.
- P2pAttr.GetP2pIe: takes the memory to reach as far as the search reads.
- P2pAttr.GetP2pAttr: not for bytes on which the search never ends, and takes the memory to reach as far as it reads.
- P2pAttr.P2pAttrRemove: for a P2P element made of whole attributes, which the source does not check.
- P2pAttr.RemoveP2pAttr: likewise for the first P2P element, which is not the remainder; and for vendor specific elements of at least four bytes.
- PhyTable.ReadAndConfig: for both tables' loops; that the MAC table's (hal/HalHWImg8723A_MAC.c:149-215) writes bytes is `BYTE_WRITES` in PhyRegisters.
- ScdbSpec.ShortcutAgrees: with nat25_disable and nat25sc_disable clear, and the packet's unicast and VLAN tests passed.
- Nat25.Replay: every allocation succeeds; InsertEntry says what happens when one does not.
