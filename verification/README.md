# GC20 roadside sign controller: a verified model

GC20 drives roadside message signs for a traffic management centre. A master polls the controller over a framed,
checksummed, numbered link; the controller decides what each group of signs shows (commands, weekly plans, messages,
a facility switch, external inputs, faults), loads frames into the slave units of a sign over a second bus, and checks
what they report back. This project models that logic in Dafny and proves what it is meant to guarantee. The original
program is C++; line numbers below refer to it. `dafny verify dfyconfig.toml` checks everything.

The code that changes objects step by step is modelled by classes and methods with loops; each is proved against a
specification on values, and the results about runs are proved of that specification. Coroutines (protothreads) have an
explicit program counter, and every method runs from one waiting place to the next. Clocks, descriptors, stored
configuration and the choices of the outside world are parameters.

| part | files |
|---|---|
| Weekly plan index: a table of the 10080 minutes of a week against the set of enabled plans | `BitSet`, `Plans`, `PlanRecord`, `PlanTable`, `PlanControl`, `PlanGroups` |
| Link to the master: CRC, hexadecimal text, framing, sequence numbers, sessions | `Crc*`, `Words`, `Hex`, `Control`, `Pieces`, `DataLink`, `Presentation`, `Nts`, `StopAndWait`, `SessionHandlers`, `FullStack` |
| Slave bus: framing, status replies, checks, delivery of frames | `SlaveLink`, `SlaveBus`, `GroupBus`, `Delivery` |
| Messages and frames on display: overlay, loading schedule, the two display coroutines | `Overlay`, `MessageSchedule`, `MessageTask`, `FrameTask` |
| Which display is shown: commands, switch, external inputs, faults | `Edges`, `DisplayArbiter`, `GroupDisplay` |
| The three display tasks together: how the display passes from one to the other, and all of a tick on one bus | `HandOver`, `Leftovers`, `DisplayTasks` |
| Transmit queue | `TxQueue` |
| Message records, text lines, atomic frames, twilight, debouncing | `Messages`, `TextLines`, `AtomicFrame`, `Twilight`, `Debouncing` |

The main results, hardest first:

- The minute table agrees with the enabled plans after every sequence of commands and restarts, over midnight and over
  the end of the week, and a restart rebuilds the same answers (`PlanControl.IndexAgreesWithPlans`, `RestartAgrees`,
  `StartUpIsRight`).
- Whatever replies are lost, late or stale, a slave is only ever told to show a frame it has itself reported since it was
  last put there, and a check that finds nothing wrong is fresh (`Delivery.NothingIsShownUnseen`,
  `SlaveBus.GoodChecksAreFresh`). Both display coroutines keep this at every step, together with the order of loading and
  composing of messages (`MessageTask.MsgTask.Resume`, `EntryIsSeen`, `OverlaysAreSeen`, `FrameTask.FrmTask.Resume`).
- All three display tasks of a group on one bus keep it in every run from start-up, up to the first tick in which one of
  four things happens that the list below explains: the message task goes on where the frame task has overtaken it, a
  message is begun that never sets its slot, a stray entry is sent, or slot 1 is shown under a blank order
  (`DisplayTasks.GroupTasks.Run`). When a task starts again after another has had the display is exactly determined: the
  frame task always (`Leftovers.FrmStartsAgain`), the message task unless `onDispMsgId` is 0 (`MsgMayGoOn`,
  `WhenNothingResets`).
- What is on display under a plan is what the present minute asks for, with the exceptions named exactly
  (`Leftovers.MinuteIsShown`).
- Master and controller stay in step, through every wrap of the numbers, exactly when no command is damaged in length,
  whatever else the link loses or damages (`StopAndWait.EveryRunStaysInStep`), and the handshake leaves them where this
  starts (`SessionHandlers.App.Handshake`). What the wire makes of every packet, intact or not, is what that model assumes
  (`FullStack.AttemptOnTheWire`, `DamageOnTheWire`).
- A payload comes through all layers unchanged, however the stream is cut into pieces (`FullStack.PayloadComesThrough`,
  `DataLink.PacketExtracted`, `SlaveLink.TxThenRx`).
- The table-driven CRCs are polynomial remainders and detect every burst of 16 bits and every odd number of flipped bits
  (`CrcPolynomial`, `CrcDetection`).
- The display is never undefined, blank during a fault, and what a fault leaves is exactly determined
  (`DisplayArbiter.EveryRunIsSound`, `FaultEnds`). Every command that is taken is on display, with its own ids, after the
  next tick in which the group may load and nothing of a higher rank is pending (`CommandIsShown`, `PendingIsShown`).
- Tables, packets and pictures are given outright and not only by round trips: which plan is in force at a day, hour and
  minute after any run (`PlanControl.TableByTheClock`), every byte of what goes on both wires (`Nts.ReplyLayout`,
  `DataLayout`, `SlaveLink.FrameLayout`, `Hex.TextAt`), every pixel of a slot (`MessageSchedule.SlotLights`, `SlotPixel`),
  and the straight line that the times of twilight follow from solstice to solstice (`Twilight.DayIsOnTheLine`).

Some expectations one may have of the code do not hold. Each has a lemma with a concrete case, its exact condition, or both:

- A command that loses or gains a byte, so that its length is one no packet has, is refused before its CRC is looked at
  (`src/layer/LayerNTS.cpp:56-68`), and the refusal uses up an N(S). From then on no exchange of the session is completed
  (`StopAndWait.LengthDamageEndsSession`; on the wire `FullStack.OneByteLost`). Of the damage that
  length and CRC reveal, no other does this.
- A fault that blanks the message of a plan and outlasts its minute lets the message task go on at its old line
  (`Leftovers.MsgGoesOnAfterFault`, exactly when in `WhenNothingResets`), because the plan task takes the reload flag and in
  a free minute with nothing on display resets nothing. If that line waits for a frame to arrive, the blank slot passes for
  it, and the frame is shown unconfirmed (`Delivery.OvertakenLoadLooksDone`). In the same way the last frame of a plan may
  come back in a free minute (`Leftovers.OldEntryIsShown`, exactly when in `MinuteIsShown`).
- A later entry of a message that has to be sent again is looked up by a local that the coroutine has lost at its wait
  (`nextEntry`, `src/sign/Group.cpp:657-676`). Unless it happens to name the entry being loaded, or nothing is sent, another
  slot is loaded and confirmed in its place (`MessageTask.MsgTask.ResumeNextSet`, in every history
  `Delivery.ResendDecides`), and the proper one is then shown unconfirmed (`Delivery.LostEntryLooksDone`).
- A system reset of level 1 or above in a fault makes the blanked display look like another to the frame task
  (`Leftovers.WhenResetMisleads`, a run in `ResetInFault`); if that is then between its two show commands, or shows again,
  it shows slot 1, lit in a fault, and whether any slave has confirmed a frame there or not
  (`FrameTask.FrmTask.Resume`, `Delivery.NeverSetIsNotReady`). Everywhere else the frame
  task begins anew after the reset, or has not the display.
- A plan that moves on from a message to a frame leaves the overlays of the message under the frame
  (`Leftovers.WhenOverlaysStay`), while a plan that is loaded again during its message takes the overlays from what that has
  still to load (`MessageTask.MsgTask.Wipe`).
- A message of a single entry without a time shows its slot without ever setting it (`MessageTask.MsgTask.StartUnset`).
- The overlap filter of a plan works on unrolled days and so misses entries that meet after midnight on the next day of
  the plan (`PlanTable.FilterMissesMidnight`, with the exact condition in `FilteredEntriesMeet`); the sweep then leaves
  the later-written entry in the common minutes, which `PlanTable.EntryOf` accounts for.
- A payload of 65530 bytes or more, which the sender accepts, is longer than the receiver's buffer and is dropped
  (`FullStack.PayloadComesThrough`).
- A slave listed behind a simulated one is never heard (`SlaveBus.ShadowedIsNeverHeard`), and only that keeps the checks
  of a group from ever passing (`ChecksCanPass`). One with the same id would not be heard either, but the groups number
  their slaves apart.
- A command accepted while an external message is showing is lost when a fault begins
  (`DisplayArbiter.PendingLost`, exact condition in `PendingSurvives`).
- An external message displaced by another of higher priority comes back without a timer and stays
  (`DisplayArbiter.ExternalOverExternal`).
- The command stored last is given again when a group is made, before anybody has read the facility switch, and is
  therefore refused; only the plan is restored (`DisplayArbiter.NothingIsRestored`).
- The day count takes every year divisible by four for a leap year; the next half year for which this matters begins on
  21 December 2099 (`Twilight.DayCountIsRight`).
- With a sign narrower than one character a text with a character in it may pass the count and leave the line table
  (`TextLines.AcceptedButNotLaidOut`, exactly when in `AcceptedIsLaidOut`).
- The first level of a debounced input needs no run of equal samples (`Debouncing.FirstLevelNeedsNoRun`); the totals
  decide (`FirstLevelGoesByTotals`).

Two comments of the source differ from its code, which is followed here. `include/module/Utils.h:231-232` says that a
message followed by its CRC has CRC 0: for 0x1021 this takes the high byte first, for the reflected 0x8005 the low byte
first, and the slave bus sends the high byte first. `include/sign/Group.h:272-274` describes a second round of loading
for a timed entry that follows an overlay entry; the code takes it for an overlay entry that follows a timed one, as its
examples do.

## Model

| member | source | states |
|---|---|---|
| PlanControl.IndexAgreesWithPlans | src/sign/Group.cpp:1230-1428 | after every sequence of enable, disable, disable-all, set-plan, reset, display and restart commands, the slot of each minute of the week names plan p exactly when p is enabled and one of its entries covers that minute, it carries an entry of that plan that covers the minute, and no minute belongs to two plans |
| PlanControl.TableByTheClock | src/sign/Group.cpp:483-489 | after every such sequence, at every day, hour and minute: the table names plan p exactly when p is enabled and one of its entries is in force by the clock, and then has the frame or message of such an entry |
| PlanControl.StepKeepsRight | src/sign/Group.cpp:1343-1428 | each single command, a restart among them, keeps the minute table in agreement with the set of enabled plans, also when it is refused |
| PlanControl.EnDisKeepsRight | src/sign/Group.cpp:1343-1372 | enabling, disabling and disabling all keep the agreement, with every refusal of the source |
| PlanControl.LoadKeepsRight | src/sign/Group.cpp:1301-1341 | loading a plan that passed the overlap check adds exactly its minutes and disturbs no other plan |
| PlanControl.ClearKeepsRight | src/sign/Group.cpp:1388-1428 | clearing an enabled plan frees exactly its minutes |
| PlanControl.SetPlanKeepsRight | src/sign/Controller.cpp:1026-1066 | replacing a plan that a group has not enabled leaves the table of that group in agreement with the new entries |
| PlanControl.RebuildAgrees | src/sign/Group.cpp:95-101 | loading the enabled plans in ascending order of id into an empty table gives, minute by minute, the plan that the live table names |
| PlanControl.RestartAgrees | src/sign/Group.cpp:95-101 | at any time in any run, restarts included, a restart gives the same answer at every minute, in whatever order the plans were enabled |
| PlanControl.RestartKeepsRight | src/sign/Group.cpp:95-101 | a restart from a table in agreement with the enabled plans gives another one, with the same answer at every minute |
| PlanControl.StartUpIsRight | src/sign/Group.cpp:95-101 | start-up from any stored set of enabled plans gives a table in agreement with them exactly when all are defined and no two of them share a minute, which holds of every set that a run leaves |
| PlanControl.EnableThenDisable | src/sign/Group.cpp:1374-1428 | enabling a plan and disabling it again restores the plan of every minute |
| PlanControl.AnswerByPlans | src/sign/Group.cpp:1343-1428 | the reply to an enable or disable command for one plan, and the enabled set after it, told by the plans: on display, undefined, enabled already, a minute in common with an enabled plan, not enabled |
| PlanControl.TakenMeansOverlap | src/sign/Group.cpp:1230-1272 | the sweep finds a plan of the store overlapping exactly when it has a minute in common with an enabled plan |
| PlanControl.OverlapIsCommonMinute | src/sign/Group.cpp:1230-1272 | that is, a minute that both of them cover |
| PlanControl.AnswerForAll | src/sign/Group.cpp:1343-1361 | plan 0 disables all plans and frees every minute, unless a plan is on display |
| PlanControl.OneGroupAnswers | src/sign/Controller.cpp:606-620 | who answers an enable or disable command: a group that does not exist, or a plan to be enabled that is not defined, is refused; otherwise the group named answers and no other changes |
| PlanControl.SetPlanAnswers | src/sign/Controller.cpp:1026-1066 | a plan sent by the master is stored exactly when its id is not 0 and no group shows or has enabled a plan of that id; each refusal by its cause |
| PlanControl.ResetByLevel | src/sign/Controller.cpp:371-428 | which resets are taken, and what each level clears in which groups and in the store |
| PlanControl.RunsInOrder | src/sign/Controller.cpp:606-620 | a run carries out its commands one after the other |
| PlanControl.ActiveDoesNotMatter | src/sign/Group.cpp:1279-1282 | what is on display has no influence on the agreement |
| PlanTable.FilteredEntriesMeet | src/tsisp003/Plan.cpp:90-112 | two entries that pass the filter share a minute of the week on given days exactly when, on one day, the earlier-listed encloses the later with room on both sides, or when one of them runs over midnight into the next day past the start of the other there |
| PlanTable.FilterMissesMidnight | src/tsisp003/Plan.cpp:90-112 | concrete plan that the overlap filter accepts and whose entries nevertheless share a minute, after midnight |
| PlanTable.SpansMeet | src/sign/Group.cpp:1230-1272 | two spans on the circle of the week meet exactly when one begins inside the other |
| PlanTable.EntryOfCovered | src/sign/Group.cpp:1301-1341 | a minute is covered by a plan exactly when the sweeps leave an entry of the plan there, and that entry covers it |
| PlanTable.EntryOfCovers | src/sign/Group.cpp:1301-1341 | the entry the sweeps leave in a minute is an entry of the plan that covers the minute on one of its days |
| PlanTable.CoversByTheClock | src/sign/Group.cpp:1308-1325 | a plan covers a minute of the week exactly when by the clock some entry is in force: between its times on a day of the plan, or overnight from its start on a day of the plan to its stop on the day after |
| PlanTable.DayIsBit | src/sign/Group.cpp:1308-1339 | day d is in the plan exactly when the mask that starts at 1 and doubles each day meets its weekdays |
| PlanTable.DaysAddUp | src/sign/Group.cpp:1308-1311 | the days of a mask add up to it, 1 for Sunday to 64 for Saturday |
| PlanTable.StopEndsSpan | src/sign/Group.cpp:1316-1325 | the stop computed by the source, over midnight and from Saturday to Sunday, is where the span ends |
| PlanTable.MinuteTable.SpanTaken | src/sign/Group.cpp:1255-1266 | the wrap-around sweep finds an occupied minute exactly when there is one in the span; its measure is the distance to the stop going round the week |
| PlanTable.MinuteTable.LoadSpan | src/sign/Group.cpp:1326-1336 | the sweep writes exactly the minutes of the span |
| PlanTable.MinuteTable.ClearSpan | src/sign/Group.cpp:1414-1422 | the sweep frees exactly the minutes of the span |
| PlanTable.MinuteTable.IsEnPlanOverlap | src/sign/Group.cpp:1230-1272 | true exactly when some minute covered by the plan is taken; the day of a pass is the bit of a mask that doubles, and which minutes are covered is CoversByTheClock |
| PlanTable.MinuteTable.LoadPlan | src/sign/Group.cpp:1301-1341 | every minute covered by the plan, and no other, names it afterwards, with the entry of the last pass over it |
| PlanTable.MinuteTable.ClearPlan | src/sign/Group.cpp:1388-1428 | every minute covered by the plan, and no other, is free afterwards |
| PlanGroups.Group.constructor | src/sign/Group.cpp:95-101 | the table of a new group is rebuilt from the persistent set of enabled plans |
| PlanGroups.Group.LoadEnabled | src/sign/Group.cpp:95-101 | the start-up loop gives the table rebuilt in ascending order of id |
| PlanGroups.Group.EnablePlan | src/sign/Group.cpp:1374-1386 | refused when enabled or overlapping, else the table has the plan loaded |
| PlanGroups.Group.DisablePlan | src/sign/Group.cpp:1388-1428 | refused when not enabled, else the table has the plan cleared |
| PlanGroups.Group.EnDisPlan | src/sign/Group.cpp:1343-1372 | the object does to its table, bit set and reply what the state machine says |
| PlanGroups.Group.SystemReset | src/sign/Group.cpp:1990-2031 | from level 1 on no plan is enabled and the table is empty |
| PlanGroups.Controller.CmdEnDisPlan | src/sign/Controller.cpp:606-620 | checks of group and plan id, and the effect on one group only |
| PlanGroups.Controller.SignSetPlan | src/sign/Controller.cpp:1026-1066 | for every buffer: a plan 0, shown or enabled plan and a command that is too long are refused, then whatever the plan reader refuses, else the plan read is stored; the tables are untouched |
| PlanGroups.Controller.CmdSystemReset | src/sign/Controller.cpp:371-428 | levels, group ids and which groups and stores are reset |
| PlanGroups.Controller.SetPln | src/uci/UciPln.cpp:81-96 | the plan read is stored under its id exactly when the plan reader accepts it, and nothing else changes |
| PlanGroups.CommandKeepsId | src/sign/Controller.cpp:1026-1066 | what the controller makes of the command data: the plan id looked at first is the one of the plan stored, and the verdict is that of the plan reader |
| PlanGroups.Restart | src/sign/Group.cpp:95-101 | new objects built from the plan store and the stored sets of enabled plans are in the state that the restart of the state machine gives |
| BitSet.Bits.SetBit | src/module/Utils.cpp:894-898 | the set of bits gains exactly one member |
| BitSet.Bits.ClrBit | src/module/Utils.cpp:900-904 | the set of bits loses exactly one member |
| BitSet.Bits.GetBit | src/module/Utils.cpp:911-915 | membership |
| BitSet.Bits.GetMaxBit | src/module/Utils.cpp:939-950 | the largest member, or -1 when there is none |
| Plans.ClashMeans | src/tsisp003/Plan.cpp:90-112 | the filter lets two entries stand together exactly when their unrolled intervals share no minute or the earlier-listed one encloses the later with room on both sides |
| Plans.AcceptedImages | src/tsisp003/Plan.cpp:27-143 | exactly the images of valid plans with defined frames and messages are accepted, and an accepted image is the image of the plan read from it |
| Plans.AcceptedByBytes | src/tsisp003/Plan.cpp:27-119 | byte by byte: the code, an id, weekdays from 1 to 127, and one to six entries of a kind, a defined frame or message and two times of day, each at its place and closed by a zero unless there are six, no two of which clash |
| Plans.ImageByBytes | src/tsisp003/Plan.cpp:121-143 | what stands at each position of the image of a plan |
| Plans.ReadThenPrint | src/tsisp003/Plan.cpp:53-89 | what is read from the entry area prints to the same bytes |
| Plans.PrintThenRead | src/tsisp003/Plan.cpp:121-143 | what is printed reads back to the same entries and end position |
| PlanRecord.PlanObject.Init | src/tsisp003/Plan.cpp:27-119 | verdict for every buffer, and the fields of an accepted plan |
| PlanRecord.PlanObject.Overlapping | src/tsisp003/Plan.cpp:90-112 | the nested loops find a clash exactly when two entries clash |
| PlanRecord.PlanObject.ToArray | src/tsisp003/Plan.cpp:121-143 | prints the image of the plan in the object |
| PlanRecord.ReadAndPrint | src/tsisp003/Plan.cpp:27-143 | an accepted image comes back byte for byte |
| Messages.AcceptedImages | src/tsisp003/Message.cpp:12-85 | exactly the images of messages of one to six entries with defined frames are accepted, and an accepted image is the image of the message read from it |
| Messages.AcceptedByBytes | src/tsisp003/Message.cpp:12-65 | byte by byte: the code, an id, and one to six defined frames with their times, each at its place and closed by a zero unless there are six |
| Messages.ImageByBytes | src/tsisp003/Message.cpp:67-85 | what stands at each position of the image of a message |
| Messages.ReadThenPrint | src/tsisp003/Message.cpp:34-55 | what is read from the entry area prints to the same bytes |
| Messages.PrintThenRead | src/tsisp003/Message.cpp:67-85 | what is printed reads back to the same entries |
| Messages.MessageObject.Init | src/tsisp003/Message.cpp:12-65 | verdict for every buffer, and the fields of an accepted message |
| Messages.MessageObject.ToArray | src/tsisp003/Message.cpp:67-85 | prints the image of the message in the object |
| Messages.ReadAndPrint | src/tsisp003/Message.cpp:12-85 | an accepted image comes back byte for byte |
| StopAndWait.EveryRunStaysInStep | src/layer/LayerNTS.cpp:44-188 | for every run of attempts: both ends agree on the exchange in progress or the controller is exactly one ahead, no undamaged command is refused, and commands are carried out in order and at least once, all the way through, exactly when no command is damaged in length, whatever else is lost or damaged either way |
| StopAndWait.AttemptStaysInStep | src/layer/LayerNTS.cpp:44-188 | one attempt keeps both ends in step exactly when its command is not damaged in length; the reply to an undamaged one carries the number the master waits for, for a new command and for a repeated one |
| StopAndWait.SessionRuns | src/layer/LayerNTS.cpp:219-236 | a session from its start without damage to a length: the exchanges completed are those that got through both ways, and the counters of the controller stay equal to each other and at most one ahead of the master |
| StopAndWait.EveryCommandRuns | src/layer/LayerNTS.cpp:137-152 | every completed exchange was carried out |
| StopAndWait.LengthDamageEndsSession | src/layer/LayerNTS.cpp:56-68 | after one command damaged in length no exchange is completed any more, whatever the link does, unless 254 more are damaged in length or the session starts anew |
| StopAndWait.NothingCompletesOutOfStep | src/layer/LayerNTS.cpp:56-109 | the same from any state in which N(S) is 1 to 254 exchanges ahead of N(R) |
| StopAndWait.GapCountsLengthDamages | src/layer/LayerNTS.cpp:56-188 | in every run N(S) is ahead of N(R) by the number of commands damaged in length |
| StopAndWait.AttemptKeepsGap | src/layer/LayerNTS.cpp:56-188 | nothing else moves the two apart, and an exchange is completed only when they are together, up to multiples of 255 |
| StopAndWait.AdvanceInClosedForm | src/layer/LayerNTS.cpp:280-284 | the number g exchanges after any other, 0 among them |
| StopAndWait.NumberInClosedForm | src/layer/LayerNTS.cpp:280-284 | the k-th number is 0 and then 1 to 255 over and over, although 0 and 255 have the same successor |
| Nts.LayerNTS.SetSession | src/layer/LayerNTS.cpp:219-236 | every change of the session restarts both counters |
| Nts.LayerNTS.Tx | src/layer/LayerNTS.cpp:161-188 | an acknowledgement and a data packet with the present counters; on-line, N(S) advances |
| Nts.LayerNTS.Rx | src/layer/LayerNTS.cpp:44-154 | address, length, CRC, session start and time-out, and the counting or roll-back of a command, for every packet |
| Nts.LayerNTS.Count | src/layer/LayerNTS.cpp:86-109 | next command, repeated command, or neither |
| Nts.LayerNTS.EndOfBlock | src/layer/LayerNTS.cpp:294-299 | the block is closed with its own CRC and ETX |
| Nts.LayerNTS.MakeNondata | src/layer/LayerNTS.cpp:286-292 | acknowledgement and refusal packets |
| Nts.ReplyLayout | src/layer/LayerNTS.cpp:161-188 | what goes down for a reply: the acknowledgement with code 6, then the data packet |
| Nts.DataLayout | src/layer/LayerNTS.cpp:161-188 | at each position of a data packet: SOH, the digits of N(S), of N(R) and of the device, STX, the text, the digits of the CRC of all before them, ETX |
| Nts.NonDataLayout | src/layer/LayerNTS.cpp:286-299 | the same of an acknowledgement or refusal: its code, N(R), the device, the CRC, ETX |
| Nts.CommandRead | src/layer/LayerNTS.cpp:70-154 | a command whose bytes 1 to 4 stand for N(S) and N(R), where characters that are no digits stand for 255: the expected number is taken, the number before it is taken again when N(R) is that of the last reply, and any other is refused |
| Nts.ChecksumRead | src/layer/LayerNTS.cpp:70-79 | the CRC matches when its four digits spell that of all before them, or are no number while that is 65535 |
| Nts.OthersArePassedOver | src/layer/LayerNTS.cpp:44-55 | a packet is passed over unless bytes 5 and 6 spell the device and byte 7 is STX |
| SessionHandlers.App.StartSession | src/tsisp003/TsiSp003App.cpp:109-120 | session and counters are restarted before the seed is sent; a wrong length is refused with the counters and the session as they were |
| SessionHandlers.App.Password | src/tsisp003/TsiSp003App.cpp:122-156 | the acknowledgement carries the counters of the handshake and the session goes on-line with fresh ones; a wrong password closes the session first; a wrong length or state is refused and changes no session |
| SessionHandlers.App.EndSession | src/tsisp003/TsiSp003App.cpp:158-170 | the acknowledgement carries the counters of the session, which is closed afterwards; off-line or with a wrong length it is refused, which on-line uses up a number as any reply does |
| SessionHandlers.App.Handshake | src/tsisp003/TsiSp003App.cpp:109-156 | after the handshake the counters are where every run of the stop-and-wait protocol starts |
| SessionHandlers.OtherOrderNeverCompletes | src/tsisp003/TsiSp003App.cpp:134-141 | with the session changed before the acknowledgement no exchange would ever complete, whatever the link does, short of 254 commands damaged in length |
| Presentation.LayerPrst.Rx | src/layer/LayerPrst.cpp:23-35 | passes up exactly the bytes that the hexadecimal text stands for, or nothing |
| Presentation.LayerPrst.Tx | src/layer/LayerPrst.cpp:48-56 | passes down the text of 1 to maxlen bytes, or nothing |
| Presentation.PrintedParses | src/layer/LayerPrst.cpp:23-56 | what is printed is parsed back |
| DataLink.LayerDtLk.Rx | src/layer/LayerDtLk.cpp:26-66 | the byte loop over the member buffer does what the receiver automaton does, however the stream is cut before |
| DataLink.PacketExtracted | src/layer/LayerDtLk.cpp:26-66 | from an idle receiver, a stream that ends at its first ETX inside a packet delivers exactly the bytes from the last SOH on without NAKs, or nothing when they exceed the buffer, in whatever pieces it arrives |
| SlaveLink.LayerSlv.Rx | src/layer/LayerSlv.cpp:31-83 | the byte loop over the member buffer does what the receiver automaton does |
| SlaveLink.LayerSlv.Tx | src/layer/LayerSlv.cpp:90-102 | STX, payload, CRC in hexadecimal, ETX |
| SlaveLink.PacketExtracted | src/layer/LayerSlv.cpp:31-83 | the same of the slave receiver, from STX on and without characters that are no hexadecimal digits, in whatever pieces the stream arrives |
| SlaveLink.TxThenRx | src/layer/LayerSlv.cpp:31-102 | a payload of at least 14 bytes, sent and received in any pieces, comes back unchanged |
| SlaveLink.FrameLayout | src/layer/LayerSlv.cpp:90-102 | what stands at each position of a packet on the slave bus: STX, the text, the digits of the CRC of both, ETX |
| SlaveLink.PayloadByBytes | src/layer/LayerSlv.cpp:54-78 | what is passed up of a packet: at least 34 bytes, an even number, and the CRC spelled in front of the last one |
| Pieces.CutsDoNotMatter | src/layer/LayerDtLk.cpp:26-66 | a byte-wise receiver that discards the rest of a piece after a packet gives the same result for every way of cutting a stream that holds one packet at its end |
| FullStack.PayloadComesThrough | src/layer/LayerNTS.cpp:137-188 | every payload of 1 to 65529 bytes sent through presentation, network and data link and fed to an idle receiver whose session is off-line is delivered unchanged; the leading acknowledgement is skipped and the CRC check passes; longer ones, up to the limit of the sender, are dropped whole |
| FullStack.ReplyIsExtracted | src/layer/LayerDtLk.cpp:26-66 | the data-link receiver skips the acknowledgement and extracts the data packet behind it |
| FullStack.AttemptOnTheWire | src/layer/LayerNTS.cpp:44-188 | on the wire, too, an undamaged on-line command of the master is judged, and answered, as the stop-and-wait model says, in step or not |
| FullStack.DamageOnTheWire | src/layer/LayerNTS.cpp:44-84 | every packet that is not intact, whatever bytes are in it: not addressed, it is dropped; of an impossible length, refused at the cost of an N(S); else answered NAK; which is what the stop-and-wait model makes of it |
| FullStack.OtherLengthOnTheWire | src/layer/LayerNTS.cpp:56-68 | a command whose bytes behind the header have changed in number is extracted by the data link however it is cut, and refused at the cost of an N(S), when its length is one no packet has |
| FullStack.OneByteLost | src/layer/LayerNTS.cpp:56-68 | every command that loses one byte between header and ETX does that, and takes the two ends out of step |
| FullStack.TmcStack.Rx | src/layer/LayerNTS.cpp:44-154 | the objects of the three layers, put together, hand up what the composition of their models hands up |
| FullStack.TmcStack.Tx | src/layer/LayerNTS.cpp:161-188 | the objects of the layers, put together, put on the wire what their models do |
| FullStack.SendAndReceive | src/layer/LayerPrst.cpp:23-56 | the round trip on the objects themselves |
| Hex.EncodeThenDecode | src/module/Utils.cpp:93-108 | parsing what was printed gives the bytes |
| Hex.DecodeThenEncode | src/module/Utils.cpp:138-155 | printing what was parsed gives the text in upper case |
| Hex.ParseToAsc | src/module/Utils.cpp:148-157 | at its place stand two upper-case digits for each byte, that of its sixteens first, and nothing else changes |
| Hex.ParseToBytes | src/module/Utils.cpp:93-108 | accepts exactly non-empty texts of pairs of digits, and then each byte is the base-16 numeral of its pair |
| Hex.ParseToU8 | src/module/Utils.cpp:65-91 | two characters as a number: -1 where one is no digit, else 16 times the value of the first and the value of the second |
| Hex.ByteToAsc | src/module/Utils.cpp:138-146 | the two digits of a byte from the table of the source |
| Hex.PairSpelled | src/module/Utils.cpp:65-91 | a pair of characters stands for a byte exactly when the first spells its sixteens and the second its ones, in either case |
| Hex.TextAt | src/module/Utils.cpp:138-157 | the digits at positions 2k and 2k + 1 of a text are those of byte k |
| Hex.TextRead | src/module/Utils.cpp:65-108 | a text stands for exactly the bytes that it spells |
| Hex.NumberPrinted | src/module/Utils.cpp:178-182 | the four digits of a sixteen-bit number: of its 4096s, 256s, 16s and ones |
| Hex.NumberRead | src/module/Utils.cpp:110-122 | four characters stand for exactly the number that they spell |
| Words.PutThenGet | src/module/Utils.cpp:214-224 | reading a written word and writing a read one |
| Words.WordAsNumber | src/module/Utils.cpp:214-224 | a word is 256 times its high byte and its low byte |
| Words.BytesAsNumber | src/module/Utils.cpp:214-224 | and so is the word read from two bytes |
| CrcTables.Table1021IsRight | src/module/Utils.cpp:398-431 | each of the 256 entries is what eight shifts of the register give |
| CrcTables.Table8005IsRight | src/module/Utils.cpp:438-471 | the same of the other table |
| Crc.Crc16 | src/module/Utils.cpp:372-396 | the table loop computes the bit-by-bit register, for both variants, any start value and any message |
| CrcPolynomial.Crc1021IsRemainder | src/module/Utils.cpp:433-436 | the CRC is the remainder of the polynomial division of message and start value by x^16+x^12+x^5+1 |
| CrcPolynomial.Crc8005IsRemainder | src/module/Utils.cpp:473-476 | the same of the reflected variant, with message bytes and result reversed bit by bit |
| Crc.Crc1021Chains | src/module/Utils.cpp:372-436 | the CRC of two parts is the CRC of the second started with the CRC of the first |
| Crc.Crc8005Chains | src/module/Utils.cpp:372-476 | the same although register and result are bit-reversed |
| Crc.AppendedCrc1021 | include/module/Utils.h:231-232 | a message followed by two bytes has CRC 0 exactly when they are its CRC, high byte first |
| Crc.AppendedCrc8005 | include/module/Utils.h:231-232 | for the reflected variant exactly when they are its CRC, low byte first |
| Crc.ReverseInvolution | src/module/Utils.cpp:56-63 | reversing a byte twice gives the byte |
| CrcRegister.RegisterInjective | src/module/Utils.cpp:372-396 | from equal messages, different registers stay different |
| CrcRegister.ByteStepInjective | src/module/Utils.cpp:381-391 | one byte step is injective in the register |
| CrcDetection.Crc1021SeesBursts | src/module/Utils.cpp:433-436 | two messages of equal length that differ only within 16 consecutive bits never have the same CRC |
| CrcDetection.Crc8005SeesBursts | src/module/Utils.cpp:473-476 | the same of the reflected variant |
| CrcDetection.Crc1021SeesAdjacentBytes | src/module/Utils.cpp:433-436 | two messages of equal length that differ only inside two adjacent bytes never have the same CRC |
| CrcDetection.Crc8005SeesAdjacentBytes | src/module/Utils.cpp:473-476 | the same of the reflected variant |
| CrcDetection.Crc1021SeesOddErrors | src/module/Utils.cpp:433-436 | two messages of equal length that differ in an odd number of bits never have the same CRC |
| CrcDetection.Crc8005SeesOddErrors | src/module/Utils.cpp:473-476 | the same of the reflected variant |
| CrcDetection.Crc1021Parity | src/module/Utils.cpp:433-436 | the CRC has the parity of message and start value |
| CrcDetection.Crc8005Parity | src/module/Utils.cpp:473-476 | the same of the reflected variant, read backwards |
| Overlay.Over4Pixel | src/sign/Group.cpp:2147-2164 | a four-bit pixel of the upper frame wins unless it is off |
| Overlay.Over1Pixel | src/sign/Group.cpp:2138-2145 | a one-bit pixel is lit exactly when it is lit in either frame |
| Overlay.OverAssociates | src/sign/Group.cpp:2138-2164 | it does not matter in which grouping frames are composed |
| Overlay.OverTwice | src/sign/Group.cpp:2138-2164 | composing a frame a second time changes nothing, so an overlay met again in the second round does no harm |
| Overlay.SetWithOrBuf1 | src/sign/Group.cpp:2138-2145 | in place or not, each pixel of the destination is lit exactly when it was lit in the frame or in the buffer, and nothing else changes |
| Overlay.SetWithOrBuf4 | src/sign/Group.cpp:2147-2164 | the same with four bits a pixel: the pixel of the frame, or where that is off the pixel of the buffer |
| MessageSchedule.CountSets | src/sign/Group.cpp:741-784 | whether the message has overlays, and how many loads it needs: a second round up to the last overlay that follows a timed entry |
| MessageSchedule.SlotHolds | src/sign/Group.cpp:576-679 | after any number of loads the loaded slots are exactly those of the shown entries reached, and each holds its frame over the overlays before it or, once the second round has passed it, over all |
| MessageSchedule.AllOverlaysShow | src/sign/Group.cpp:654-679 | once the set counter has reached its maximum every shown slot holds its frame over all overlay entries, when the last entry has a time |
| MessageSchedule.EarlierOverlaysShow | src/sign/Group.cpp:654-679 | when the last entry has no time every shown slot holds its frame over the overlays before it |
| MessageSchedule.SlotLights | src/sign/Group.cpp:576-679 | on a one-bit sign a pixel of every shown slot is lit, after the last load, exactly when it is lit in the frame or in an overlay entry, all of them or those before it |
| MessageSchedule.SlotPixel | src/sign/Group.cpp:576-679 | on a four-bit sign it is the pixel of the frame, or where that is off the pixel of the uppermost of those overlay entries that has it on |
| MessageSchedule.SecondRoundIsNeeded | src/sign/Group.cpp:760-778 | for every message with a second round: one load less leaves the same frames in all slots exactly when the entry before the last late overlay is an overlay itself or hides that overlay; and no smaller count ever shows that entry under its last overlay |
| MessageSchedule.LastOverlayIsOnTop | src/sign/Group.cpp:760-778 | the entry that a second round stops at is the last late overlay, and all overlays of the message are that one over those before it |
| SlaveBus.Slave.DecodeStRpl | src/sign/Slave.cpp:71-114 | which replies are taken, how each other is refused, and the report and verdicts kept |
| SlaveBus.Slave.CheckCurrent | src/sign/Slave.cpp:203-231 | the four verdicts on what a slave shows |
| SlaveBus.Slave.CheckNext | src/sign/Slave.cpp:238-250 | the verdict on what a slave has received |
| SlaveBus.VerdictOfReply | src/sign/Slave.cpp:203-250 | the verdicts on a slave when its reply arrives, told by the history of commands: the slot and checksum asked for, still those noted before, blank or not, or anything else |
| SlaveBus.ReportByBytes | src/sign/Slave.cpp:89-112 | which bytes of a reply name the slots and their checksums |
| SlaveBus.FirstBadIsFirst | src/sign/Group.cpp:1118-1146 | the result of a check is that of the first slave in order whose verdict is not 0 |
| SlaveBus.CurrentCheckIsRight | src/sign/Group.cpp:1133-1146 | provided replies were forgotten since the last command, the check finds nothing wrong exactly when the last report of every real slave names the slot it was told to show with the checksum the frame there had |
| SlaveBus.NextCheckIsRight | src/sign/Group.cpp:1118-1131 | the same of the slot last set and the frame last set there |
| SlaveBus.ReportIsRecent | src/sign/Group.cpp:1753-1772 | a report that counts arrived after the last command to any slave |
| SlaveBus.GoodChecksAreFresh | src/sign/Group.cpp:1118-1163 | in every sound history each check that came out as 0 is fresh |
| SlaveBus.ForgettingIsNeeded | src/sign/Group.cpp:1160-1163 | concrete history in which a check without forgetting the replies is believed too early |
| SlaveBus.ShadowedIsNeverHeard | src/sign/Group.cpp:1761-1769 | a real slave listed behind a simulated one, or behind one with the same id, is never heard, so no check of the group ever finds nothing wrong |
| SlaveBus.ChecksCanPass | src/sign/Group.cpp:1118-1146 | some history lets the checks of a group find nothing wrong exactly when no real slave stands behind a simulated one or one with the same id |
| SlaveBus.BookkeepingAgrees | src/sign/Group.cpp:1851-1913 | expected slots and kept checksums are those of the history of commands |
| GroupBus.Bus.SlaveSetFrame | src/sign/Group.cpp:1851-1888 | nothing while disabled or for id 0, else all addressed slaves expect the slot with the CRC of the hexadecimal text of the packet |
| GroupBus.PacketByDigits | src/sign/Group.cpp:1851-1888 | the text that the checksum of a frame is over: two digits of the command, two of the slot, and the rest |
| GroupBus.Bus.SlaveSDFrame | src/sign/Group.cpp:1890-1913 | all addressed slaves are expected to show the slot, or slot 0 while disabled |
| GroupBus.Bus.StatusRpl | src/sign/Group.cpp:1728-1772 | the reply goes to the first slave that takes it |
| GroupBus.Bus.RqstStatus | src/sign/Group.cpp:1793-1808 | the reply of that slave is forgotten |
| GroupBus.Bus.ClrAllSlavesRxStatus | src/sign/Group.cpp:1160-1163 | all replies are forgotten |
| GroupBus.Bus.AllSlavesUpdateCurrentBak | src/sign/Group.cpp:1936-1942 | what is expected on display is noted for the verdicts to come |
| GroupBus.Bus.CheckAllSlavesNext | src/sign/Group.cpp:1118-1131 | the first verdict that is not 0, in the order of the slaves |
| GroupBus.Bus.CheckAllSlavesCurrent | src/sign/Group.cpp:1133-1146 | the first verdict that is not 0, in the order of the slaves |
| Delivery.ConfirmedWasReported | src/sign/Group.cpp:590-595 | a confirmed frame was reported by the slave itself, with its slot and checksum, at a time after which nothing was put in that slot, and the frame reported is the one last put there before |
| Delivery.NothingIsShownUnseen | src/sign/Group.cpp:623-627 | in every safe history each show command reached only real slaves that had themselves reported the slot and checksum of the frame last put there, after it was put there |
| Delivery.ShownIsSeen | src/sign/Group.cpp:627-645 | when a check of the display finds nothing wrong every real slave has itself reported the slot and checksum it should show |
| Delivery.HeldWasReported | src/sign/Group.cpp:590-595 | the reply by which a check finds that a slave holds a frame arrived after the frame was put in its slot |
| Delivery.SafeExactly | src/sign/Group.cpp:623-627 | a show command keeps a history safe exactly when every slave it reaches has confirmed the frame in that slot |
| Delivery.OvertakenLoadLooksDone | src/sign/Group.cpp:590-597 | concrete history: a frame is on its way to slot 2 when the slaves are blanked and report that; the next check of received frames finds nothing wrong, and to show slot 2 then is to show a frame that no slave has confirmed |
| Delivery.ResendDecides | src/sign/Group.cpp:669-676 | for every history: when a load is sent again, and the check that follows comes out good, the slot of the load may be shown exactly if it is the one that was sent again |
| Delivery.LostEntryLooksDone | src/sign/Group.cpp:669-676 | concrete history, for any two frames: slot 2 is being loaded, a slave reports something else, slot 1 is sent in its place and arrives; the check comes out good, and to show slot 2 is to show a frame that no slave has confirmed |
| Delivery.NeverSetIsNotReady | src/sign/Group.cpp:905-905 | in every history, to show a slot that nobody has put a frame in is to show a frame that no slave has confirmed |
| MessageTask.MsgTask.Start | src/sign/Group.cpp:576-597 | the first entry with a slot is sent, with the overlays before it collected, and waited for; for every message but one of a single entry without a time, for which see StartUnset |
| MessageTask.MsgTask.StartUnset | src/sign/Group.cpp:584-587 | a message of one entry without a time shows its slot as it is, which keeps the history safe exactly when every slave happens to have confirmed a frame there |
| MessageTask.MsgTask.Wipe | src/sign/Group.cpp:393-397 | the plan task may wipe the overlays while a message goes on; every stop is kept, and the frames still to be loaded lose their overlays unless there are none or all loads are done |
| MessageTask.MsgTask.MsgLoop | src/sign/Group.cpp:602-679 | overlay entries are passed by, with one more entry loaded for each while there is one to load; the entry after them is shown, or has just been sent and is waited for; what goes out, and every counter |
| MessageTask.MsgTask.LoadNext | src/sign/Group.cpp:654-679 | at most one entry is loaded, the one whose turn it is; waits exactly for entries with a slot |
| MessageTask.MsgTask.ShowEntry | src/sign/Group.cpp:625-625 | the entry is shown, and it is in its slot and confirmed |
| MessageTask.MsgTask.ResumeFirstSet | src/sign/Group.cpp:590-597 | sent again on a wrong report, and on to the first entry when it has arrived; what goes out in each case |
| MessageTask.MsgTask.ResumeShowAgain | src/sign/Group.cpp:625-626 | the second half of showing, after which replies are forgotten |
| MessageTask.MsgTask.ResumeShowCheck | src/sign/Group.cpp:627-650 | for every verdict: a match is noted, the entry is shown again, the message restarted at verdict 2 or at the third verdict 3, or the next entry loaded; what goes out, and every counter |
| MessageTask.MsgTask.ResumeNextSet | src/sign/Group.cpp:657-676 | waits, sends again on a wrong report, and goes on when the entry has arrived; what is sent again is the entry the local happens to name, and the invariant survives exactly when that is the one being loaded, or nothing is sent |
| MessageTask.MsgTask.SendAgain | src/sign/Group.cpp:669-676 | what goes out for every value of the local: that entry, nothing where the message has no entry or the device is off; and whether the invariant survives |
| MessageTask.MsgTask.SendOther | src/sign/Group.cpp:669-676 | another entry goes out while one is being loaded: the history is still safe, but the invariant is gone |
| MessageTask.MsgTask.ResumeOnTime | src/sign/Group.cpp:682-700 | a display that stops matching restarts the message, an expired timer ends the entry with a blank display or the next one; what goes out, and every counter; the last entry without a time never ends |
| MessageTask.MsgTask.ResumeFade | src/sign/Group.cpp:712-718 | blank twice, then replies are forgotten |
| MessageTask.MsgTask.ResumeRoundEnd | src/sign/Group.cpp:723-728 | back to the first entry |
| MessageTask.MsgTask.EntryDone | src/sign/Group.cpp:723-733 | on to the next entry with a slot, or to the end of the round |
| MessageTask.MsgTask.Resume | src/sign/Group.cpp:498-739 | every step of the coroutine, with what it puts on the bus, its counters and where it stops next, keeps what holds at its stops (order of loading, composed buffer, confirmed slots, clean checks), except the step, named exactly, that sends a stray entry |
| MessageTask.MsgTask.OnReply | src/sign/Group.cpp:1753-1772 | a reply at any time keeps what holds |
| MessageTask.MsgTask.OnRequest | src/sign/Group.cpp:1055-1113 | a poll at any time keeps what holds |
| MessageTask.MsgTask.EnDisDevice | src/sign/Group.cpp:1657-1670 | enabling or disabling restarts the message |
| MessageTask.QuietKeepsGood | src/sign/Group.cpp:498-739 | replies, polls, forgetting and sound checks keep what holds at a stop |
| MessageTask.EntryIsSeen | src/sign/Group.cpp:627-700 | at a stop at which the invariant holds, while an entry is shown and a check finds nothing wrong, every real slave has itself reported its slot with the checksum last sent for it; as long as the message has not been wiped while loading, that is the one of its frame as the schedule composes it |
| MessageTask.OverlaysAreSeen | src/sign/Group.cpp:654-679 | once all loads are done that is the frame over all overlay entries, when the last entry has a time, and otherwise over those before it |
| MessageSchedule.NoOverlayNoUnderlay | src/sign/Group.cpp:741-759 | a message without overlay entries has nothing underneath |
| FrameTask.FrmTask.Start | src/sign/Group.cpp:845-901 | what is to be shown is looked up anew: blank is shown, one frame sent to all, or the first of one frame for each |
| FrameTask.FrmTask.SendRound | src/sign/GroupIslus.cpp:119-127 | slaves that have confirmed are passed by, the next one is sent its frame, and after the last the replies are forgotten |
| FrameTask.FrmTask.ResumeAtomicSet | src/sign/GroupIslus.cpp:128-138 | shown when all have confirmed, else the first slave that has not is sent its frame again |
| FrameTask.FrmTask.MarkUnsent | src/sign/GroupIslus.cpp:135-138 | the slaves still to be sent their frames |
| FrameTask.FrmTask.ResumeFrameSet | src/sign/Group.cpp:894-899 | asked again on a wrong report, with the frame of onDispFrmId, and shown when it has arrived |
| FrameTask.FrmTask.ShowFrame | src/sign/Group.cpp:905-905 | slot 1 or blank, as onDispFrmId says at that moment; shown only when every slave has confirmed its frame, or blank, except under a blank order whose id has changed |
| FrameTask.FrmTask.ResumeShowAgain | src/sign/Group.cpp:905-908 | the second half of showing looks at onDispFrmId again, after which replies are forgotten |
| FrameTask.FrmTask.ResumeWatch | src/sign/Group.cpp:920-933 | shown again at verdict 1, as onDispFrmId then says; begun again at 2 and 3 |
| FrameTask.FrmTask.Reset | src/sign/Group.cpp:837-842 | a task reset begins at its first line, whatever has happened on the bus meanwhile |
| FrameTask.FrmTask.Resume | src/sign/Group.cpp:819-936 | every step, with what it puts on the bus and where it stops next, keeps what holds at the stops of the coroutine, except exactly a show command of a blank order for which onDispFrmId is no longer 0; the order changes exactly when the coroutine begins again |
| FrameTask.QuietKeepsGood | src/sign/Group.cpp:819-936 | replies, polls, forgetting and sound checks keep what holds at a stop |
| FrameTask.FrameIsSeen | src/sign/Group.cpp:920-933 | at a stop at which the invariant holds, while a check finds nothing wrong, every real slave has itself reported slot 1 with the checksum of its frame, or blank |
| HandOver.EveryRunKeeps | src/sign/Group.cpp:208-278 | in every run of commands, resets and ticks from start-up: the frame task is at its own line whenever it has the display, a message of a command, switch or input has an id, and the message task is at a line the frame task has overtaken exactly when onDispMsgId is 0 |
| HandOver.EveryRunKeepsId | src/sign/Group.cpp:845-905 | in every run onDispFrmId is what the frame task began with whenever that is at a line of its own, but for a system reset; and then another display is about to be loaded, or there is a fault, or the message of a plan has the display |
| HandOver.TickKeepsId | src/sign/Group.cpp:208-278 | the same of one tick |
| HandOver.TickFits | src/sign/Group.cpp:208-278 | every atomic display has a frame for each slave, and none of them frame 0 |
| HandOver.TickKeeps | src/sign/Group.cpp:264-271 | the same of one tick: faults, switch, loading, and the plan, message and frame task one after the other |
| HandOver.PlnKeeps | src/sign/Group.cpp:385-482 | the plan task keeps it, although it takes the reload flag before the other two see it |
| HandOver.MsgKeeps | src/sign/Group.cpp:498-575 | the message task keeps it, also when it gives up an undefined message for the plan |
| HandOver.FrmKeeps | src/sign/Group.cpp:819-893 | the frame task keeps it |
| Leftovers.FrmStartsAgain | src/sign/Group.cpp:831-842 | in every run the frame task never goes on at an old line after the message task has had the display |
| Leftovers.MsgMayGoOn | src/sign/Group.cpp:506-535 | in every run the message task goes on at an old line after the frame task has had the display exactly when onDispMsgId is then 0 |
| Leftovers.WhenNothingResets | src/sign/Group.cpp:393-424 | from the frame task the next tick lets the message task go on at its old line exactly when it loads the plan in a free minute, with the three ids on display 0 and the last entry of the plan a message that has begun |
| Leftovers.MsgGoesOnAfterFault | src/sign/Group.cpp:393-424 | concrete run: a fault blanks the message of a plan, the minute passes, the fault ends, and the message task goes on at its old line |
| Leftovers.MinuteIsShown | src/sign/Group.cpp:385-482 | in every run: once the plan task has looked at the minute, the message or frame on display is the one the minute asks for, and none in a free one; exactly unless nothing is on display in a free minute and the last message of the plan keeps the display, or the frame task begins in this tick with the last frame of the plan |
| Leftovers.OldEntryIsShown | src/sign/Group.cpp:885-890 | concrete run: a fault outlasts the minute of a plan frame, and the frame task, begun again as the fault ends, shows that frame in a free minute |
| Leftovers.EveryRunShowsEntry | src/sign/Group.cpp:385-482 | in every run the message or frame on display for a plan is the one of the entry noted last |
| Leftovers.WhenOverlaysStay | src/sign/Group.cpp:831-842 | from a message at its own line the next tick begins a frame over the overlays of the message exactly when the plan moves on from it in the course of time, with nothing loaded |
| Leftovers.OnlyResetsMislead | src/sign/Group.cpp:2025-2031 | in every run: when the frame task goes on and onDispFrmId is not what it began with, it began with a blank display, in a fault, and the id is that of a system reset |
| Leftovers.WhenResetMisleads | src/sign/Group.cpp:2025-2031 | a system reset from level 1 on does that in the next tick exactly when it arrives in a fault that is still there, and the device is not switched |
| Leftovers.MisledUntilItBegins | src/sign/Group.cpp:905-933 | it stays so until the frame task begins again |
| Leftovers.ResetInFault | src/sign/Group.cpp:2025-2031 | concrete run: a fault blanks the display, a reset of level 1 arrives, and the frame task goes on with id 1 |
| DisplayTasks.GroupTasks.Run | src/sign/Group.cpp:208-278 | every run of the three tasks on one bus from start-up, with any commands, faults, plans, messages, frames, timers, device switches, resets, power-ups and replies lost, late or stale: all checks are sound and no slave is told to show a frame it has not confirmed, up to the first tick that lets the message task go on at an overtaken line, begins a message of one entry without a time, sends a stray entry, or shows slot 1 under a blank order after a reset in a fault; the last keeps the history safe exactly when every slave had confirmed a frame there |
| DisplayTasks.GroupTasks.Tick | src/sign/Group.cpp:208-278 | one tick of the objects is the tick of the hand-over model, keeps what holds at the stops of the coroutines, and stops short exactly when the message task is overtaken, or in one of the other three cases, each with what brought it about |
| DisplayTasks.GroupTasks.LoadDisplay | src/sign/Group.cpp:210-267 | fault state, loading and device switch on the objects |
| DisplayTasks.GroupTasks.TaskPln | src/sign/Group.cpp:385-482 | the plan task on the fields of the group, with the overlays of a message that goes on wiped |
| DisplayTasks.GroupTasks.CheckMinute | src/sign/Group.cpp:404-475 | the comparison of the minute with what is on display, branch by branch: a free minute, a frame of a plan, a message of a plan |
| DisplayTasks.GroupTasks.TaskMsg | src/sign/Group.cpp:498-575 | head and body of the message task, and one step of its coroutine behind it, with what that puts on the bus, up to a stray entry; nothing goes out when the display is not its own |
| DisplayTasks.GroupTasks.PassMsgHead | src/sign/Group.cpp:510-535 | what the head of the message task notes: the message of the plan, or the one asked for in place of any plan |
| DisplayTasks.GroupTasks.NoMessage | src/sign/Group.cpp:541-575 | a message that is not defined is given up for the plan, or shown as blank for switch and external inputs |
| DisplayTasks.GroupTasks.TaskFrm | src/sign/Group.cpp:819-936 | head and body of the frame task, and one step of its coroutine behind it, with what that puts on the bus; it looks at onDispFrmId as it is; nothing goes out when the display is not its own |
| DisplayTasks.GroupTasks.LookUp | src/sign/Group.cpp:845-893 | the order that the frame task begins with has the id then on display, and a frame other than 0 wherever it has one |
| DisplayTasks.GroupTasks.BeginFrm | src/sign/Group.cpp:847-891 | what the frame task notes in its first step: 1 for atomic frames, the frame asked for, 0 for blank, or the frame of the plan |
| DisplayTasks.GroupTasks.Perform | src/sign/Group.cpp:1430-1572 | any command or input on the objects; the bus is untouched |
| DisplayTasks.GroupTasks.SystemReset1 | src/sign/Group.cpp:2010-2031 | a reset from level 1 on, as far as the display is concerned; the new onDispFrmId is what the frame task finds next |
| DisplayTasks.GroupTasks.EnDisDevice | src/sign/Group.cpp:1657-1670 | switching the device sends both coroutines to their first line |
| DisplayTasks.GroupTasks.OnReply | src/sign/Group.cpp:1728-1772 | a status reply between two ticks keeps what holds |
| DisplayTasks.GroupTasks.OnRequest | src/sign/Group.cpp:1793-1808 | a poll between two ticks keeps what holds |
| DisplayTasks.BlankTask.Resume | src/sign/Group.cpp:551-572 | the loop that shows nothing for an undefined message: shown twice, and again when a check finds something wrong |
| DisplayArbiter.EveryRunIsSound | src/sign/Group.cpp:208-278 | in every run of commands, switch changes, external inputs, resets and ticks the display at the end of a tick is never N/A nor frame or message 0, and is BLK whenever the fault is high |
| DisplayArbiter.TickSettles | src/sign/Group.cpp:208-278 | the same of one tick, and the fault state follows the inputs |
| DisplayArbiter.PendingIsShown | src/sign/Group.cpp:1682-1725 | in every tick without a fault in which the group may load, a pending command comes on display, frame or message 0 as the plan, what it displaces is kept, and the tasks are told to reload; only a pending external message comes before it, and the facility switch before both |
| DisplayArbiter.CommandIsShown | src/sign/Group.cpp:1522-1600 | so each command that is taken, for a frame, a message, atomic frames, the switch or a reset, is on display after the next such tick with its own ids, a reset also in a group that was not to load, and one that is not taken changes nothing |
| DisplayArbiter.NothingPendingStays | src/sign/Group.cpp:1682-1725 | with nothing pending the display and all that is kept stay as they are |
| DisplayArbiter.NothingIsThePlan | src/sign/Group.cpp:1713-1718 | with nothing on display and nothing pending it is the plan |
| DisplayArbiter.WaitsUntilReady | src/sign/Group.cpp:244-262 | a group that may not load keeps the display, and what is pending stays pending |
| DisplayArbiter.EmergencyIsShown | src/sign/Group.cpp:1664-1680 | an external message that is an emergency is shown even then |
| DisplayArbiter.PowerUpLoads | src/sign/Group.cpp:244-262 | after a power-up the pending command is shown |
| DisplayArbiter.UndefinedGivesWay | src/sign/Group.cpp:534-546 | an undefined message gives way to the plan |
| DisplayArbiter.ExternalIsShown | src/sign/Group.cpp:1440-1489 | an external input is shown after the next tick exactly when it is allowed, lasts, is one of 3 to 6 and below that on display, and may interrupt |
| DisplayArbiter.ExternalKeepsRank | src/sign/Group.cpp:1440-1489 | a pending external message gives way to a lower one only, and one that comes again starts its time anew |
| DisplayArbiter.FaultEnds | src/sign/Group.cpp:222-241 | a fault ends in the last command accepted meanwhile, or else in what was pending or showing at its onset; with an external input pending the external message comes first, unless the switch is due |
| DisplayArbiter.FaultHolds | src/sign/Group.cpp:264-271 | while a fault lasts the display stays blank and what was kept at its onset stays |
| DisplayArbiter.DisplayComesBack | src/sign/Group.cpp:222-241 | a fault without commands ends in the display as it was, in what was pending, or in what an external message had displaced |
| DisplayArbiter.CommandWaitsInFault | src/sign/Group.cpp:1500-1600 | during a fault only frame and message 0, the switch and resets are taken, and stay pending |
| DisplayArbiter.LastAcceptedIsLast | src/sign/Group.cpp:1500-1551 | no command accepted during a fault comes after the one taken for the last |
| DisplayArbiter.PendingSurvives | src/sign/Group.cpp:222-232 | a command pending at the onset is shown at the end exactly when no external message was showing, or what that had displaced shows the same |
| DisplayArbiter.PendingLost | src/sign/Group.cpp:222-232 | concrete state in which an accepted command is lost |
| DisplayArbiter.ExternalGivesBack | src/sign/Group.cpp:249-261 | an external message ends with the display it displaced, exactly as that was |
| DisplayArbiter.ExternalOverExternal | src/sign/Group.cpp:1699-1705 | an external message that displaces another comes back to it with a cleared timer, and no later tick ends it |
| DisplayArbiter.NothingIsRestored | src/sign/Group.cpp:154-170 | at start-up the command stored last is taken exactly when it is frame 0 or message 0, that is, the plan, since the facility switch has not been read yet |
| DisplayArbiter.ApplyFits | src/sign/Group.cpp:1574-1600 | every command keeps atomic displays with a frame for each slave |
| GroupDisplay.DispStatus.Clone | include/sign/DispStatus.h:22-29 | all ids are copied |
| GroupDisplay.DispStatus.Equal | include/sign/DispStatus.h:61-84 | true exactly for statuses that show the same |
| GroupDisplay.Display.NormalMode | src/sign/Group.cpp:208-278 | the objects do in one tick what the state machine says |
| GroupDisplay.Display.LoadDsNext | src/sign/Group.cpp:1689-1726 | the objects load what the state machine loads |
| GroupDisplay.Display.CheckFault | src/sign/Group.cpp:210-241 | the objects take the onset and the end of a fault as the state machine does |
| GroupDisplay.Display.DispBackup | src/sign/Group.cpp:1491-1498 | what was kept becomes pending, unless something is pending |
| GroupDisplay.Display.DispExt | src/sign/Group.cpp:1440-1482 | which external inputs are taken |
| GroupDisplay.Display.DispFrm | src/sign/Group.cpp:1524-1551 | which frame commands are accepted, and what becomes pending |
| GroupDisplay.Display.DispMsg | src/sign/Group.cpp:1553-1572 | which message commands are accepted, and what becomes pending |
| GroupDisplay.Display.DispAtomic | src/sign/GroupIslus.cpp:84-95 | an atomic frame command that is accepted makes its frames pending |
| GroupDisplay.Display.Perform | src/sign/Group.cpp:1430-1572 | any command or input does to the objects what the state machine says |
| Edges.State5.Set | include/module/Utils.h:44-51 | a rising edge from every state but a high one |
| Edges.State5.Clr | include/module/Utils.h:52-59 | a falling edge from every state but a low one |
| AtomicFrame.CmdDispAtomicFrm | src/sign/Controller.cpp:565-604 | accepted exactly when as many entries as signs name signs of the group, none twice, with defined frames that are not barred, one speed, and no conflict between adjacent lanes once the signs not named show what they report |
| AtomicFrame.CheckAdjacentLane | src/sign/Controller.cpp:831-873 | the loop that fills in reported frames finds a conflict exactly when two neighbours conflict |
| AtomicFrame.DispAtomicFrm | src/sign/GroupIslus.cpp:42-95 | accepted exactly without duplicates, with one speed and no barred frame, and the status holds the frame of each sign named |
| AtomicFrame.EverySignIsNamed | src/sign/Controller.cpp:572-594 | pigeonhole: equal count, membership and no duplicates name every sign exactly once |
| AtomicFrame.AcceptedSetsEverySign | src/sign/GroupIslus.cpp:84-91 | an accepted command sets every slot of the status, each from the one entry that names its sign |
| AtomicFrame.AcceptedHasFrames | src/sign/Controller.cpp:572-601 | an accepted command is an atomic display with a frame other than 0 for each sign |
| AtomicFrame.AcceptedSpeedsAgree | src/sign/GroupIslus.cpp:63-77 | all speed frames of an accepted command agree |
| AtomicFrame.AcceptedIsSafe | src/sign/Controller.cpp:831-873 | between neighbours of an accepted display: none of 185 and 195 before 184, 189, 194 or 199, and none of 189 and 199 before 184 or 194 |
| AtomicFrame.ConflictByNumber | src/sign/Controller.cpp:831-873 | these are all the conflicts |
| AtomicFrame.SpeedsByNumber | src/sign/GroupIslus.cpp:97-106 | the frames that show a speed, by their numbers |
| AtomicFrame.NoSignIsLeftOut | src/sign/GroupIslus.cpp:42-95 | of the commands that pass the checks of the group itself, exactly those that name no foreign sign, which the controller sees to, leave no sign of the group at frame 0 |
| TxQueue.RingBuf.Push | include/module/RingBuf.h:22-46 | the contents gain as much of the input as there is room for, at the end |
| TxQueue.RingBuf.Pop | include/module/RingBuf.h:48-72 | the contents lose what is returned, from the front, also when the pop position rests at the end of the buffer |
| TxQueue.RingGrows | include/module/RingBuf.h:32-43 | writing round the end of the buffer appends to the contents |
| TxQueue.RingShrinks | include/module/RingBuf.h:58-69 | advancing round the end of the buffer drops from the front |
| TxQueue.Operator.TxBytes | src/module/IOperator.cpp:6-39 | all of the payload is accepted or nothing, exactly when there is room and the port can write; what was accepted is what was written, then the small buffer, then the ring |
| TxQueue.Operator.TxHandle | src/module/IOperator.cpp:50-79 | nothing is lost or reordered under any partial write, and a write that takes something makes progress |
| TxQueue.Operator.ClrTx | src/module/IOperator.cpp:41-48 | nothing is left to send and the port no longer waits |
| TxQueue.Operator.ReadyMeansSent | include/module/IOperator.h:16-16 | a port that is ready has written everything it accepted |
| TextLines.CheckSub | src/tsisp003/Frame.cpp:290-327 | for every text, columns and rows: the counting loop accepts exactly the texts whose lines fit the rows, where without a column no line is ever full |
| TextLines.ToStringVector | src/tsisp003/Frame.cpp:413-461 | for every text, columns and rows: the table loop yields exactly the counted lines, with no index out of range and nothing cut off; of a longer text the first lines; and without a column or row it leaves the table at the first character that is not a space |
| TextLines.LinesJoin | src/tsisp003/Frame.cpp:425-451 | the lines put together are the text without its spaces |
| TextLines.LineLengths | src/tsisp003/Frame.cpp:425-451 | every line has 1 to columns characters and no space |
| TextLines.LinesAreLong | src/tsisp003/Frame.cpp:425-451 | a line that is not full ends at a space or with the text |
| TextLines.AcceptedTextFits | src/tsisp003/Frame.cpp:349-371 | the lines of an accepted text fit the sign in both directions, so no margin is negative |
| TextLines.AcceptedIsLaidOut | src/tsisp003/Frame.cpp:290-461 | an accepted text is laid out in the lines that were counted exactly when at least one column fits the sign or the text has nothing but spaces |
| TextLines.AcceptedButNotLaidOut | src/tsisp003/Frame.cpp:290-461 | concrete text that is accepted and then leaves the table of lines |
| TextLines.BlankHasNoLines | src/tsisp003/Frame.cpp:413-461 | a text has no lines exactly when it has nothing but spaces |
| Twilight.BoundariesOfEveryDay | src/module/Tz_AU.cpp:215-277 | on every day from 1901 to 2099, for every decoded and built-in table, the four boundaries are strictly ordered, within the day, and each between its two solstice values |
| Twilight.DayIsOnTheLine | src/module/Tz_AU.cpp:267-276 | on every day of every year each boundary has moved from the value of the last solstice towards that of the next in proportion to the days gone by, cut to whole seconds |
| Twilight.BoundaryIsOnTheLine | src/module/Tz_AU.cpp:272-274 | the interpolation is within a second of the straight line, on the side of the first value |
| Twilight.BoundariesStayOrdered | src/module/Tz_AU.cpp:267-276 | a minute apart at both ends leaves at least 59 seconds in between, under division truncated toward zero |
| Twilight.BoundaryIsBetween | src/module/Tz_AU.cpp:267-276 | a boundary lies between its two solstice values |
| Twilight.BoundaryAtSolstice | src/module/Tz_AU.cpp:215-225 | at both ends of the half year the formula gives the table value |
| Twilight.DayCountIsRight | src/module/Tz_AU.cpp:240-266 | day count and half year are those of the Gregorian calendar exactly when the half year contains no start of a year that is divisible by four but no leap year |
| Twilight.DayCount | src/module/Tz_AU.cpp:240-266 | by how much day count and half year differ from the calendar, on every day of every year |
| Twilight.SolsticesByMonths | src/module/Tz_AU.cpp:232-238 | the solstices by the lengths of the months |
| Twilight.DayCountOfTheCentury | src/module/Tz_AU.cpp:240-266 | from 1901 to 2099 the day count stays within the half year, and but for the last ten days of 2099 it is that of the calendar |
| Twilight.DayCountGrows | src/module/Tz_AU.cpp:240-266 | the count grows by one a day, across New Year as well, and starts again at each solstice |
| Twilight.SolsticeDay | src/module/Tz_AU.cpp:215-225 | the special case of the source equals the formula on that day |
| Twilight.CitiesAreOrdered | src/module/Tz_AU.cpp:10-20 | the nine built-in tables are ordered |
| Twilight.TzAu.DecodeTwilight | src/module/Tz_AU.cpp:142-189 | accepted exactly when all eight times are valid and in order, and then each is 60 times its hours and its minutes; a refused string leaves the table alone |
| Twilight.TzAu.NewTwilightTime | src/module/Tz_AU.cpp:215-277 | the object computes the four boundaries of the day, which are those of DayIsOnTheLine |
| Debouncing.CountersTellTheRun | include/module/Debounce.h:68-111 | in every run from a known state the counters keep their limits, and the level flips exactly with a sample that makes the trailing run of opposite samples weigh its limit |
| Debouncing.EdgesAreFlips | include/module/Utils.h:44-59 | an edge appears with exactly the event that flips the level, in the direction of the flip |
| Debouncing.EdgesTakeTurns | include/module/Utils.h:44-59 | in every run, of two edges with none between them one is rising and the other falling |
| Debouncing.GlitchesAreIgnored | include/module/Debounce.h:68-86 | while no run of opposite samples reaches its limit the level stays |
| Debouncing.FirstLevelNeedsNoRun | include/module/Debounce.h:68-86 | concrete samples that set the first level without a run, and of which a known input takes no notice |
| Debouncing.FirstLevelGoesByTotals | include/module/Debounce.h:68-86 | for every run of samples a fresh input stays unknown exactly while the samples of neither level weigh their limit in total |
| Debouncing.FirstLevelIsDecided | include/module/Debounce.h:68-86 | the sample with which the samples of its level first weigh their limit sets that level with the edge towards it |
| Debouncing.Debounce.Check | include/module/Debounce.h:68-86 | one sample with its weight |
| Debouncing.Debounce.SetState | include/module/Debounce.h:38-52 | a level set without an edge, from which the state is known |

## Left out

- MessageTask.MsgTask.Resume: every wait is a stop, even where the source goes on at once because nothing has to be waited for; runs of the source are runs of the model in which nothing happens in between. It does not say when the group may load another display.
- MessageTask.EntryIsSeen: stated of checksums, which is all a slave reports; that two frames differ although their checksums agree is excluded only for the differences named in `CrcDetection`.
- MessageTask.MsgTask.Start: a message of one entry without a time is excluded, since `src/sign/Group.cpp:584-587` never sets its slot; MessageTask.MsgTask.StartUnset says what its start does, and no more of it is followed.
- DisplayTasks.GroupTasks.Run: a run is followed no further than the first tick in which the message task goes on at an overtaken line, a message is begun that never sets its slot, a stray entry is sent, or slot 1 is shown under a blank order; what the coroutines do from there depends on what the slots happen to hold. The fields the source leaves unset before the first start begin as 0 and false.
- DisplayTasks.GroupTasks.Tick: the message defined under an id, the packets made of frames, when the message task lets the group load, and which frame of a message counts as on display are inputs of the tick, and so is the plan's minute, whose table is the subject of `PlanTable` and `PlanControl`.
- MessageTask.MsgTask.SendAgain: a value of the local outside the six places of a message reads and writes outside the arrays of the source; the model stops there and says nothing of what is sent.
- MessageTask.MsgTask.SendEntry: frames and messages stay as they are while they are on display, which the source sees to by refusing to replace active ones; that a reset takes that protection away for as long as a fault lasts is not modelled.
- Overlay.OverAssociates: the special frames of ISLUS groups, which go out by their id alone, past overlays and composing (`src/sign/GroupIslus.cpp:143-178`), are not modelled; the results on composed frames are for frames with pixels.
- Leftovers.WhenOverlaysStay: says when a frame begins over leftover overlays, not what it then looks like; the packets of the frame task are inputs.
- MessageTask.MsgTask.Wipe: a wiped message is composed as by the code without overlays, in the depth of the message; that frames of one bit a pixel then go out in their own depth is not modelled.
- GroupBus.Bus.SlaveSetFrame: the bus lock, the waiting times and the images kept for the status page are not modelled, nor the making of a packet before its pixels.
- DisplayArbiter.Tick: what the message task does to the display and to the ready flag is an input of the tick; `HandOver` has the tasks themselves.
- GroupDisplay.Display.NormalMode: switch and reset commands reach the objects through `Perform`, by the same assignments as frame commands, and have no methods of their own.
- Nts.LayerNTS.Rx: broadcast packets are dropped before anything else looks at them (`src/layer/LayerNTS.cpp:48`), so the branches for them are not modelled; the byte reported for a packet of a bad length is read outside an array and is a parameter.
- StopAndWait.EveryRunStaysInStep: one reply for each command is assumed; the handlers that reply twice are not part of this model.
- SessionHandlers.App.Password: whether the password is right is an input; seeds, offsets and the shift register are not modelled.
- TxQueue.Operator.TxBytes: `write` may take any part of the data or fail; descriptors and epoll are one flag.
- Twilight.TzAu.NewTwilightTime: calendar date and midnight are inputs; the static cache shared by all objects, daylight saving and the comparison with the present time are not modelled.
- Twilight.TzAu.DecodeTwilight: scanning of numbers is an input.
- Overlay.SetWithOrBuf4: frames are given at the depth of the overlay; the conversion of one-bit frames is not modelled, and overlays of 24 bits are refused by the source.
- TextLines.ToStringVector: fonts enter by their cell sizes; the drawing of characters is not modelled.
- AtomicFrame.CmdDispAtomicFrm: the display check of the group (power, switch, fault) is one input, and the log and store of the command are not modelled.
- PlanGroups.Controller.CmdSystemReset: of a reset only what concerns plans; dimming, power, faults and logs are not modelled.
- Debouncing.Debounce.Check: sampling by time, which calls it with the time passed as weight, and changes of the limits while in use are not modelled.
- Sign-test mode, in which slot 1 is shown when a time is over, confirmed or not, and which leaves the message task at its line; its runs are not part of `DisplayTasks`.
- Dimming, power sequencing, extended status, firmware upgrade and the fault and event logs.
- Sockets, serial ports, timers, GPIO, I2C, configuration files, the web interface and printing.
- Frame records and their stores, status replies, user-defined commands: they would only add easy members.
